/** Points as 32-byte strings: ge_tobytes and ge_frombytes_negate_vartime. */
module Compress {
  import opened Words
  import opened Field
  import opened FieldBytes
  import opened FieldPow
  import opened FermatField
  import opened Groups
  import opened Edwards
  import opened Ge

  /** s is the encoding of p: y in 255 bits and the parity of x on top (section 5.1.2 of RFC 8032). */
  ghost predicate Encodes(s: seq<byte>, p: Pt) {
    |s| == 32 && LE(s) == p.y + (P + 19) * (p.x % 2)
  }

  lemma {:induction false} XorAbove(x: nat, n: nat)
    requires x < Pow2(n)
    ensures Xor(x, Pow2(n)) == x + Pow2(n)
  {
    hide Pow2, Xor;
    if n == 0 {
      PowZero();
      XorZeroOne();
    } else {
      var q := Pow2(n - 1);
      Pow2Double(n);
      XorAbove(x / 2, n - 1);
      XorHalves(x, 2 * q);
      EvenSum(0, q);
      EvenSum(x, q);
      FromHalves(Xor(x, 2 * q), x + 2 * q);
    }
  }

  lemma XorZeroOne()
    ensures Xor(0, 1) == 1
  {
    assert Xor(0, 1) == 1 + 2 * Xor(0, 0);
  }

  lemma EvenSum(x: nat, q: nat)
    ensures (x + 2 * q) % 2 == x % 2 && (x + 2 * q) / 2 == x / 2 + q
  {
  }

  lemma TopWeight()
    ensures Pow2(248) * 128 == P + 19 && Pow2(7) == 128
  {
    hide Pow2;
    Pow2Small();
    Pow2Literals();
    Pow2Sum(64, 64, 0x1_0000_0000_0000_0000, 0x1_0000_0000_0000_0000);
    Pow2Sum(128, 64, 0x1_0000_0000_0000_0000_0000_0000_0000_0000, 0x1_0000_0000_0000_0000);
    Pow2Sum(192, 32, 0x1_0000_0000_0000_0000_0000_0000_0000_0000_0000_0000_0000_0000, 0x1_0000_0000);
    Pow2Sum(224, 24, 0x1_0000_0000_0000_0000_0000_0000_0000_0000_0000_0000_0000_0000_0000_0000, 0x100_0000);
  }

  lemma TopByte(s: seq<byte>)
    requires |s| == 32
    ensures LE(s) == LE(s[..31]) + Pow2(248) * s[31] && LE(s[..31]) < Pow2(248)
  {
    hide Pow2, LE;
    LastByte(s, 31);
    assert s[..32] == s;
    LEBound(s[..31]);
  }

  /** s[31] ^= sign << 7 on a string below 2^255. */
  method SetSign(s: seq<byte>, sign: int) returns (t: seq<byte>)
    requires |s| == 32 && LE(s) < P + 19 && (sign == 0 || sign == 1)
    ensures |t| == 32 && LE(t) == LE(s) + (P + 19) * sign
  {
    hide Pow2, LE, Xor;
    TopWeight();
    TopByte(s);
    if s[31] >= 128 { MulBelow(Pow2(248), 128, s[31]); }
    XorAbove(s[31], 7);
    XorZero(s[31]);
    var top := Xor(s[31], sign * 128);
    t := s[31 := top];
    TopByte(t);
    assert t[..31] == s[..31];
    SignValue(Pow2(248), s[31], sign);
  }

  lemma SignValue(w: int, b: int, sign: int)
    ensures w * (b + sign * 128) == w * b + w * 128 * sign
  {
  }

  /** Dividing the denominator out of a projective coordinate. */
  lemma Affine(x: int, X: int, Z: int, recip: int, v: int)
    requires Fermat() && Mod(Z) != 0 && Mod(recip) == Mod(Pow(Z, P - 2)) && Mod(X) == Mod(x * Z)
    requires Mod(v) == Mod(X * recip)
    ensures Mod(v) == Mod(x)
  {
    hide Mod, Fermat, Pow;
    Inverse(Z, recip);
    ModZero(0);
    ModMul(X, x * Z, recip, recip);
    ModMul(x, x, Z * recip, 1);
    MulAssoc(x, Z, recip);
  }

  lemma UnitNonzero(z: int)
    requires Unit(z)
    ensures Mod(z) != 0
  {
    var i :| Mod(z * i) == 1;
    ModZero(z);
    hide Mod;
    if Mod(z) == 0 {
      ModMul(z, 0, i, i);
      ModZero(0);
      assert false;
    }
  }

  lemma Reduced(p: Pt)
    requires OnCurve(p)
    ensures Mod(p.x) == p.x < P && Mod(p.y) == p.y < P
  {
    ModIs(p.x);
    ModIs(p.y);
  }

  /** ge_tobytes and ge_p3_tobytes: whatever the denominator, the bytes encode the affine point. */
  method ToBytes(h: GeP2, ghost p: Pt) returns (s: seq<byte>)
    requires Fermat() && OnCurve(p) && IsP2(h, p)
    ensures Encodes(s, p)
  {
    hide Mod, Val, Below, Fermat, Unit, Pow, LE, OnCurve;
    Reduced(p);
    UnitNonzero(Val(h.Z));
    Widen(h.Z, TIGHT, LOOSE);
    var recip := FeInvert(h.Z);
    Widen(h.X, TIGHT, LOOSE);
    Widen(h.Y, TIGHT, LOOSE);
    Widen(recip, TIGHT, LOOSE);
    var x := FeMul(h.X, recip);
    var y := FeMul(h.Y, recip);
    Affine(p.x, Val(h.X), Val(h.Z), Val(recip), Val(x));
    Affine(p.y, Val(h.Y), Val(h.Z), Val(recip), Val(y));
    Widen(x, TIGHT, CARRYABLE);
    Widen(y, TIGHT, CARRYABLE);
    Carries(x);
    Carries(y);
    s := FeToBytes(y);
    var sign := FeIsNegative(x);
    s := SetSign(s, sign);
  }

  // ---- decompression ----

  /** u = y^2 - 1 and v = d y^2 + 1: x lies over y on the curve exactly when v x^2 = u. */
  ghost predicate Over(Y: int, u: int, v: int) {
    Mod(u) == Mod(Y * Y - 1) && Mod(v) == Mod(D * (Y * Y) + 1)
  }

  lemma CurveEquation(X: int, Y: int, u: int, v: int)
    requires Over(Y, u, v)
    ensures Mod(X * X * v) == Mod(u) <==> Mod(Y * Y - X * X) == Mod(1 + D * (X * X * (Y * Y)))
  {
    hide Mod;
    var a, b := X * X, Y * Y;
    ModMul(a, a, v, D * b + 1);
    assert a * (D * b + 1) == D * (a * b) + a;
    if Mod(a * v) == Mod(u) {
      ModAdd(D * (a * b) + a, b - 1, 1 - a, 1 - a);
    } else if Mod(b - a) == Mod(1 + D * (a * b)) {
      ModAdd(b - a, 1 + D * (a * b), a - 1, a - 1);
    }
  }

  /** Multiplying a root of -u by a square root of -1 gives a root of u. */
  lemma RotatedRoot(X: int, X': int, i: int, u: int, v: int, vxx: int)
    requires Mod(vxx) == Mod(X * X * v) && Mod(vxx + u) == 0 && Mod(i * i) == Mod(-1) && Mod(X') == Mod(X * i)
    ensures Mod(X' * X' * v) == Mod(u)
  {
    hide Mod;
    ModZero(vxx + u);
    ModMul(X', X * i, X', X * i);
    MulInterchange(X, i, X, i);
    ModMul(X * X, X * X, i * i, -1);
    ModMul(X' * X', X * X * -1, v, v);
    assert X * X * -1 * v == 0 - X * X * v;
    ModAdd(0, 0, vxx, X * X * v);
    ModAdd(vxx + u, 0, vxx, vxx);
  }

  /** The candidate root u v^3 (u v^7)^((P-5)/8) and v times its square. */
  method Candidate(u: Fe, v: Fe) returns (x: Fe, vxx: Fe)
    requires Below(u, LOOSE) && Below(v, LOOSE)
    ensures Below(x, TIGHT) && Below(vxx, TIGHT)
    ensures Mod(Val(x)) == Mod(RootOf(Val(u), Val(v)))
    ensures Mod(Val(vxx)) == Mod(Val(x) * Val(x) * Val(v))
  {
    hide Mod, Val, Below, Pow;
    var v2 := FeSq(v);
    var v3 := MulAny(v2, v);
    var t := FeSq(v3);
    var t1 := MulAny(t, v);
    var w := MulAny(t1, u);
    var e := FePow22523(w);
    var y := MulAny(e, v3);
    x := MulAny(y, u);
    var xx := FeSq(x);
    vxx := MulAny(xx, v);
    ghost var U, V := Val(u), Val(v);
    ModMul(Val(v2), V * V, V, V);
    CandidateAlgebra(U, V, Val(v3), Val(t), Val(t1), Val(w), Val(e), Val(y), Val(x));
    ModMul(Val(xx), Val(x) * Val(x), V, V);
  }

  ghost function SeventhPower(U: int, V: int): int {
    V * V * V * (V * V * V) * V * U
  }

  ghost function RootOf(U: int, V: int): int {
    Pow(SeventhPower(U, V), (P - 5) / 8) * (V * V * V) * U
  }

  lemma CandidateAlgebra(U: int, V: int, v3: int, t: int, t1: int, w: int, e: int, y: int, x: int)
    requires Mod(v3) == Mod(V * V * V) && Mod(t) == Mod(v3 * v3) && Mod(t1) == Mod(t * V) && Mod(w) == Mod(t1 * U)
    requires Mod(e) == Mod(Pow(w, (P - 5) / 8)) && Mod(y) == Mod(e * v3) && Mod(x) == Mod(y * U)
    ensures Mod(x) == Mod(RootOf(U, V))
  {
    hide Mod, Pow;
    var c := V * V * V;
    ModMul(v3, c, v3, c);
    ModMul(t, c * c, V, V);
    ModMul(t1, c * c * V, U, U);
    PowMod(w, SeventhPower(U, V), (P - 5) / 8);
    ModMul(e, Pow(SeventhPower(U, V), (P - 5) / 8), v3, c);
    ModMul(y, Pow(SeventhPower(U, V), (P - 5) / 8) * c, U, U);
  }

  method MulAny(f: Fe, g: Fe) returns (h: Fe)
    requires (Below(f, TIGHT) || Below(f, LOOSE)) && (Below(g, TIGHT) || Below(g, LOOSE))
    ensures Mod(Val(h)) == Mod(Val(f) * Val(g)) && Below(h, TIGHT) && Below(h, LOOSE)
  {
    hide Mod, Val;
    h := FeMul(f, g);
  }

  /** v times the squared candidate is u times a (P-1)/4-th power. */
  lemma CandidateSquare(U: int, V: int, X: int)
    requires Mod(X) == Mod(RootOf(U, V))
    ensures Mod(X * X * V) == Mod(Pow(SeventhPower(U, V), (P - 1) / 4) * U)
  {
    hide Mod, Pow;
    var c, w, e := V * V * V, SeventhPower(U, V), (P - 5) / 8;
    var n := Pow(w, e);
    ModMul(X, n * c * U, X, n * c * U);
    ModMul(X * X, n * c * U * (n * c * U), V, V);
    CandidateIdentity(n, c, U, V);
    PowAdd(w, e, e);
    PowAdd(w, 1, e + e);
    PowOne(w);
    assert w * (n * n) * U == n * n * w * U;
  }

  lemma PowOne(w: int)
    ensures Pow(w, 1) == w
  {
    assert Pow(w, 1) == w * Pow(w, 0);
  }

  lemma CandidateIdentity(n: int, c: int, U: int, V: int)
    ensures n * c * U * (n * c * U) * V == n * n * (c * c * V * U) * U
  {
    MulInterchange(n * c, U, n * c, U);
    MulInterchange(n, c, n, c);
    var a, b := n * n, c * c;
    assert n * c * U * (n * c * U) == a * b * (U * U);
    Regroup(a, b, U, V);
  }

  lemma Regroup(a: int, b: int, U: int, V: int)
    ensures a * b * (U * U) * V == a * (b * V * U) * U
  {
    assert a * b * (U * U) * V == a * (b * (U * U) * V) by { MulAssoc(a, b, U * U); MulAssoc(a, b * (U * U), V); }
    assert b * (U * U) * V == b * V * U * U by { MulAssoc(b * V, U, U); }
    MulAssoc(a, b * V * U, U);
  }

  /** If u/v has a square root at all, the candidate's square times v is u or -u. */
  lemma RootFound(U: int, V: int, a: int, X: int)
    requires Fermat() && Mod(a * a * V) == Mod(U) && Mod(X) == Mod(RootOf(U, V))
    ensures Mod(X * X * V) == Mod(U) || Mod(X * X * V) == Mod(0 - U)
  {
    hide Mod, Pow, Fermat, RootOf, SeventhPower;
    var n := Pow(SeventhPower(U, V), (P - 1) / 4);
    CandidateSquare(U, V, X);
    var m := V * V * V * V * a;
    if Mod(V) != 0 && Mod(a) != 0 {
      Nonzero(V, a);
      SeventhIsSquare(U, V, a);
      PowMod(SeventhPower(U, V), m * m, (P - 1) / 4);
      QuarterPower(m);
      ModZero(1);
      if Mod(n) == 1 {
        ModMul(n, 1, U, U);
      } else {
        ModMul(n, 0 - 1, U, U);
        assert (0 - 1) * U == 0 - U;
      }
    } else {
      ZeroRoot(U, V, a);
      ModMul(n, n, U, 0);
    }
  }

  lemma ZeroRoot(U: int, V: int, a: int)
    requires Mod(a * a * V) == Mod(U) && (Mod(V) == 0 || Mod(a) == 0)
    ensures Mod(U) == Mod(0)
  {
    hide Mod;
    ModZero(V);
    ModZero(a);
    if Mod(V) == 0 {
      ModMul(a * a, a * a, V, 0);
    } else {
      ModMul(a, 0, a, a);
      ModMul(a * a, 0, V, V);
    }
  }

  lemma Nonzero(V: int, a: int)
    requires Fermat() && Mod(V) != 0 && Mod(a) != 0
    ensures Mod(V * V * V * V * a) != 0
  {
    hide Mod, Fermat;
    if Mod(V * V * V * V * a) == 0 {
      NoZeroDivisors(V * V * V * V, a);
      NoZeroDivisors(V * V * V, V);
      NoZeroDivisors(V * V, V);
      NoZeroDivisors(V, V);
      assert false;
    }
  }

  lemma SeventhIsSquare(U: int, V: int, a: int)
    requires Mod(a * a * V) == Mod(U)
    ensures var m := V * V * V * V * a; Mod(SeventhPower(U, V)) == Mod(m * m)
  {
    hide Mod;
    var c := V * V * V;
    ModMul(c * c * V, c * c * V, U, a * a * V);
    MulInterchange(c * V, a, c * V, a);
    MulInterchange(c, V, c, V);
    SeventhIdentity(c * c, V, a * a);
  }

  lemma SeventhIdentity(x: int, V: int, y: int)
    ensures x * V * (y * V) == x * (V * V) * y
  {
    MulInterchange(x, V, y, V);
    MulAssoc(x, V * V, y);
    MulAssoc(x, y, V * V);
  }

  /** The denominator d y^2 + 1 is nonzero over any y that has a point above it. */
  lemma DenominatorNonzero(a: int, Y: int, u: int, v: int)
    requires Over(Y, u, v) && Mod(a * a * v) == Mod(u)
    ensures Mod(v) != 0
  {
    DValue();
    ModIs(D_VALUE + 1);
    ModZero(v);
    ModZero(D + 1);
    hide Mod;
    if Mod(v) == 0 {
      ModMul(a * a, a * a, v, 0);
      ModAdd(Y * Y - 1, 0, 1, 1);
      ModMul(D, D, Y * Y, 1);
      ModAdd(D * (Y * Y), D, 1, 1);
      assert false;
    }
  }

  /** The sign rule picks the negative of the encoded point. */
  lemma SignPicksNegative(a: int, X: int, u: int, v: int)
    requires Fermat() && Mod(v) != 0 && IsRoot(a, u, v) && IsRoot(X, u, v) && 0 <= a < P
    requires Mod(X) == 0 || Mod(X) % 2 != a % 2
    ensures Mod(X) == Mod(0 - a)
  {
    hide Fermat, Mod;
    CancelSquare(X * X, a * a, v, u);
    RootsOfSame(X, a);
    OppositeParity(a, X);
  }

  /** A common nonzero factor cancels. */
  lemma CancelSquare(s: int, t: int, v: int, u: int)
    requires Fermat() && Mod(s * v) == Mod(u) && Mod(t * v) == Mod(u) && Mod(v) != 0
    ensures Mod(s) == Mod(t)
  {
    hide Fermat, Mod;
    ModAdd(s * v, t * v, t * v, t * v);
    assert (s - t) * v == s * v - t * v;
    ModZero((s - t) * v);
    NoZeroDivisors(s - t, v);
    ModZero(s - t);
    ModAdd(s - t, 0, t, t);
  }

  /** Of two square roots, only zero has itself as the one of the other parity. */
  lemma OppositeParity(a: int, X: int)
    requires 0 <= a < P && (Mod(X) == 0 || Mod(X) % 2 != a % 2) && (Mod(X) == Mod(a) || Mod(X) == Mod(0 - a))
    ensures Mod(X) == Mod(0 - a)
  {
    ModIs(a);
    ModIs(0 - a);
  }

  /** u = y^2 - 1 and v = d y^2 + 1 in limbs. */
  method Denominators(y: Fe) returns (u: Fe, v: Fe)
    requires Below(y, R)
    ensures Below(u, MEDIUM) && Below(v, MEDIUM) && Over(Val(y), Val(u), Val(v))
  {
    Constants();
    assert Val(FE_1) == 1 && Below(FE_1, TIGHT);
    Widen(y, R, LOOSE);
    Widen(ED_D, TIGHT, LOOSE);
    hide Mod, Val, Below;
    var yy := FeSq(y);
    var dyy := MulAny(yy, ED_D);
    u := SubTight(yy, FE_1);
    v := AddTight(dyy, FE_1);
    ghost var Y := Val(y);
    ModAdd(Val(yy), Y * Y, 1, 1);
    ModMul(Val(yy), Y * Y, D, D);
    ModAdd(Val(dyy), D * (Y * Y), 1, 1);
  }

  ghost predicate IsRoot(a: int, u: int, v: int) {
    Mod(a * a * v) == Mod(u)
  }

  lemma RootFoundIfAny(U: int, V: int, X: int)
    requires Fermat() && (exists a: int :: IsRoot(a, U, V)) && Mod(X) == Mod(RootOf(U, V))
    ensures Mod(X * X * V) == Mod(U) || Mod(X * X * V) == Mod(0 - U)
  {
    hide Mod, Fermat, RootOf;
    var a :| IsRoot(a, U, V);
    RootFound(U, V, a, X);
  }

  /** The root of v x^2 = u: the candidate, or its rotation by sqrt(-1), if either is one. */
  method SquareRoot(u: Fe, v: Fe) returns (ok: bool, x: Fe)
    requires Below(u, MEDIUM) && Below(v, MEDIUM)
    ensures Below(x, TIGHT)
    ensures ok ==> IsRoot(Val(x), Val(u), Val(v))
    ensures Fermat() ==> (ok <==> exists a: int :: IsRoot(a, Val(u), Val(v)))
  {
    hide Mod, Val, Below, Fermat, RootOf, Pow, IsRoot;
    Constants();
    Widen(u, MEDIUM, LOOSE);
    Widen(v, MEDIUM, LOOSE);
    var c, vxx := Candidate(u, v);
    if Fermat() && exists a: int :: IsRoot(a, Val(u), Val(v)) {
      RootFoundIfAny(Val(u), Val(v), Val(c));
    }
    ok, x := ChooseRoot(u, v, c, vxx);
  }

  /** The two root checks of the candidate c, with vxx = v c^2. */
  method ChooseRoot(u: Fe, v: Fe, c: Fe, vxx: Fe) returns (ok: bool, x: Fe)
    requires Below(u, MEDIUM) && Below(vxx, TIGHT) && Below(c, TIGHT)
    requires Mod(Val(vxx)) == Mod(Val(c) * Val(c) * Val(v))
    ensures Below(x, TIGHT)
    ensures ok ==> IsRoot(Val(x), Val(u), Val(v))
    ensures ok <==> Mod(Val(vxx)) == Mod(Val(u)) || Mod(Val(vxx)) == Mod(0 - Val(u))
  {
    Constants();
    hide Mod, Val, Below;
    var minus := SubAny(vxx, u);
    var zero := FeIsZero(minus);
    DifferenceZero(Val(vxx), Val(u), Val(minus));
    x := c;
    ok := true;
    if zero == 0 {
      var plus := SumAny(vxx, u);
      zero := FeIsZero(plus);
      DifferenceZero(Val(vxx), 0 - Val(u), Val(plus));
      if zero == 0 {
        return false, c;
      }
      x := MulAny(c, SQRTM1);
      RotatedRoot(Val(c), Val(x), Val(SQRTM1), Val(u), Val(v), Val(vxx));
    }
  }

  lemma DifferenceZero(a: int, b: int, c: int)
    requires Mod(c) == Mod(a - b)
    ensures Mod(c) == 0 <==> Mod(a) == Mod(b)
  {
    ModZero(c);
    hide Mod;
    if Mod(c) == 0 {
      ModAdd(a - b, 0, b, b);
    } else if Mod(a) == Mod(b) {
      ModAdd(a, b, b, b);
      assert false;
    }
  }

  method SubAny(f: Fe, g: Fe) returns (h: Fe)
    requires Below(f, TIGHT) && Below(g, MEDIUM)
    ensures Mod(Val(h)) == Mod(Val(f) - Val(g)) && Carryable(h)
  {
    hide Mod, Val, Carryable;
    Carries(g);
    h := FeSub(f, g);
    Carries(h);
  }

  method SumAny(f: Fe, g: Fe) returns (h: Fe)
    requires Below(f, TIGHT) && Below(g, MEDIUM)
    ensures Val(h) == Val(f) + Val(g) && Carryable(h)
  {
    h := FeAdd(f, g);
    Widen(h, TIGHT + MEDIUM, CARRYABLE);
    Carries(h);
  }

  /** Flips x when its parity equals the sign bit, so that a nonzero x ends with the opposite parity. */
  method ApplySign(x: Fe, sign: int) returns (h: Fe)
    requires Below(x, TIGHT) && (sign == 0 || sign == 1)
    ensures Below(h, TIGHT) && Mod(Val(h) * Val(h)) == Mod(Val(x) * Val(x))
    ensures Mod(Val(h)) == 0 || Mod(Val(h)) % 2 != sign
  {
    hide Val, Below, Mod;
    Widen(x, TIGHT, CARRYABLE);
    Carries(x);
    var odd := FeIsNegative(x);
    h := x;
    if odd == sign {
      h := FeNeg(x);
      FlippedParity(Val(h), Val(x));
      FlippedSquare(Val(h), Val(x));
    }
  }

  lemma FlippedParity(h: int, X: int)
    requires Mod(h) == Mod(0 - X)
    ensures Mod(h) == 0 || Mod(h) % 2 != Mod(X) % 2
  {
    hide Mod;
    ModIs(X);
    ModIs(0 - X);
    NegatedRemainder(X);
  }

  lemma NegatedRemainder(X: int)
    ensures (0 - X) % P == if X % P == 0 then 0 else P - X % P
  {
    var q, r := X / P, X % P;
    assert X == q * P + r;
    if r == 0 {
      DivUnique(0 - X, P, 0 - q, 0);
    } else {
      DivUnique(0 - X, P, 0 - q - 1, P - r);
    }
  }

  lemma FlippedSquare(h: int, X: int)
    requires Mod(h) == Mod(0 - X)
    ensures Mod(h * h) == Mod(X * X)
  {
    hide Mod;
    ModMul(h, 0 - X, h, 0 - X);
    assert (0 - X) * (0 - X) == X * X;
  }

  lemma SignBit(s: seq<byte>)
    requires |s| == 32
    ensures s[31] / 128 == LE(s) / (P + 19)
  {
    hide Pow2, LE;
    TopWeight();
    TopByte(s);
    var w, lo := Pow2(248), LE(s[..31]);
    assert s[31] == 128 * (s[31] / 128) + s[31] % 128;
    SignSplit(w, s[31] / 128, s[31] % 128);
    MulBelow(w, s[31] % 128, 127);
    DivUnique(LE(s), P + 19, s[31] / 128, lo + w * (s[31] % 128));
  }

  lemma SignSplit(w: int, q: int, r: int)
    ensures w * (128 * q + r) == q * (w * 128) + w * r
  {
  }

  const NO_POINT: GeP3 := GeP3(FE_0, FE_0, FE_0, FE_0)

  ghost predicate OnCurveAt(x: int, y: int) {
    OnCurve(Pt(x, y))
  }

  /** Some curve point has this y coordinate. */
  ghost predicate HasPoint(y: int) {
    exists x: int :: OnCurveAt(x, y)
  }

  /** The affine point h stands for when its denominator is 1. */
  ghost function PointOf(h: GeP3): Pt {
    Pt(Mod(Val(h.X)), Mod(Val(h.Y)))
  }

  /**
   * ge_frombytes_negate_vartime. On success the result has Z = 1 and T = XY, lies on the curve over the encoded y,
   * and a nonzero x has the parity opposite to the sign bit. Every encoding of a curve point is accepted and yields
   * the negative of that point.
   */
  method FromBytesNegate(s: seq<byte>) returns (ok: bool, h: GeP3)
    requires |s| == 32
    ensures ok ==> h.Z == FE_1 && IsP3(h, PointOf(h)) && OnCurve(PointOf(h))
    ensures ok ==> PointOf(h).y == Mod(LE(s) % (P + 19))
    ensures ok ==> PointOf(h).x == 0 || PointOf(h).x % 2 != LE(s) / (P + 19)
    ensures Fermat() ==> (ok <==> HasPoint(Mod(LE(s) % (P + 19))))
    ensures Fermat() ==> forall p: Pt :: OnCurve(p) && Encodes(s, p) ==> ok && PointOf(h) == Neg(p)
  {
    hide LE, Mod, Val, Below, Fermat, OnCurve, IsRoot, Over, Neg, Encodes;
    var y := FeFromBytes(s);
    var u, v := Denominators(y);
    SignBit(s);
    var found, x := SquareRoot(u, v);
    if !found {
      forall x: int | Fermat() && OnCurveAt(x, Mod(Val(y)))
        ensures false
      {
        PointIsRoot(x, Val(y), Val(u), Val(v));
      }
      forall p: Pt | Fermat() && OnCurve(p) && Encodes(s, p)
        ensures false
      {
        EncodedRoot(s, p, Val(y), Val(u), Val(v));
      }
      return false, NO_POINT;
    }
    x := ApplySignTo(x, s[31] / 128, Val(u), Val(v));
    Widen(y, R, TIGHT);
    Widen(y, TIGHT, LOOSE);
    var t := MulAny(x, y);
    ok, h := true, GeP3(x, y, FE_1, t);
    RootOnCurve(h, Val(u), Val(v));
    assert OnCurveAt(PointOf(h).x, PointOf(h).y);
    forall p: Pt | Fermat() && OnCurve(p) && Encodes(s, p)
      ensures PointOf(h) == Neg(p)
    {
      EncodedRoot(s, p, Val(y), Val(u), Val(v));
      NegatedPoint(s, p, h, Val(u), Val(v));
    }
  }

  /** A curve point over the residue of Y is a root for Y. */
  lemma PointIsRoot(x: int, Y: int, u: int, v: int)
    requires OnCurve(Pt(x, Mod(Y))) && Over(Y, u, v)
    ensures IsRoot(x, u, v)
  {
    var y := Mod(Y);
    ReducedPoint(x, Y);
    assert Mod(y * y - x * x) == Mod(1 + D * (x * x * (y * y)));
    hide Mod, OnCurve;
    ModMul(y, Y, y, Y);
    ModMul(D, D, y * y, Y * Y);
    ModAdd(y * y, Y * Y, 1, 1);
    ModAdd(D * (y * y), D * (Y * Y), 1, 1);
    CurveEquation(x, y, u, v);
  }

  method ApplySignTo(x: Fe, sign: int, ghost u: int, ghost v: int) returns (h: Fe)
    requires Below(x, TIGHT) && (sign == 0 || sign == 1) && IsRoot(Val(x), u, v)
    ensures Below(h, TIGHT) && IsRoot(Val(h), u, v)
    ensures Mod(Val(h)) == 0 || Mod(Val(h)) % 2 != sign
  {
    hide Val, Below, Mod;
    h := ApplySign(x, sign);
    ModMul(Val(h) * Val(h), Val(x) * Val(x), v, v);
  }

  /** A root over y makes a point in extended coordinates. */
  lemma RootOnCurve(h: GeP3, u: int, v: int)
    requires Below(h.X, TIGHT) && Below(h.Y, TIGHT) && Below(h.T, TIGHT) && h.Z == FE_1
    requires Mod(Val(h.T)) == Mod(Val(h.X) * Val(h.Y))
    requires Over(Val(h.Y), u, v) && IsRoot(Val(h.X), u, v)
    ensures IsP3(h, PointOf(h)) && OnCurve(PointOf(h))
  {
    var X, Y, p := Val(h.X), Val(h.Y), PointOf(h);
    assert Val(FE_1) == 1;
    UnitTwo();
    CurveEquation(X, Y, u, v);
    ReducedPoint(X, Y);
    hide Val, Over, IsRoot, Unit, Mod;
    ModMul(p.x, X, p.y, Y);
  }

  lemma ReducedPoint(X: int, Y: int)
    ensures Mod(Mod(X)) == Mod(X) && Mod(Mod(Y)) == Mod(Y)
    ensures Mod(Y * Y - X * X) == Mod(1 + D * (X * X * (Y * Y))) ==> OnCurve(Pt(Mod(X), Mod(Y)))
  {
    var x, y := Mod(X), Mod(Y);
    ModIs(x);
    ModIs(y);
    hide Mod;
    ModMul(x, X, x, X);
    ModMul(y, Y, y, Y);
    ModAdd(y * y, Y * Y, x * x, X * X);
    ModMul(x * x, X * X, y * y, Y * Y);
    ModMul(D, D, x * x * (y * y), X * X * (Y * Y));
    ModAdd(1, 1, D * (x * x * (y * y)), D * (X * X * (Y * Y)));
  }

  /** A point that s encodes is a root over the y that s decodes to. */
  lemma EncodedRoot(s: seq<byte>, p: Pt, Y: int, u: int, v: int)
    requires OnCurve(p) && Encodes(s, p) && Y == LE(s) % (P + 19) && Over(Y, u, v)
    ensures Y == p.y && IsRoot(p.x, u, v) && LE(s) / (P + 19) == p.x % 2
  {
    assert Y == p.y && LE(s) / (P + 19) == p.x % 2;
    hide LE, Encodes;
    CurveEquation(p.x, Y, u, v);
  }

  lemma NegatedPoint(s: seq<byte>, p: Pt, h: GeP3, u: int, v: int)
    requires Fermat() && OnCurve(p) && Val(h.Y) == p.y && Over(p.y, u, v)
    requires IsRoot(p.x, u, v) && IsRoot(Val(h.X), u, v)
    requires Mod(Val(h.X)) == 0 || Mod(Val(h.X)) % 2 != p.x % 2
    ensures PointOf(h) == Neg(p)
  {
    Reduced(p);
    assert 0 <= p.x;
    hide Fermat, OnCurve, Over, Mod, Val;
    DenominatorNonzero(p.x, p.y, u, v);
    SignPicksNegative(p.x, Val(h.X), u, v);
  }

  /** N is what decoding s gives: the curve point over the encoded y whose nonzero x has the other parity. */
  ghost predicate Decodes(s: seq<byte>, N: Pt) {
    |s| == 32 && OnCurve(N) && N.y == Mod(LE(s) % (P + 19)) && (N.x == 0 || N.x % 2 != LE(s) / (P + 19))
  }

  /** Decoding is a function: there is at most one such point. */
  lemma DecodesOnce(s: seq<byte>, M: Pt, N: Pt)
    requires Fermat() && Decodes(s, M) && Decodes(s, N)
    ensures M == N
  {
    hide Fermat, LE, OnCurve, Mod;
    SignBit(s);
    SameX(M.x, N.x, N.y, LE(s) / (P + 19));
  }

  lemma SameX(a: int, b: int, y: int, bit: int)
    requires Fermat() && OnCurve(Pt(a, y)) && OnCurve(Pt(b, y)) && 0 <= bit <= 1
    requires (a == 0 || a % 2 != bit) && (b == 0 || b % 2 != bit)
    ensures a == b
  {
    hide Fermat, OnCurve, Mod;
    var u, v := y * y - 1, D * (y * y) + 1;
    RootOver(a, y, u, v);
    RootOver(b, y, u, v);
    DenominatorNonzero(a, y, u, v);
    CancelSquare(a * a, b * b, v, u);
    RootsOfSame(a, b);
    SameParity(a, b, bit);
  }

  lemma RootOver(x: int, y: int, u: int, v: int)
    requires OnCurve(Pt(x, y)) && u == y * y - 1 && v == D * (y * y) + 1
    ensures 0 <= x < P && Over(y, u, v) && Mod(x * x * v) == Mod(u)
  {
    hide Mod;
    CurveEquation(x, y, u, v);
  }

  lemma SameParity(a: int, b: int, bit: int)
    requires 0 <= a < P && 0 <= b < P && (Mod(a) == Mod(b) || Mod(a) == Mod(0 - b)) && 0 <= bit <= 1
    requires (a == 0 || a % 2 != bit) && (b == 0 || b % 2 != bit)
    ensures a == b
  {
    hide Mod;
    NegatedResidue(a);
    NegatedResidue(b);
    assert 0 - b == -b;
  }

  /** The encoding of a point decodes to the negative of that point. */
  lemma EncodedDecodes(s: seq<byte>, p: Pt)
    requires OnCurve(p) && OnCurve(Neg(p)) && Encodes(s, p)
    ensures Decodes(s, Neg(p))
  {
    hide LE, Mod;
    assert 0 <= p.x < P && 0 <= p.y < P;
    hide OnCurve;
    DivUnique(LE(s), P + 19, p.x % 2, p.y);
    NegatedResidue(p.x);
    NegatedResidue(p.y);
  }

  lemma NegatedResidue(x: int)
    requires 0 <= x < P
    ensures Mod(x) == x && Mod(-x) == (if x == 0 then 0 else P - x)
    ensures Mod(-x) == 0 || Mod(-x) % 2 != x % 2
  {
    ModIs(x);
    ModIs(-x);
  }

  /**
   * Section 5.1.3 of RFC 8032 refuses a y of p or more and the sign bit on x = 0. Bytes the code decodes are the
   * encoding of the point exactly when neither is the case.
   */
  lemma CanonicalIff(s: seq<byte>, N: Pt)
    requires Decodes(s, N)
    ensures Encodes(s, Neg(N)) <==> LE(s) % (P + 19) < P && !(N.x == 0 && LE(s) / (P + 19) == 1)
  {
    hide LE, Mod;
    assert 0 <= N.x < P && 0 <= N.y < P;
    hide OnCurve;
    SignBit(s);
    NegatedResidue(N.x);
    OnceReduced(LE(s) % (P + 19));
    assert LE(s) == LE(s) % (P + 19) + (P + 19) * (LE(s) / (P + 19));
  }

  lemma OnceReduced(y: int)
    requires 0 <= y < P + 19
    ensures Mod(y) == if y < P then y else y - P
  {
    ModIs(y);
  }

  /** Both kinds are accepted: p + 1 with or without the sign bit, and 1 with it, decode to the neutral element. */
  lemma OtherEncodings(s: seq<byte>)
    requires |s| == 32 && LE(s) in {P + 1, P + 1 + (P + 19), 1 + (P + 19)}
    ensures Decodes(s, Pt(0, 1)) && !Encodes(s, Pt(0, 1))
  {
    hide LE, Mod;
    OnceReduced(1);
    OnceReduced(P + 1);
    NeutralOnCurve();
    hide OnCurve;
    if LE(s) == P + 1 {
      DivUnique(LE(s), P + 19, 0, P + 1);
    } else {
      DivUnique(LE(s), P + 19, 1, LE(s) - (P + 19));
    }
  }

  lemma NeutralOnCurve()
    ensures OnCurve(Pt(0, 1))
  {
    hide Mod;
    assert 1 * 1 - 0 * 0 == 1 + D * (0 * 0 * (1 * 1));
  }

  lemma DecodesHasPoint(s: seq<byte>, N: Pt)
    requires Decodes(s, N)
    ensures HasPoint(Mod(LE(s) % (P + 19)))
  {
    hide LE, OnCurve, Mod;
    assert OnCurveAt(N.x, N.y);
  }
}
