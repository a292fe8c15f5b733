/** Table-driven scalar multiplication (sections 6 and 8 of cookbook_ed25519.c). */
module ScalarMult {
  import opened Words
  import opened Digits
  import opened Field
  import opened FieldBytes
  import opened Groups
  import opened Edwards
  import opened Ge
  import opened Slide

  // ---- constant-time selection ----

  /** The top bit of the 64-bit two's complement of x. */
  function TopBit(x: int): int {
    x % 0x1_0000_0000_0000_0000 / 0x8000_0000_0000_0000
  }

  lemma TopBitIsSign(x: int)
    requires -256 <= x < 256
    ensures TopBit(x) == if x < 0 then 1 else 0
  {
  }

  /** The sign bit of b. */
  function CtNegative(b: i8): (r: int)
    ensures r == if b < 0 then 1 else 0
  {
    hide TopBit;
    TopBitIsSign(b);
    TopBit(b)
  }

  /** 1 exactly when the two chars are equal: only then does the exclusive-or minus one borrow. */
  function CtEqual(b: i8, c: i8): (r: int)
    ensures r == if b == c then 1 else 0
  {
    hide TopBit, Xor;
    XorOfChars(b % 256, c % 256);
    var x := Xor(b % 256, c % 256);
    TopBitIsSign(x - 1);
    TopBit(x - 1)
  }

  lemma XorOfChars(x: nat, y: nat)
    requires x < 256 && y < 256
    ensures Xor(x, y) < 256 && (Xor(x, y) == 0 <==> x == y)
  {
    Pow2Literals();
    hide Xor, Pow2;
    XorBound(x, y, 8);
    XorCancels(x, y);
    XorZero(x);
    XorSelf(x);
  }

  lemma {:induction false} XorSelf(x: nat)
    ensures Xor(x, x) == 0
  {
    if x != 0 {
      XorSelf(x / 2);
    }
  }

  /** |b| by the unsigned 32-bit expression b - 2 * (-bneg & b). */
  function CtAbs(b: i8): (r: int)
    requires -8 <= b <= 8
    ensures r == if b < 0 then -b else b
  {
    hide And;
    var ub, bneg := b % 0x1_0000_0000, CtNegative(b);
    Masked(bneg, ub);
    AbsoluteValue(b, ub);
    (ub - And(-bneg % 0x1_0000_0000, ub) * 2) % 0x1_0000_0000
  }

  lemma AbsoluteValue(b: int, ub: int)
    requires -8 <= b <= 8 && ub == b % 0x1_0000_0000
    ensures (ub - (if b < 0 then ub else 0) * 2) % 0x1_0000_0000 == if b < 0 then -b else b
  {
  }

  lemma Masked(bneg: int, ub: nat)
    requires 0 <= bneg <= 1 && ub < 0x1_0000_0000
    ensures And(-bneg % 0x1_0000_0000, ub) == if bneg == 1 then ub else 0
  {
    Pow2Literals();
    hide Pow2;
    AndOnes(32, ub);
  }

  method PrecompCmov(t: GePrecomp, u: GePrecomp, b: int) returns (r: GePrecomp)
    requires b == 0 || b == 1
    ensures r == if b == 1 then u else t
  {
    var x := FeCmov(t.yplusx, u.yplusx, b);
    var y := FeCmov(t.yminusx, u.yminusx, b);
    var z := FeCmov(t.xy2d, u.xy2d, b);
    r := GePrecomp(x, y, z);
  }

  const PRECOMP_0: GePrecomp := GePrecomp(FE_1, FE_1, FE_0)

  lemma IdentityEntry()
    ensures IsPrecomp(PRECOMP_0, Pt(0, 1))
  {
  }

  method NegateEntry(t: GePrecomp, ghost p: Pt) returns (r: GePrecomp)
    requires IsPrecomp(t, p)
    ensures IsPrecomp(r, Neg(p))
  {
    PrecompIsCached(t, p);
    hide Mod, Val, Neg;
    var z := FeNeg(t.xy2d);
    r := GePrecomp(t.yminusx, t.yplusx, z);
    NegatedSums(p, 1, Val(t.yplusx), Val(t.yminusx));
    NegatedMultiple(p, 1, Val(t.xy2d));
  }

  /** ge_cmov8: the table entry for b times the base, b in [-8, 8], with no secret-dependent branch or index. */
  method Cmov8(table: seq<GePrecomp>, b: i8, ghost base: Pt, ghost add: (Pt, Pt) -> Pt) returns (t: GePrecomp)
    requires |table| == 8 && -8 <= b <= 8 && IsEdwards(add) && OnCurve(base)
    requires forall j :: 0 <= j < 8 ==> IsPrecomp(table[j], Mul(Curve(add), j + 1, base))
    ensures IsPrecomp(t, Mul(Curve(add), b, base))
  {
    hide IsPrecomp, IsEdwards, OnCurve, IsGroup, Mul;
    var bneg, babs := CtNegative(b), CtAbs(b);
    t := PRECOMP_0;
    for j := 0 to 8
      invariant t == if 1 <= babs <= j then table[babs - 1] else PRECOMP_0
    {
      t := PrecompCmov(t, table[j], CtEqual(babs, j + 1));
    }
    SelectedMultiple(add, babs, base);
    IdentityEntry();
    assert IsPrecomp(t, Mul(Curve(add), babs, base)) by {
      if babs > 0 { assert t == table[babs - 1]; }
    }
    var minust := NegateEntry(t, Mul(Curve(add), babs, base));
    t := PrecompCmov(t, minust, bneg);
  }

  lemma SelectedMultiple(add: (Pt, Pt) -> Pt, n: int, base: Pt)
    requires IsEdwards(add) && OnCurve(base)
    ensures Mul(Curve(add), -n, base) == Neg(Mul(Curve(add), n, base))
    ensures Mul(Curve(add), 0, base) == Pt(0, 1)
  {
    hide IsGroup, OnCurve, Mul, IsSum, Unit, Cross;
    MulNeg(Curve(add), n, base);
    MulOne(Curve(add), base);
  }

  // ---- radix-16 digits ----

  lemma OneByte(x: byte)
    ensures LE([x]) == x
  {
    assert LE([x]) == x + 256 * LE([]);
  }

  lemma Nibbles(a: seq<byte>, i: nat)
    requires |a| == 32 && i < 32
    ensures a[i] % 16 == Bits(LE(a), 4 * (2 * i), 4) && a[i] / 16 % 16 == Bits(LE(a), 4 * (2 * i + 1), 4)
  {
    hide Pow2, LE;
    assert a[i..i + 1] == [a[i]];
    OneByte(a[i]);
    Pow2Small();
    PowZero();
    LESlice(a, i, 1);
    BitsOfBits(LE(a), 8 * i, 8, 0, 4);
    BitsOfBits(LE(a), 8 * i, 8, 4, 4);
  }

  method LoadNibbles(e: array<i8>, a: seq<byte>)
    requires e.Length == 64 && |a| == 32 && LE(a) < Pow2(255)
    modifies e
    ensures Weight(e[..], 4, 0) == LE(a) && e[63] <= 7
    ensures forall k :: 0 <= k < 64 ==> 0 <= e[k] < 16
  {
    hide LE, Weight, Bits, Pow2;
    for i := 0 to 32
      invariant forall k :: 0 <= k < 2 * i ==> e[k] == Bits(LE(a), 4 * k, 4) && 0 <= e[k] < 16
    {
      Nibbles(a, i);
      e[2 * i + 0] := a[i] % 16;
      e[2 * i + 1] := a[i] / 16 % 16;
    }
    NibbleWeight(LE(a), e[..]);
  }

  lemma TopNibble(v: nat)
    requires v < Pow2(255)
    ensures Bits(v, 252, 4) == v / Pow2(252) <= 7
  {
    hide Pow2;
    Pow2Literals();
    SmallPowers(3);
    Pow2Add(252, 3);
    DivBelow(v, Pow2(252), 8);
    SmallMod(v / Pow2(252));
  }

  lemma SmallMod(q: int)
    requires 0 <= q < 8
    ensures q % 16 == q
  {
  }

  lemma NibbleWeight(v: nat, s: seq<int>)
    requires |s| == 64 && v < Pow2(255) && forall k :: 0 <= k < 64 ==> s[k] == Bits(v, 4 * k, 4)
    ensures Weight(s, 4, 0) == v && s[63] <= 7
  {
    hide Pow2, Weight, Horner, Bits;
    PowZero();
    TopNibble(v);
    FieldsHorner(v, s, 4, 0);
    WeightHorner(s, 4, 0);
  }

  /** The signed radix-16 recoding: every digit ends in [-8, 8], and the last one absorbs the final carry. */
  method Radix16(e: array<i8>, a: seq<byte>)
    requires e.Length == 64 && |a| == 32 && LE(a) < Pow2(255)
    modifies e
    ensures Weight(e[..], 4, 0) == LE(a)
    ensures forall k :: 0 <= k < 64 ==> -8 <= e[k] <= 8
  {
    hide LE, Weight, Pow2;
    LoadNibbles(e, a);
    var carry: i8 := 0;
    for i := 0 to 63
      invariant 0 <= carry <= 1 && Weight(e[..], 4, 0) + carry * Pow2(4 * i) == LE(a)
      invariant e[63] <= 7
      invariant forall k :: 0 <= k < i ==> -8 <= e[k] <= 7
      invariant forall k :: i <= k < 64 ==> 0 <= e[k] < 16
    {
      ghost var s: seq<int> := e[..];
      var d := e[i] + carry;
      var c := (d + 8) / 16;
      RecodeStep(s, i, carry, c);
      e[i] := d - c * 16;
      carry := c;
      assert e[..] == s[i := d - c * 16];
    }
    ghost var s: seq<int> := e[..];
    WeightUpdate(s, 4, 63, s[63] + carry, 0);
    e[63] := e[63] + carry;
    assert e[..] == s[63 := s[63] + carry];
  }

  lemma RecodeStep(s: seq<int>, i: nat, carry: int, c: int)
    requires i < |s|
    ensures Weight(s[i := s[i] + carry - c * 16], 4, 0) + c * Pow2(4 * (i + 1)) == Weight(s, 4, 0) + carry * Pow2(4 * i)
  {
    hide Weight, Pow2;
    Pow2Small();
    var x := s[i] + carry - c * 16;
    WeightUpdate(s, 4, i, x, 0);
    Pow2Stride(4, i);
    RecodeIdentity(Weight(s[i := x], 4, 0), Weight(s, 4, 0), x - s[i], carry, c, Pow2(4 * i), Pow2(4 * (i + 1)));
  }

  lemma RecodeIdentity(after: int, before: int, d: int, carry: int, c: int, p: int, q: int)
    requires after == before + d * p && d == carry - c * 16 && q == 16 * p
    ensures after + c * q == before + carry * p
  {
  }

  // ---- fixed-base multiplication ----

  /** The digits at even (off = 0) or odd (off = 1) places below 2j, weighted by 256^k. */
  ghost function HalfSum(e: seq<int>, off: nat, j: nat): int
    requires off <= 1 && 2 * j <= |e|
  {
    if j == 0 then 0 else HalfSum(e, off, j - 1) + e[2 * (j - 1) + off] * Pow2(8 * (j - 1))
  }

  lemma {:induction false} HalfSums(e: seq<int>, j: nat)
    requires 2 * j <= |e|
    ensures Weight(e, 4, 0) - Weight(e, 4, 2 * j) == HalfSum(e, 0, j) + 16 * HalfSum(e, 1, j)
  {
    if j > 0 {
      HalfSums(e, j - 1);
      PairStep(e, j - 1);
    }
  }

  lemma PairStep(e: seq<int>, k: nat)
    requires 2 * k + 2 <= |e|
    ensures Weight(e, 4, 2 * k) == e[2 * k] * Pow2(8 * k) + 16 * (e[2 * k + 1] * Pow2(8 * k)) + Weight(e, 4, 2 * k + 2)
  {
    assert Pow2(4) == 16;
    assert Weight(e, 4, 2 * k) == e[2 * k] * Pow2(4 * (2 * k)) + Weight(e, 4, 2 * k + 1);
    assert Weight(e, 4, 2 * k + 1) == e[2 * k + 1] * Pow2(4 * (2 * k + 1)) + Weight(e, 4, 2 * k + 2);
    hide Weight, Pow2;
    Pow2Stride(4, 2 * k);
    PairIdentity(e[2 * k + 1], Pow2(8 * k));
  }

  lemma PairIdentity(x: int, p: int)
    ensures x * (16 * p) == 16 * (x * p)
  {
  }

  /** base_table: entry [i][j] is (j+1) * 256^i times the base point. */
  ghost predicate IsBaseTable(table: seq<seq<GePrecomp>>, base: Pt, add: (Pt, Pt) -> Pt) {
    && |table| == 32
    && forall i :: 0 <= i < 32 ==> IsTableRow(table[i], Mul(Curve(add), Pow2(8 * i), base), add)
  }

  ghost predicate IsTableRow(row: seq<GePrecomp>, p: Pt, add: (Pt, Pt) -> Pt) {
    |row| == 8 && forall j :: 0 <= j < 8 ==> IsPrecomp(row[j], Mul(Curve(add), j + 1, p))
  }

  lemma MultipleOnCurve(add: (Pt, Pt) -> Pt, n: int, p: Pt)
    requires IsEdwards(add) && OnCurve(p)
    ensures OnCurve(Mul(Curve(add), n, p))
  {
    hide IsGroup, OnCurve, Mul, IsSum, Unit, Cross;
    MulHas(Curve(add), n, p);
  }

  lemma AddMultiples(add: (Pt, Pt) -> Pt, m: int, d: int, n: int, p: Pt)
    requires IsEdwards(add) && OnCurve(p)
    ensures add(Mul(Curve(add), m, p), Mul(Curve(add), d, Mul(Curve(add), n, p))) == Mul(Curve(add), m + d * n, p)
  {
    hide IsGroup, OnCurve, Mul, IsSum, Unit, Cross;
    MulMul(Curve(add), d, n, p);
    MulAdd(Curve(add), m, d * n, p);
  }

  /** One table step: h := h + e * (256^i B). */
  method TableStep(h: GeP3, row: seq<GePrecomp>, b: i8, ghost m: int, ghost n: int, ghost base: Pt,
                   ghost add: (Pt, Pt) -> Pt) returns (r: GeP3)
    requires IsEdwards(add) && OnCurve(base) && -8 <= b <= 8
    requires IsTableRow(row, Mul(Curve(add), n, base), add) && IsP3(h, Mul(Curve(add), m, base))
    ensures IsP3(r, Mul(Curve(add), m + b * n, base))
  {
    hide IsEdwards, OnCurve, Mul, IsP3, IsP1P1, IsPrecomp, Curve;
    ghost var p := Mul(Curve(add), n, base);
    MultipleOnCurve(add, n, base);
    MultipleOnCurve(add, m, base);
    MultipleOnCurve(add, b, p);
    var t := Cmov8(row, b, p, add);
    var s := Madd(h, t, Mul(Curve(add), m, base), Mul(Curve(add), b, p), add);
    AddMultiples(add, m, b, n, base);
    r := P1P1ToP3(s, Mul(Curve(add), m + b * n, base));
  }

  method Half(h0: GeP3, e: seq<i8>, table: seq<seq<GePrecomp>>, off: nat, ghost m: int, ghost base: Pt,
              ghost add: (Pt, Pt) -> Pt) returns (h: GeP3)
    requires IsEdwards(add) && OnCurve(base) && IsBaseTable(table, base, add) && off <= 1
    requires |e| == 64 && forall k :: 0 <= k < 64 ==> -8 <= e[k] <= 8
    requires IsP3(h0, Mul(Curve(add), m, base))
    ensures IsP3(h, Mul(Curve(add), m + HalfSum(e, off, 32), base))
  {
    hide *;
    HalfStep(e, off, 0);
    h := h0;
    var i := off;
    ghost var k := 0;
    while i < 64
      invariant i == 2 * k + off && k <= 32
      invariant IsP3(h, Mul(Curve(add), m + HalfSum(e, off, k), base))
    {
      h := HalfTurn(h, e, table, i, off, k, m, base, add);
      i, k := i + 2, k + 1;
    }
  }

  lemma TableRow(table: seq<seq<GePrecomp>>, k: nat, base: Pt, add: (Pt, Pt) -> Pt)
    requires IsBaseTable(table, base, add) && k < 32
    ensures |table| == 32 && IsTableRow(table[k], Mul(Curve(add), Pow2(8 * k), base), add)
  {
    hide IsTableRow, Mul, Curve, Pow2;
  }

  /** One turn of the table loop adds the digit's share. */
  method HalfTurn(h0: GeP3, e: seq<i8>, table: seq<seq<GePrecomp>>, i: nat, ghost off: nat, ghost k: nat, ghost m: int,
                  ghost base: Pt, ghost add: (Pt, Pt) -> Pt) returns (h: GeP3)
    requires IsEdwards(add) && OnCurve(base) && IsBaseTable(table, base, add) && off <= 1
    requires i == 2 * k + off < 64 == |e| && -8 <= e[i] <= 8
    requires IsP3(h0, Mul(Curve(add), m + HalfSum(e, off, k), base))
    ensures IsP3(h, Mul(Curve(add), m + HalfSum(e, off, k + 1), base))
  {
    hide *;
    TableRow(table, k, base, add);
    HalfStep(e, off, k);
    assert i / 2 == k;
    h := TableStep(h0, table[i / 2], e[i], m + HalfSum(e, off, k), Pow2(8 * k), base, add);
  }

  lemma HalfStep(e: seq<int>, off: nat, k: nat)
    requires off <= 1 && 2 * k + 2 <= |e|
    ensures HalfSum(e, off, k + 1) == HalfSum(e, off, k) + e[2 * k + off] * Pow2(8 * k) && HalfSum(e, off, 0) == 0
  {
    hide Pow2;
  }

  lemma DoubleMultiple(add: (Pt, Pt) -> Pt, m: int, p: Pt)
    requires IsEdwards(add) && OnCurve(p)
    ensures add(Mul(Curve(add), m, p), Mul(Curve(add), m, p)) == Mul(Curve(add), 2 * m, p)
    ensures OnCurve(Mul(Curve(add), m, p))
  {
    hide IsGroup, OnCurve, Mul, IsSum, Unit, Cross;
    MultipleOnCurve(add, m, p);
    MulAdd(Curve(add), m, m, p);
  }

  /** Four doublings. */
  method TimesSixteen(h: GeP3, ghost m: int, ghost base: Pt, ghost add: (Pt, Pt) -> Pt) returns (r: GeP3)
    requires IsEdwards(add) && OnCurve(base) && IsP3(h, Mul(Curve(add), m, base))
    ensures IsP3(r, Mul(Curve(add), 16 * m, base))
  {
    hide IsEdwards, OnCurve, Mul, IsP3, IsP2, IsP1P1, Curve;
    DoubleMultiple(add, m, base);
    DoubleMultiple(add, 2 * m, base);
    DoubleMultiple(add, 4 * m, base);
    DoubleMultiple(add, 8 * m, base);
    var t := P3Dbl(h, Mul(Curve(add), m, base), add);
    var s := P1P1ToP2(t, Mul(Curve(add), 2 * m, base));
    t := P2Dbl(s, Mul(Curve(add), 2 * m, base), add);
    s := P1P1ToP2(t, Mul(Curve(add), 4 * m, base));
    t := P2Dbl(s, Mul(Curve(add), 4 * m, base), add);
    s := P1P1ToP2(t, Mul(Curve(add), 8 * m, base));
    t := P2Dbl(s, Mul(Curve(add), 8 * m, base), add);
    r := P1P1ToP3(t, Mul(Curve(add), 16 * m, base));
  }

  const P3_0: GeP3 := GeP3(FE_0, FE_1, FE_1, FE_0)

  lemma NeutralElement(add: (Pt, Pt) -> Pt, p: Pt)
    requires IsEdwards(add) && OnCurve(p)
    ensures IsP3(P3_0, Mul(Curve(add), 0, p))
  {
    hide IsEdwards, OnCurve, Mul;
    SelectedMultiple(add, 0, p);
    UnitTwo();
  }

  /** ge_scalarmult_base: for every scalar below 2^255 the result represents scalar * B. */
  method ScalarmultBase(a: seq<byte>, table: seq<seq<GePrecomp>>, ghost base: Pt, ghost add: (Pt, Pt) -> Pt)
    returns (h: GeP3)
    requires |a| == 32 && LE(a) < Pow2(255)
    requires IsEdwards(add) && OnCurve(base) && IsBaseTable(table, base, add)
    ensures IsP3(h, Mul(Curve(add), LE(a), base))
  {
    hide IsEdwards, OnCurve, IsBaseTable, Mul, IsP3, LE, Pow2, Curve;
    var e := new i8[64];
    Radix16(e, a);
    h := P3_0;
    NeutralElement(add, base);
    ghost var odd := HalfSum(e[..], 1, 32);
    h := Half(h, e[..], table, 1, 0, base, add);
    h := TimesSixteen(h, odd, base, add);
    h := Half(h, e[..], table, 0, 16 * odd, base, add);
    HalfSums(e[..], 32);
  }

  // ---- double-scalar multiplication ----

  /** Ai: entry k is (2k+1) A, cached. */
  ghost predicate IsOddTable(table: seq<GeCached>, n: nat, p: Pt, add: (Pt, Pt) -> Pt) {
    |table| == n && forall k :: 0 <= k < n ==> IsCached(table[k], Mul(Curve(add), 2 * k + 1, p))
  }

  /** Bi: entry k is (2k+1) B, precomputed. */
  ghost predicate IsOddPrecomp(table: seq<GePrecomp>, p: Pt, add: (Pt, Pt) -> Pt) {
    |table| == 8 && forall k :: 0 <= k < 8 ==> IsPrecomp(table[k], Mul(Curve(add), 2 * k + 1, p))
  }

  lemma NextOdd(add: (Pt, Pt) -> Pt, m: int, n: int, p: Pt)
    requires IsEdwards(add) && OnCurve(p)
    ensures add(Mul(Curve(add), m, p), Mul(Curve(add), n, p)) == Mul(Curve(add), m + n, p)
    ensures Mul(Curve(add), 1, p) == p
  {
    hide IsGroup, OnCurve, Mul, IsSum, Unit, Cross;
    MulAdd(Curve(add), m, n, p);
    MulOne(Curve(add), p);
  }

  /** The eight odd multiples of A. */
  method OddMultiples(A: GeP3, ghost p: Pt, ghost add: (Pt, Pt) -> Pt) returns (Ai: seq<GeCached>)
    requires IsEdwards(add) && OnCurve(p) && IsP3(A, p)
    ensures IsOddTable(Ai, 8, p, add)
  {
    hide IsEdwards, OnCurve, Mul, IsP3, IsP1P1, IsCached, Curve;
    NextOdd(add, 1, 1, p);
    MultipleOnCurve(add, 2, p);
    var c := P3ToCached(A, p);
    Ai := [c];
    var t := P3Dbl(A, p, add);
    var A2 := P1P1ToP3(t, Mul(Curve(add), 2, p));
    for k := 1 to 8
      invariant IsOddTable(Ai, k, p, add)
    {
      ghost var m := 2 * k - 1;
      MultipleOnCurve(add, m, p);
      NextOdd(add, 2, m, p);
      t := AddCached(A2, Ai[k - 1], Mul(Curve(add), 2, p), Mul(Curve(add), m, p), add);
      var u := P1P1ToP3(t, Mul(Curve(add), m + 2, p));
      c := P3ToCached(u, Mul(Curve(add), m + 2, p));
      Ai := Ai + [c];
    }
  }

  /** x A + y B, as the accumulator holds it. */
  ghost function Acc(add: (Pt, Pt) -> Pt, x: int, y: int, p: Pt, q: Pt): Pt {
    Comb(Curve(add), x, y, p, q)
  }

  lemma AccSteps(add: (Pt, Pt) -> Pt, x: int, y: int, d: int, p: Pt, q: Pt)
    requires IsEdwards(add) && OnCurve(p) && OnCurve(q)
    ensures OnCurve(Acc(add, x, y, p, q))
    ensures add(Acc(add, x, y, p, q), Acc(add, x, y, p, q)) == Acc(add, 2 * x, 2 * y, p, q)
    ensures add(Acc(add, x, y, p, q), Mul(Curve(add), d, p)) == Acc(add, x + d, y, p, q)
    ensures add(Acc(add, x, y, p, q), Mul(Curve(add), d, q)) == Acc(add, x, y + d, p, q)
    ensures Acc(add, 0, 0, p, q) == Pt(0, 1)
  {
    hide IsGroup, OnCurve, Mul, Comb, IsSum, Unit, Cross;
    CombAdd(Curve(add), x, y, x, y, p, q);
    CombAddOne(Curve(add), x, y, d, p, q);
  }

  /** One digit of a: t := t + d A, by table lookup of the odd multiple |d|. */
  method StepA(t: GeP1P1, Ai: seq<GeCached>, d: i8, ghost x: int, ghost y: int, ghost p: Pt, ghost q: Pt,
               ghost add: (Pt, Pt) -> Pt) returns (r: GeP1P1)
    requires IsEdwards(add) && OnCurve(p) && OnCurve(q) && IsOddTable(Ai, 8, p, add) && Digit(d)
    requires IsP1P1(t, Acc(add, x, y, p, q))
    ensures IsP1P1(r, Acc(add, x + d, y, p, q))
  {
    hide IsEdwards, OnCurve, Mul, IsP3, IsP1P1, IsCached, Curve, Acc;
    AccSteps(add, x, y, d, p, q);
    r := t;
    if d > 0 {
      var u := P1P1ToP3(r, Acc(add, x, y, p, q));
      MultipleOnCurve(add, d, p);
      assert d == 2 * (d / 2) + 1;
      r := AddCached(u, Ai[d / 2], Acc(add, x, y, p, q), Mul(Curve(add), d, p), add);
    } else if d < 0 {
      var u := P1P1ToP3(r, Acc(add, x, y, p, q));
      MultipleOnCurve(add, -d, p);
      SelectedMultiple(add, -d, p);
      assert -d == 2 * (-d / 2) + 1;
      r := SubCached(u, Ai[-d / 2], Acc(add, x, y, p, q), Mul(Curve(add), -d, p), add);
    }
  }

  method StepB(t: GeP1P1, Bi: seq<GePrecomp>, d: i8, ghost x: int, ghost y: int, ghost p: Pt, ghost q: Pt,
               ghost add: (Pt, Pt) -> Pt) returns (r: GeP1P1)
    requires IsEdwards(add) && OnCurve(p) && OnCurve(q) && IsOddPrecomp(Bi, q, add) && Digit(d)
    requires IsP1P1(t, Acc(add, x, y, p, q))
    ensures IsP1P1(r, Acc(add, x, y + d, p, q))
  {
    hide IsEdwards, OnCurve, Mul, IsP3, IsP1P1, IsPrecomp, Curve, Acc;
    AccSteps(add, x, y, d, p, q);
    r := t;
    if d > 0 {
      var u := P1P1ToP3(r, Acc(add, x, y, p, q));
      MultipleOnCurve(add, d, q);
      assert d == 2 * (d / 2) + 1;
      r := Madd(u, Bi[d / 2], Acc(add, x, y, p, q), Mul(Curve(add), d, q), add);
    } else if d < 0 {
      var u := P1P1ToP3(r, Acc(add, x, y, p, q));
      MultipleOnCurve(add, -d, q);
      SelectedMultiple(add, -d, q);
      assert -d == 2 * (-d / 2) + 1;
      r := Msub(u, Bi[-d / 2], Acc(add, x, y, p, q), Mul(Curve(add), -d, q), add);
    }
  }

  lemma HornerZero(s: seq<int>, j: nat)
    requires j <= |s| && forall k :: j <= k < |s| ==> s[k] == 0
    ensures Horner(s, 1, j) == 0
    decreases |s| - j
  {
    if j < |s| {
      HornerZero(s, j + 1);
    }
  }

  const P2_0: GeP2 := GeP2(FE_0, FE_1, FE_1)

  /** ge_double_scalarmult_vartime: for scalars below 2^255 the result represents a A + b B. */
  method DoubleScalarmult(a: seq<byte>, A: GeP3, b: seq<byte>, Bi: seq<GePrecomp>, ghost p: Pt, ghost q: Pt,
                          ghost add: (Pt, Pt) -> Pt) returns (r: GeP2)
    requires |a| == |b| == 32 && LE(a) < Pow2(255) && LE(b) < Pow2(255)
    requires IsEdwards(add) && OnCurve(p) && OnCurve(q) && IsP3(A, p) && IsOddPrecomp(Bi, q, add)
    ensures IsP2(r, Comb(Curve(add), LE(a), LE(b), p, q))
  {
    hide IsEdwards, OnCurve, Mul, IsP3, IsP2, IsP1P1, IsOddTable, IsOddPrecomp, LE, Pow2, Acc, Weight, Digit, Spaced;
    var aslide := new i8[256];
    var bslide := new i8[256];
    SlideVartime(aslide, a);
    SlideVartime(bslide, b);
    ghost var u: seq<int>, v: seq<int> := aslide[..], bslide[..];
    assert forall k :: 0 <= k < 256 ==> u[k] == aslide[k] && v[k] == bslide[k] && Digit(u[k]) && Digit(v[k]);
    var Ai := OddMultiples(A, p, add);
    r := P2_0;
    var i := 255;
    while i >= 0 && aslide[i] == 0 && bslide[i] == 0
      invariant -1 <= i <= 255
      invariant forall k :: i < k < 256 ==> u[k] == 0 && v[k] == 0
    {
      assert u[i] == aslide[i] && v[i] == bslide[i];
      i := i - 1;
    }
    HornerZero(u, i + 1);
    HornerZero(v, i + 1);
    StartP2(add, p, q);
    while i >= 0
      invariant -1 <= i <= 255 && u == aslide[..] && v == bslide[..]
      invariant IsP2(r, Acc(add, Horner(u, 1, i + 1), Horner(v, 1, i + 1), p, q))
    {
      r := DigitStep(r, Ai, Bi, aslide[i], bslide[i], Horner(u, 1, i + 1), Horner(v, 1, i + 1), p, q, add);
      HornerBit(u, i);
      HornerBit(v, i);
      i := i - 1;
    }
    HornerWeight(u);
    HornerWeight(v);
    UseAcc(add, LE(a), LE(b), p, q);
  }

  lemma UseAcc(add: (Pt, Pt) -> Pt, x: int, y: int, p: Pt, q: Pt)
    ensures Acc(add, x, y, p, q) == Comb(Curve(add), x, y, p, q)
  {
  }

  lemma HornerBit(s: seq<int>, i: nat)
    requires i < |s|
    ensures Horner(s, 1, i) == s[i] + 2 * Horner(s, 1, i + 1)
  {
    assert Pow2(1) == 2;
  }

  lemma HornerWeight(s: seq<int>)
    ensures Weight(s, 1, 0) == Horner(s, 1, 0)
  {
    WeightHorner(s, 1, 0);
    assert Pow2(0) == 1;
  }

  lemma StartP2(add: (Pt, Pt) -> Pt, p: Pt, q: Pt)
    requires IsEdwards(add) && OnCurve(p) && OnCurve(q)
    ensures IsP2(P2_0, Acc(add, 0, 0, p, q))
  {
    hide IsEdwards, OnCurve, Acc;
    AccSteps(add, 0, 0, 0, p, q);
    UnitTwo();
  }

  /** One round of the main loop: double, then add the two digits. */
  method DigitStep(r0: GeP2, Ai: seq<GeCached>, Bi: seq<GePrecomp>, d: i8, e: i8, ghost x: int, ghost y: int,
                   ghost p: Pt, ghost q: Pt, ghost add: (Pt, Pt) -> Pt) returns (r: GeP2)
    requires IsEdwards(add) && OnCurve(p) && OnCurve(q) && IsOddTable(Ai, 8, p, add) && IsOddPrecomp(Bi, q, add)
    requires Digit(d) && Digit(e) && IsP2(r0, Acc(add, x, y, p, q))
    ensures IsP2(r, Acc(add, d + 2 * x, e + 2 * y, p, q))
  {
    hide IsEdwards, OnCurve, IsP2, IsP1P1, IsOddTable, IsOddPrecomp, Acc, Digit, Mul, Curve;
    AccSteps(add, x, y, 0, p, q);
    var t := P2Dbl(r0, Acc(add, x, y, p, q), add);
    t := StepA(t, Ai, d, 2 * x, 2 * y, p, q, add);
    t := StepB(t, Bi, e, 2 * x + d, 2 * y, p, q, add);
    r := P1P1ToP2(t, Acc(add, 2 * x + d, 2 * y + e, p, q));
  }
}
