/** Ed25519 key generation, signing and verification (section 10 of cookbook_ed25519.c). */
module Signature {
  import opened Words
  import opened Field
  import opened FermatField
  import opened Groups
  import opened Edwards
  import opened Ge
  import opened ScalarMult
  import opened Compress
  import opened Sha
  import opened ShaStream
  import Scalar
  import ScalarBytes

  type Compression = (State, seq<byte>) -> State

  /** The transform keeps the eight chaining words eight; nothing else is asked of it. */
  ghost predicate IsCompression(compress: Compression) {
    forall s, block: seq<byte> :: Transforms(compress, s, block)
  }

  ghost predicate Transforms(compress: Compression, s: State, block: seq<byte>) {
    |s| == 8 ==> |compress(s, block)| == 8
  }

  /** SHA-512 over the padded message, for whatever the transform computes. */
  ghost function Sha512(compress: Compression, m: seq<byte>): (d: seq<byte>)
    requires IsCompression(compress)
    ensures |d| == 64
  {
    DigestLength(compress, m);
    OneShot(compress, IV512, SHA512.bs, SHA512.lf, SHA512.wb, m)
  }

  lemma DigestLength(compress: Compression, m: seq<byte>)
    requires IsCompression(compress)
    ensures |OneShot(compress, IV512, SHA512.bs, SHA512.lf, SHA512.wb, m)| == 64
  {
    hide IsCompression, Blocks, Padded;
    var p := Padded(m, 128, 16);
    PaddedIsWhole(m, 128, 16);
    EightWords(compress, IV512, p);
    WordBytesLength(Blocks(compress, 128, IV512, p), 8);
  }

  lemma {:induction false} EightWords(compress: Compression, s: State, m: seq<byte>)
    requires IsCompression(compress) && |s| == 8 && |m| % 128 == 0
    ensures |Blocks(compress, 128, s, m)| == 8
    decreases |m|
  {
    if |m| > 0 {
      OneBlockLess(|m|, 128);
      assert Transforms(compress, s, m[..128]);
      EightWords(compress, compress(s, m[..128]), m[128..]);
    }
  }

  /** With the 64 bytes hashed before it, the message stays below what the 64-bit bit count can hold. */
  predicate Hashable(msg: seq<byte>) {
    |msg| + 64 < LIMIT
  }

  /** One to three updates of a SHA-512 context and its final. */
  method Hash(compress: Compression, a: seq<byte>, b: seq<byte>, c: seq<byte>) returns (d: seq<byte>)
    requires IsCompression(compress) && |a| + |b| + |c| < LIMIT
    ensures d == Sha512(compress, a + b + c)
    ensures |Padded(a + b + c, 128, 16)| % 128 == 0
    ensures var t := Blocks(compress, 128, IV512, Padded(a + b + c, 128, 16));
      && |d| == 8 * |t|
      && forall j :: 0 <= j < |d| ==> j / 8 < |t| && d[j] == t[j / 8] / Pow2(8 * (7 - j % 8)) % 256
  {
    hide IsCompression, OneShot, Blocks, Padded, Pow2;
    ThreeParts(a, b, c);
    d := HashParts(SHA512, IV512, compress, [a, b, c]);
  }

  lemma ThreeParts(a: seq<byte>, b: seq<byte>, c: seq<byte>)
    ensures Concat([a, b, c]) == a + b + c
    ensures forall k :: 0 <= k <= 3 ==> |Concat([a, b, c][..k])| <= |a| + |b| + |c|
  {
    hide Concat;
    ConcatSnoc([], a);
    ConcatSnoc([a], b);
    ConcatSnoc([a, b], c);
    Prefixes(a, b, c);
  }

  lemma Prefixes(a: seq<byte>, b: seq<byte>, c: seq<byte>)
    ensures var parts := [a, b, c];
      && parts[..0] == [] && parts[..1] == [] + [a] == [a]
      && parts[..2] == [a] + [b] == [a, b] && parts[..3] == [a, b] + [c] == parts
    ensures [] + a == a
  {
  }

  lemma ConcatSnoc(parts: seq<seq<byte>>, p: seq<byte>)
    ensures Concat(parts + [p]) == Concat(parts) + p && Concat([]) == []
  {
    assert (parts + [p])[..|parts|] == parts;
  }

  /**
   * The clamping of the secret scalar: az[0] &= 248; az[31] &= 127; az[31] |= 64. Of the low 254 bits the last three
   * are cleared, and bit 254 is the only one set above them.
   */
  function Clamp(h: seq<byte>): (az: seq<byte>)
    requires |h| == 64
    ensures |az| == 64 && az[32..] == h[32..]
    ensures LE(az[..32]) == Pow2(254) + 8 * (LE(h[..32]) % Pow2(254) / 8) && LE(az[..32]) < Pow2(255)
  {
    var az := h[0 := h[0] - h[0] % 8][31 := 64 + h[31] % 64];
    ClampedValue(h[..32], az[..32]);
    az
  }

  lemma ClampedValue(h: seq<byte>, a: seq<byte>)
    requires |h| == |a| == 32 && a == h[0 := h[0] - h[0] % 8][31 := 64 + h[31] % 64]
    ensures LE(a) == Pow2(254) + 8 * (LE(h) % Pow2(254) / 8) && LE(a) < Pow2(255)
  {
    hide LE, Pow2;
    ClampedLow(h, a);
    TopByte(h);
    TopByte(a);
    ClampWeights();
    ClampedSum(Pow2(248), Pow2(245), LE(h[..31]), h[0], h[31], LE(a[..31]), a[31], LE(h), LE(a));
  }

  /** The 31 low bytes lose their last three bits. */
  lemma ClampedLow(h: seq<byte>, a: seq<byte>)
    requires |h| == |a| == 32 && a == h[0 := h[0] - h[0] % 8][31 := 64 + h[31] % 64]
    ensures LE(a[..31]) == LE(h[..31]) - h[0] % 8 && LE(h[..31]) % 8 == h[0] % 8 && a[31] == 64 + h[31] % 64
  {
    hide LE;
    var x, y := h[..31], a[..31];
    SameMiddle(h, a);
    LowestByte(x);
    LowestByte(y);
    LastBits(LE(x), x[0], LE(x[1..]));
  }

  lemma SameMiddle(h: seq<byte>, a: seq<byte>)
    requires |h| == |a| == 32 && a == h[0 := h[0] - h[0] % 8][31 := 64 + h[31] % 64]
    ensures var x, y := h[..31], a[..31];
      y[1..] == x[1..] && x[0] == h[0] && y[0] == h[0] - h[0] % 8 && a[31] == 64 + h[31] % 64
  {
  }

  lemma LastBits(v: nat, b: nat, rest: nat)
    requires v == b + 256 * rest
    ensures v % 8 == b % 8
  {
  }

  lemma ClampWeights()
    ensures Pow2(248) == 8 * Pow2(245) && Pow2(254) == 64 * Pow2(248) && Pow2(255) == 128 * Pow2(248)
  {
    assert Pow2(3) == 8 && Pow2(6) == 64 && Pow2(7) == 128;
    hide Pow2;
    Pow2Add(245, 3);
    Pow2Add(248, 6);
    Pow2Add(248, 7);
  }

  lemma LowestByte(s: seq<byte>)
    requires s != []
    ensures LE(s) == s[0] + 256 * LE(s[1..])
  {
  }

  /** x is lo and w·top; in y the last three bits of lo are cleared, and of top bit 6 is set and bit 7 cleared. */
  lemma ClampedSum(w: nat, v: nat, lo: nat, b0: nat, top: nat, lo': nat, top': nat, x: nat, y: nat)
    requires w == 8 * v && lo < w && lo % 8 == b0 % 8 && lo' == lo - b0 % 8 && top' == 64 + top % 64
    requires x == lo + w * top && y == lo' + w * top'
    ensures y == 64 * w + 8 * (x % (64 * w) / 8) && y < 128 * w
  {
    var q, r := top / 64, top % 64;
    SplitTop(w, q, r);
    MulBelow(w, r, 63);
    DivUnique(x, 64 * w, q, lo + w * r);
    SplitEight(v, r, lo / 8, lo % 8);
    DivUnique(lo + w * r, 8, lo / 8 + v * r, lo % 8);
  }

  lemma SplitTop(w: int, q: int, r: int)
    ensures w * (64 * q + r) == q * (64 * w) + w * r && w * (64 + r) == 64 * w + w * r
  {
  }

  lemma SplitEight(v: int, r: int, q: int, t: int)
    ensures 8 * q + t + 8 * v * r == (q + v * r) * 8 + t
  {
  }

  method ReduceHash(h: seq<byte>) returns (t: seq<byte>)
    requires |h| == 64
    ensures |t| == 32 && LE(t) == LE(h) % Scalar.L && LE(t) < Pow2(255)
  {
    hide LE, Pow2;
    var a := new byte[64];
    for k := 0 to 64
      invariant a[..k] == h[..k]
    {
      a[k] := h[k];
    }
    assert a[..] == a[..64] == h[..64] == h;
    ScalarBytes.ScReduce(a);
    t := a[..32];
    BelowOrder(LE(t));
  }

  lemma BelowOrder(v: nat)
    requires v < Scalar.L
    ensures v < Pow2(255)
  {
    hide Pow2;
    TopWeight();
    Pow2Add(248, 7);
  }

  /** ge_scalarmult_base followed by ge_p3_tobytes. */
  method BaseToBytes(a: seq<byte>, table: seq<seq<GePrecomp>>, ghost base: Pt, ghost add: (Pt, Pt) -> Pt)
    returns (s: seq<byte>)
    requires |a| == 32 && LE(a) < Pow2(255)
    requires Fermat() && IsEdwards(add) && OnCurve(base) && IsBaseTable(table, base, add)
    ensures |s| == 32 && Encodes(s, Mul(Curve(add), LE(a), base))
  {
    hide LE, Pow2, Fermat, IsEdwards, OnCurve, IsBaseTable, Mul, IsP2;
    var h := ScalarmultBase(a, table, base, add);
    MultipleOnCurve(add, LE(a), base);
    s := ToBytes(GeP2(h.X, h.Y, h.Z), Mul(Curve(add), LE(a), base));
  }

  method Keygen(seed: seq<byte>, compress: Compression, table: seq<seq<GePrecomp>>,
                ghost base: Pt, ghost add: (Pt, Pt) -> Pt) returns (pk: seq<byte>, sk: seq<byte>)
    requires |seed| == 32 && IsCompression(compress)
    requires Fermat() && IsEdwards(add) && OnCurve(base) && IsBaseTable(table, base, add)
    ensures |pk| == 32 && sk == seed + pk
    ensures var h := Sha512(compress, seed);
      Encodes(pk, Mul(Curve(add), Pow2(254) + 8 * (LE(h[..32]) % Pow2(254) / 8), base))
  {
    hide Sha512, IsCompression, LE, Fermat, IsEdwards, OnCurve, IsBaseTable, Mul, Encodes, Clamp, Pow2, Blocks, Padded;
    var az := Expand(compress, seed);
    pk := BaseToBytes(az[..32], table, base, add);
    sk := seed + pk;
  }

  /**
   * Section 5.1.6 of RFC 8032: with h the hash of the secret seed, a its clamped lower half, r the hash of its upper
   * half and the message, and k the hash of R, the public key and the message, the signature is R, which encodes
   * rB, and S = (k a + r) mod L.
   */
  method Sign(msg: seq<byte>, sk: seq<byte>, compress: Compression, table: seq<seq<GePrecomp>>,
              ghost base: Pt, ghost add: (Pt, Pt) -> Pt) returns (sig: seq<byte>)
    requires |sk| == 64 && IsCompression(compress) && Hashable(msg)
    requires Fermat() && IsEdwards(add) && OnCurve(base) && IsBaseTable(table, base, add)
    ensures |sig| == 64
    ensures var h := Sha512(compress, sk[..32]);
      var a, r := Pow2(254) + 8 * (LE(h[..32]) % Pow2(254) / 8), LE(Sha512(compress, h[32..] + msg)) % Scalar.L;
      var k := LE(Sha512(compress, sig[..32] + sk[32..] + msg)) % Scalar.L;
      && Encodes(sig[..32], Mul(Curve(add), r, base))
      && LE(sig[32..]) == (k * a + r) % Scalar.L
  {
    hide Sha512, IsCompression, LE, Fermat, IsEdwards, OnCurve, IsBaseTable, Mul, Encodes, Clamp, Pow2, Blocks, Padded;
    var az := Expand(compress, sk[..32]);
    var nonce := Scalarize(compress, az[32..], msg, []);
    assert az[32..] + msg + [] == az[32..] + msg;
    var R := BaseToBytes(nonce, table, base, add);
    var hram := Scalarize(compress, R, sk[32..], msg);
    var s := ScalarBytes.ScMulAdd(hram, az[..32], nonce);
    sig := R + s;
    assert sig[..32] == R && sig[32..] == s;
  }

  /** The hash of the seed, its lower half clamped. */
  method Expand(compress: Compression, seed: seq<byte>) returns (az: seq<byte>)
    requires |seed| == 32 && IsCompression(compress)
    ensures var h := Sha512(compress, seed);
      && |az| == 64 && az[32..] == h[32..] && LE(az[..32]) < Pow2(255)
      && LE(az[..32]) == Pow2(254) + 8 * (LE(h[..32]) % Pow2(254) / 8)
  {
    hide Sha512, IsCompression, LE, Clamp, Pow2, Blocks, Padded;
    var digest := Hash(compress, seed, [], []);
    assert seed + [] + [] == seed;
    az := Clamp(digest);
  }

  /** A hash reduced modulo L. */
  method Scalarize(compress: Compression, a: seq<byte>, b: seq<byte>, c: seq<byte>) returns (t: seq<byte>)
    requires IsCompression(compress) && |a| + |b| + |c| < LIMIT
    ensures |t| == 32 && LE(t) == LE(Sha512(compress, a + b + c)) % Scalar.L && LE(t) < Pow2(255)
  {
    hide Sha512, IsCompression, LE, Pow2, Blocks, Padded;
    var digest := Hash(compress, a, b, c);
    t := ReduceHash(digest);
  }

  lemma TopThreeBits(x: byte)
    ensures And(x, 224) == 0 <==> x < 32
  {
    hide And;
    EvenMask(x, 112);
    EvenMask(x / 2, 56);
    EvenMask(x / 4, 28);
    EvenMask(x / 8, 14);
    EvenMask(x / 16, 7);
    AndSeven(x / 32);
  }

  lemma EvenMask(x: nat, m: nat)
    ensures And(x, 2 * m) == 2 * And(x / 2, m)
  {
  }

  lemma AndSeven(y: nat)
    requires y < 8
    ensures And(y, 7) == y
  {
    assert Pow2(3) == 8;
    AndOnes(3, y);
    AndCommutes(7, y);
  }

  lemma {:induction false} AndCommutes(x: nat, y: nat)
    ensures And(x, y) == And(y, x)
  {
    if x != 0 && y != 0 {
      AndCommutes(x / 2, y / 2);
    }
  }

  /** The final comparison: or together the exclusive-ors of the bytes. */
  method SameBytes(x: seq<byte>, y: seq<byte>) returns (same: bool)
    requires |x| == |y| == 32
    ensures same <==> x == y
  {
    hide Xor, OrByte;
    var d: byte := 0;
    for i := 0 to 32
      invariant d == 0 <==> forall j :: 0 <= j < i ==> x[j] == y[j]
    {
      XorOfChars(x[i], y[i]);
      d := OrByte(d, Xor(x[i], y[i]));
    }
    same := (d as int - 1) % 0x1_0000_0000 / 256 % 2 == 1;
  }

  lemma SmallS(s: seq<byte>)
    requires |s| == 32
    ensures s[31] < 32 ==> LE(s) < Pow2(255)
    ensures LE(s) < Scalar.L ==> s[31] < 32
  {
    hide LE, Pow2;
    TopByte(s);
    TopWeight();
    Pow2Add(248, 7);
    if s[31] < 32 {
      MulBelow(Pow2(248), s[31], 127);
    } else {
      MulBelow(Pow2(248), 32, s[31]);
    }
  }

  lemma EncodingUnique(s: seq<byte>, t: seq<byte>, p: Pt)
    requires Encodes(s, p) && |t| == 32
    ensures Encodes(t, p) <==> s == t
  {
    hide LE;
    if Encodes(t, p) {
      LEInjective(s, t);
    }
  }

  ghost function Challenge(compress: Compression, R: seq<byte>, pk: seq<byte>, msg: seq<byte>): nat
    requires IsCompression(compress)
  {
    LE(Sha512(compress, R + pk + msg)) % Scalar.L
  }

  /** The verification equation: R encodes h N + S B, where N is the decoded, negated public key. */
  ghost predicate Checks(sig: seq<byte>, h: nat, N: Pt, base: Pt, add: (Pt, Pt) -> Pt)
    requires |sig| == 64
  {
    Encodes(sig[..32], Comb(Curve(add), h, LE(sig[32..]), N, base))
  }

  ghost predicate Accepted(sig: seq<byte>, msg: seq<byte>, pk: seq<byte>, compress: Compression, N: Pt,
                           base: Pt, add: (Pt, Pt) -> Pt)
    requires |sig| == 64 && IsCompression(compress)
  {
    Decodes(pk, N) && sig[63] < 32 && Checks(sig, Challenge(compress, sig[..32], pk, msg), N, base, add)
  }

  lemma CombOnCurve(add: (Pt, Pt) -> Pt, x: int, y: int, p: Pt, q: Pt)
    requires IsEdwards(add) && OnCurve(p) && OnCurve(q)
    ensures OnCurve(Comb(Curve(add), x, y, p, q))
  {
    hide IsGroup, OnCurve, Mul, Comb, IsSum, Unit, Cross;
    CombAdd(Curve(add), x, y, 0, 0, p, q);
  }

  lemma NegOnCurve(add: (Pt, Pt) -> Pt)
    requires IsEdwards(add)
    ensures forall p: Pt :: OnCurve(p) ==> OnCurve(Neg(p))
  {
    hide OnCurve, Neg, IsEdwards;
    forall p: Pt | OnCurve(p) ensures OnCurve(Neg(p)) { Complete(add, p, p); }
  }

  /**
   * cookbook_ed25519_verify: accepts exactly when the key decodes to a point, S has 253 bits and the equation holds
   * for that point.
   */
  method Verify(sig: seq<byte>, msg: seq<byte>, pk: seq<byte>, compress: Compression, Bi: seq<GePrecomp>,
                ghost base: Pt, ghost add: (Pt, Pt) -> Pt) returns (ok: bool)
    requires |sig| == 64 && |pk| == 32 && IsCompression(compress) && Hashable(msg)
    requires Fermat() && IsEdwards(add) && OnCurve(base) && IsOddPrecomp(Bi, base, add)
    ensures ok <==> exists N: Pt :: Accepted(sig, msg, pk, compress, N, base, add)
    ensures ok ==> sig[63] < 32 && exists N: Pt :: Decodes(pk, N)
    ensures forall N: Pt :: Decodes(pk, N) ==>
      var k := LE(Sha512(compress, sig[..32] + pk + msg)) % Scalar.L;
      ok <==> sig[63] < 32 && Encodes(sig[..32], Comb(Curve(add), k, LE(sig[32..]), N, base))
  {
    hide Sha512, IsCompression, LE, Fermat, IsEdwards, OnCurve, IsOddPrecomp, Mul, Comb, Curve, Pow2;
    hide Encodes, Neg, IsP3, IsP2, Mod, Val;
    TopThreeBits(sig[63]);
    if And(sig[63], 224) != 0 {
      return false;
    }
    var decoded, A := FromBytesNegate(pk);
    if !decoded {
      forall M: Pt | Decodes(pk, M)
        ensures false
      {
        DecodesHasPoint(pk, M);
      }
      return false;
    }
    ghost var N := PointOf(A);
    hide PointOf;
    assert Decodes(pk, N);
    forall M: Pt | Decodes(pk, M)
      ensures M == N
    {
      DecodesOnce(pk, M, N);
    }
    hide Decodes;
    var hram := Scalarize(compress, sig[..32], pk, msg);
    SmallS(sig[32..]);
    var R := DoubleScalarmult(hram, A, sig[32..], Bi, N, base, add);
    NegOnCurve(add);
    CombOnCurve(add, LE(hram), LE(sig[32..]), N, base);
    var rcheck := ToBytes(R, Comb(Curve(add), LE(hram), LE(sig[32..]), N, base));
    EncodingLength(rcheck, Comb(Curve(add), LE(hram), LE(sig[32..]), N, base));
    EncodingUnique(rcheck, sig[..32], Comb(Curve(add), LE(hram), LE(sig[32..]), N, base));
    ok := SameBytes(rcheck, sig[..32]);
    assert ok <==> Accepted(sig, msg, pk, compress, N, base, add);
  }

  lemma EncodingLength(s: seq<byte>, p: Pt)
    requires Encodes(s, p)
    ensures |s| == 32
  {
  }

  /** h (-aB) + ((h a + r) mod L) B = r B when L B = 0. */
  lemma SignatureEquation(add: (Pt, Pt) -> Pt, base: Pt, a: int, r: int, h: int)
    requires IsEdwards(add) && OnCurve(base) && Mul(Curve(add), Scalar.L, base) == Pt(0, 1)
    ensures Comb(Curve(add), h, (h * a + r) % Scalar.L, Neg(Mul(Curve(add), a, base)), base) == Mul(Curve(add), r, base)
  {
    hide IsGroup, OnCurve, Mul, Comb, IsSum, Unit, Cross;
    MulModOrder(Curve(add), h * a + r, Scalar.L, base);
    CancelSecret(Curve(add), a, r, h, h * a, (h * a + r) % Scalar.L, base);
  }

  /** Every signature made with a generated key verifies under that key. */
  method SignThenVerify(seed: seq<byte>, msg: seq<byte>, compress: Compression, table: seq<seq<GePrecomp>>,
                        Bi: seq<GePrecomp>, ghost base: Pt, ghost add: (Pt, Pt) -> Pt) returns (ok: bool)
    requires |seed| == 32 && IsCompression(compress) && Hashable(msg) && Fermat() && IsEdwards(add) && OnCurve(base)
    requires IsBaseTable(table, base, add) && IsOddPrecomp(Bi, base, add)
    requires Mul(Curve(add), Scalar.L, base) == Pt(0, 1)
    ensures ok
  {
    hide Sha512, IsCompression, LE, Fermat, IsEdwards, OnCurve, IsBaseTable, IsOddPrecomp, Mul, Comb, Curve;
    hide Neg, Clamp, Encodes, Pow2;
    var pk, sk := Keygen(seed, compress, table, base, add);
    assert sk[..32] == seed && sk[32..] == pk;
    var sig := Sign(msg, sk, compress, table, base, add);
    ok := Verify(sig, msg, pk, compress, Bi, base, add);
    ghost var h := Sha512(compress, seed);
    ghost var a, r := Pow2(254) + 8 * (LE(h[..32]) % Pow2(254) / 8), LE(Sha512(compress, h[32..] + msg)) % Scalar.L;
    MultipleOnCurve(add, a, base);
    NegOnCurve(add);
    EncodedDecodes(pk, Mul(Curve(add), a, base));
    hide Decodes;
    SignatureEquation(add, base, a, r, Challenge(compress, sig[..32], pk, msg));
    SmallS(sig[32..]);
    assert sig[32..][31] == sig[63];
    assert Accepted(sig, msg, pk, compress, Neg(Mul(Curve(add), a, base)), base, add);
  }

  // ---- the range of S ----

  /** The test of the top three bits is S < 2^253, where section 5.1.7 of RFC 8032 asks for S < L. */
  lemma TopBitsOfS(s: seq<byte>)
    requires |s| == 32
    ensures s[31] < 32 <==> LE(s) < Pow2(253)
  {
    hide LE, Pow2;
    TopByte(s);
    FiveBitsMore();
    if s[31] < 32 {
      MulBelow(Pow2(248), s[31], 31);
    } else {
      MulBelow(Pow2(248), 32, s[31]);
    }
  }

  lemma FiveBitsMore()
    ensures Pow2(253) == 32 * Pow2(248)
  {
    assert Pow2(5) == 32;
    hide Pow2;
    Pow2Add(248, 5);
  }

  /** Acceptance as section 5.1.7 of RFC 8032 asks for it, for the decoded key. */
  ghost predicate Standard(sig: seq<byte>, msg: seq<byte>, pk: seq<byte>, compress: Compression, N: Pt,
                           base: Pt, add: (Pt, Pt) -> Pt)
    requires |sig| == 64 && IsCompression(compress)
  {
    && Decodes(pk, N) && LE(sig[32..]) < Scalar.L
    && Checks(sig, Challenge(compress, sig[..32], pk, msg), N, base, add)
  }

  /** The code accepts what the standard accepts, and beyond it only signatures whose S is out of range. */
  lemma StandardIff(sig: seq<byte>, msg: seq<byte>, pk: seq<byte>, compress: Compression, N: Pt,
                    base: Pt, add: (Pt, Pt) -> Pt)
    requires |sig| == 64 && IsCompression(compress)
    ensures Standard(sig, msg, pk, compress, N, base, add)
      <==> Accepted(sig, msg, pk, compress, N, base, add) && LE(sig[32..]) < Scalar.L
  {
    hide Sha512, IsCompression, LE, Decodes, Checks, Challenge, Pow2;
    SmallS(sig[32..]);
    assert sig[32..][31] == sig[63];
  }

  /** Another signature with the same R, whose S is the same number modulo L. */
  ghost predicate OtherForm(sig: seq<byte>, other: seq<byte>)
    requires |sig| == 64
  {
    && |other| == 64 && other != sig && other[..32] == sig[..32]
    && LE(other[32..]) % Scalar.L == LE(sig[32..]) % Scalar.L
  }

  lemma SameMultiple(add: (Pt, Pt) -> Pt, m: nat, n: nat, base: Pt)
    requires IsEdwards(add) && OnCurve(base) && Mul(Curve(add), Scalar.L, base) == Pt(0, 1)
    requires m % Scalar.L == n % Scalar.L
    ensures Mul(Curve(add), m, base) == Mul(Curve(add), n, base)
  {
    hide IsGroup, Mul, OnCurve, IsSum, Unit, Cross;
    MulModOrder(Curve(add), m, Scalar.L, base);
    MulModOrder(Curve(add), n, Scalar.L, base);
  }

  /** The equation does not see the difference. */
  lemma OtherFormAccepted(sig: seq<byte>, other: seq<byte>, msg: seq<byte>, pk: seq<byte>, compress: Compression, N: Pt,
                          base: Pt, add: (Pt, Pt) -> Pt)
    requires |sig| == 64 && IsCompression(compress) && IsEdwards(add) && OnCurve(base)
    requires Mul(Curve(add), Scalar.L, base) == Pt(0, 1)
    requires Accepted(sig, msg, pk, compress, N, base, add) && OtherForm(sig, other)
    ensures Accepted(other, msg, pk, compress, N, base, add) <==> LE(other[32..]) < Pow2(253)
  {
    hide Sha512, IsCompression, LE, IsEdwards, OnCurve, Mul, Curve, Pow2, Encodes, Decodes;
    SameMultiple(add, LE(sig[32..]), LE(other[32..]), base);
    TopBitsOfS(other[32..]);
    assert other[32..][31] == other[63];
  }

  /** An accepted signature as the standard makes it has a second accepted form exactly when S + L stays below 2^253. */
  lemma SecondFormIff(sig: seq<byte>, msg: seq<byte>, pk: seq<byte>, compress: Compression, N: Pt,
                      base: Pt, add: (Pt, Pt) -> Pt)
    requires |sig| == 64 && IsCompression(compress) && IsEdwards(add) && OnCurve(base)
    requires Mul(Curve(add), Scalar.L, base) == Pt(0, 1)
    requires Accepted(sig, msg, pk, compress, N, base, add) && LE(sig[32..]) < Scalar.L
    ensures LE(sig[32..]) + Scalar.L < Pow2(253)
      <==> exists other :: OtherForm(sig, other) && Accepted(other, msg, pk, compress, N, base, add)
  {
    hide Sha512, IsCompression, LE, IsEdwards, OnCurve, Mul, Curve, Pow2, Accepted;
    forall other | OtherForm(sig, other) && Accepted(other, msg, pk, compress, N, base, add)
      ensures LE(sig[32..]) + Scalar.L < Pow2(253)
    {
      OtherFormAccepted(sig, other, msg, pk, compress, N, base, add);
      NextResidue(sig, other);
    }
    if LE(sig[32..]) + Scalar.L < Pow2(253) {
      var other := PlusOrder(sig);
      OtherFormAccepted(sig, other, msg, pk, compress, N, base, add);
    }
  }

  lemma NextResidue(sig: seq<byte>, other: seq<byte>)
    requires |sig| == 64 && OtherForm(sig, other) && LE(sig[32..]) < Scalar.L
    ensures LE(other[32..]) >= LE(sig[32..]) + Scalar.L
  {
    hide LE;
    assert other == other[..32] + other[32..] && sig == sig[..32] + sig[32..];
    OtherNumber(other[32..], sig[32..]);
    NextMultiple(LE(other[32..]), LE(sig[32..]));
  }

  lemma OtherNumber(s: seq<byte>, t: seq<byte>)
    requires |s| == |t| && s != t
    ensures LE(s) != LE(t)
  {
    hide LE;
    if LE(s) == LE(t) {
      LEInjective(s, t);
    }
  }

  lemma NextMultiple(m: nat, n: nat)
    requires m % Scalar.L == n % Scalar.L && m != n < Scalar.L
    ensures m >= n + Scalar.L
  {
  }

  lemma PlusOrder(sig: seq<byte>) returns (other: seq<byte>)
    requires |sig| == 64 && LE(sig[32..]) < Scalar.L && LE(sig[32..]) + Scalar.L < Pow2(253)
    ensures OtherForm(sig, other) && LE(other[32..]) == LE(sig[32..]) + Scalar.L
  {
    hide LE, Pow2;
    var n := LE(sig[32..]);
    other := sig[..32] + ToLE(n + Scalar.L, 32);
    assert other[32..] == ToLE(n + Scalar.L, 32) && other[..32] == sig[..32];
    LEOfToLE(n + Scalar.L, 32);
    Pow2Monotone(253, 256);
    SmallMod(n + Scalar.L, Pow2(256));
    SmallMod(n, Scalar.L);
    DivUnique(n + Scalar.L, Scalar.L, 1, n);
  }

  lemma SmallMod(v: nat, m: int)
    requires v < m
    ensures v % m == v
  {
  }
}
