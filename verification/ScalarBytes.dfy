/** Scalars as byte strings: sc_reduce and sc_muladd end to end. */
module ScalarBytes {
  import opened Words
  import opened Digits
  import opened Scalar

  // ---- unpacking ----

  /** Limb i of a byte string: a 3- or 4-byte load at the byte holding bit 21i, shifted and masked. */
  function UnpackLimb(a: seq<byte>, i: nat): int
    requires 21 * i / 8 + 4 <= |a|
  {
    var off, shift := 21 * i / 8, 21 * i % 8;
    var n := if shift + 21 <= 24 then 3 else 4;
    LE(a[off..off + n]) / Pow2(shift) % B
  }

  /** The last limb: a 4-byte load that keeps every bit above. */
  function UnpackTop(a: seq<byte>, i: nat): int
    requires 21 * i / 8 + 4 == |a|
  {
    LE(a[21 * i / 8..]) / Pow2(21 * i % 8)
  }

  lemma FieldMask()
    ensures Pow2(21) == B && Pow2(8) == 256
  {
    Pow2Literals();
  }

  lemma UnpackLimbField(a: seq<byte>, i: nat)
    requires 21 * i / 8 + 4 <= |a|
    ensures UnpackLimb(a, i) == Bits(LE(a), 21 * i, 21)
  {
    hide Pow2, LE, Bits;
    var off, shift := 21 * i / 8, 21 * i % 8;
    var n := if shift + 21 <= 24 then 3 else 4;
    FieldMask();
    LESlice(a, off, n);
    BitsOfBits(LE(a), 8 * off, 8 * n, shift, 21);
  }

  lemma UnpackTopField(a: seq<byte>, i: nat)
    requires 21 * i / 8 + 4 == |a|
    ensures UnpackTop(a, i) == LE(a) / Pow2(21 * i) < 0x1_0000_0000
  {
    hide Pow2, LE;
    var off, shift := 21 * i / 8, 21 * i % 8;
    Pow2Literals();
    TailOf(a, off);
    LEBound(a[off..]);
    SplitAt(LE(a), 8 * off, shift);
    DivShrinks(LE(a[off..]), Pow2(shift));
  }

  lemma TailOf(a: seq<byte>, off: nat)
    requires off <= |a|
    ensures LE(a[off..]) == LE(a) / Pow2(8 * off)
  {
    hide Pow2, LE;
    LEAppend(a[..off], a[off..]);
    LEBound(a[..off]);
    assert a == a[..off] + a[off..];
    DivUnique(LE(a), Pow2(8 * off), LE(a[off..]), LE(a[..off]));
  }

  lemma DivShrinks(x: nat, d: int)
    requires d >= 1
    ensures x / d <= x
  {
    if x / d > x {
      MulGrows(d, x / d);
    }
  }

  /** The n limbs of a byte string whose last four bytes hold the last limb. */
  method Unpack(a: seq<byte>, n: nat) returns (s: seq<int>)
    requires n >= 1 && 21 * (n - 1) / 8 + 4 == |a|
    ensures |s| == n && Weight(s, 21, 0) == LE(a)
    ensures forall k :: 0 <= k < n - 1 ==> 0 <= s[k] < B
    ensures 0 <= s[n - 1] == LE(a) / Pow2(21 * (n - 1)) < 0x1_0000_0000
  {
    Pow2Literals();
    hide UnpackLimb, UnpackTop, LE, Weight, Bits, Pow2;
    s := [];
    for i := 0 to n - 1
      invariant |s| == i && forall k :: 0 <= k < i ==> s[k] == Bits(LE(a), 21 * k, 21) && 0 <= s[k] < B
    {
      UnpackLimbField(a, i);
      s := s + [UnpackLimb(a, i)];
    }
    UnpackTopField(a, n - 1);
    s := s + [UnpackTop(a, n - 1)];
    UnpackedValue(LE(a), s);
  }

  lemma UnpackedValue(v: nat, s: seq<int>)
    requires |s| >= 1 && s[|s| - 1] == v / Pow2(21 * (|s| - 1))
    requires forall k :: 0 <= k < |s| - 1 ==> s[k] == Bits(v, 21 * k, 21)
    ensures Weight(s, 21, 0) == v
  {
    PowZero();
    hide Pow2, Bits, Weight, Horner;
    FieldsHorner(v, s, 21, 0);
    WeightHorner(s, 21, 0);
  }

  // ---- packing ----

  /** Byte k of the output: the high part of one limb or-ed with the shifted low part of the next. */
  function PackByte(s: seq<int>, k: nat): byte
    requires |s| == 24 && k < 32
  {
    var i, shift := 8 * k / 21, 8 * k % 21;
    if 21 - shift >= 8 || i == 11 then s[i] / Pow2(shift) % 256
    else (s[i] / Pow2(shift) + s[i + 1] * Pow2(21 - shift)) % 256
  }

  /** Splitting x at bit r, then taking the low byte of what is put together again. */
  lemma LowByte(x: nat, r: nat, y: nat)
    requires r <= 21 && (y == x / Pow2(r) || y == x / Pow2(r) % Pow2(21))
    ensures (x % Pow2(r) + y * Pow2(r)) % 256 == x % 256
  {
    Pow2Literals();
    hide Pow2;
    if y == x / Pow2(r) {
      assert x == y * Pow2(r) + x % Pow2(r);
    } else {
      SplitAt(x, r, 21);
      SplitAt(x, 8, r + 13);
    }
  }

  lemma HighByte(x: nat, r: nat)
    requires r >= 8
    ensures x % Pow2(r) % 256 == x % 256
  {
    Pow2Literals();
    hide Pow2;
    SplitAt(x, 8, r - 8);
  }

  lemma ShiftedLimb(v: nat, i: nat, shift: nat)
    requires shift <= 21
    ensures Bits(v, 21 * i, 21) / Pow2(shift) == v / Pow2(21 * i + shift) % Pow2(21 - shift)
  {
    hide Pow2;
    SplitAt(v / Pow2(21 * i), shift, 21 - shift);
    SplitAt(v, 21 * i, shift);
  }

  /** The two limbs that meet in a byte. */
  lemma JoinedByte(v: nat, i: nat, shift: nat, y: nat)
    requires 13 < shift < 21
    requires y == v / Pow2(21 * (i + 1)) || y == Bits(v, 21 * (i + 1), 21)
    ensures (Bits(v, 21 * i, 21) / Pow2(shift) + y * Pow2(21 - shift)) % 256
         == v / Pow2(21 * i + shift) % 256
  {
    hide Pow2;
    ShiftedLimb(v, i, shift);
    var e, f := 21 * i + shift, 21 - shift;
    assert 21 * (i + 1) == e + f;
    SplitAt(v, e, f);
    LowByte(v / Pow2(e), f, y);
  }

  lemma SingleByte(v: nat, i: nat, shift: nat)
    requires shift <= 13
    ensures Bits(v, 21 * i, 21) / Pow2(shift) % 256 == v / Pow2(21 * i + shift) % 256
  {
    hide Pow2, Bits;
    ShiftedLimb(v, i, shift);
    HighByte(v / Pow2(21 * i + shift), 21 - shift);
  }

  lemma PackByteField(s: seq<int>, v: nat, k: nat)
    requires |s| == 24 && k < 32 && s[11] == v / Pow2(231)
    requires forall i :: 0 <= i < 11 ==> s[i] == Bits(v, 21 * i, 21)
    ensures PackByte(s, k) == v / Pow2(8 * k) % 256
  {
    hide Pow2, Bits;
    var i, shift := 8 * k / 21, 8 * k % 21;
    if i == 11 {
      SplitAt(v, 231, shift);
    } else if shift <= 13 {
      SingleByte(v, i, shift);
    } else {
      JoinedByte(v, i, shift, s[i + 1]);
    }
  }

  /** The low n bytes of v, as a number. */
  ghost function LowBytes(v: nat, n: nat): nat {
    v % Pow2(8 * n)
  }

  lemma LowBytesStep(v: nat, n: nat)
    ensures LowBytes(v, 0) == 0
    ensures LowBytes(v, n + 1) == LowBytes(v, n) + Pow2(8 * n) * (v / Pow2(8 * n) % 256)
  {
    FieldMask();
    PowZero();
    hide Pow2;
    SplitAt(v, 8 * n, 8);
  }

  lemma {:induction false} BytesLE(v: nat, s: seq<byte>, n: nat)
    requires n <= |s| && forall k :: 0 <= k < n ==> s[k] == v / Pow2(8 * k) % 256
    ensures LE(s[..n]) == LowBytes(v, n)
  {
    if n == 0 {
      LowBytesStep(v, n);
      assert s[..0] == [];
    } else {
      hide LE, Pow2, LowBytes;
      BytesLE(v, s, n - 1);
      LastByte(s, n - 1);
      LowBytesStep(v, n - 1);
    }
  }

  /** The 32 output bytes denote the value of the limbs. */
  method Pack(s: seq<int>) returns (t: seq<byte>)
    requires |s| == 24 && Masked(s, 11) && 0 <= s[11] < 2 * B && ZeroFrom(s, 12)
    ensures |t| == 32 && LE(t) == Val(s)
  {
    hide PackByte, LE, Val, Bits, Pow2;
    PackedFields(s);
    t := [];
    for k := 0 to 32
      invariant |t| == k && forall j :: 0 <= j < k ==> t[j] == Val(s) / Pow2(8 * j) % 256
    {
      PackByteField(s, Val(s), k);
      t := t + [PackByte(s, k)];
    }
    BytesLE(Val(s), t, 32);
    assert t[..32] == t;
  }

  lemma PackedFields(s: seq<int>)
    requires |s| == 24 && Masked(s, 11) && 0 <= s[11] < 2 * B && ZeroFrom(s, 12)
    ensures Val(s) >= 0 && Val(s) % Pow2(256) == Val(s) && s[11] == Val(s) / Pow2(231)
    ensures forall i :: 0 <= i < 11 ==> s[i] == Bits(Val(s), 21 * i, 21)
  {
    SplitTop(s, 11);
    PackedRange(Val(s), s[11]);
    forall i | 0 <= i < 11
      ensures s[i] == Bits(Val(s), 21 * i, 21)
    {
      PackedField(s, i);
    }
  }

  lemma PackedRange(v: int, top: int)
    requires 0 <= top < 2 * B && top * Pow2(231) <= v < top * Pow2(231) + Pow2(231)
    ensures v >= 0 && v % Pow2(256) == v && top == v / Pow2(231)
  {
    hide Pow2;
    BigPowers();
    Pow2Small();
    Pow2Add(252, 4);
    DivUnique(v, Pow2(231), top, v - top * Pow2(231));
  }

  lemma PackedField(s: seq<int>, i: nat)
    requires |s| == 24 && Masked(s, 11) && i < 11 && Val(s) >= 0
    ensures s[i] == Bits(Val(s), 21 * i, 21)
  {
    Pow2Literals();
    PowZero();
    HornerStep(s, 21, i);
    hide Pow2, Weight, Horner;
    WeightHorner(s, 21, 0);
    HornerFields(s, 21, i);
    DivUnique(Horner(s, 21, i), B, Horner(s, 21, i + 1), s[i]);
  }

  // ---- sc_reduce ----

  method LimbArray(s: seq<int>) returns (t: array<i64>)
    requires |s| == 24 && Within(s, 0, 24, 0x7fff_ffff_ffff_ffff)
    ensures fresh(t) && t.Length == 24 && t[..] == s
  {
    t := new i64[24];
    for k := 0 to 24
      invariant t[..k] == s[..k]
    {
      t[k] := s[k];
    }
    assert t[..] == t[..24] && s == s[..24];
  }

  /** sc_reduce: the first 32 bytes become the residue mod L of the 64-byte number; the rest is left alone. */
  method ScReduce(s: array<byte>)
    requires s.Length == 64
    modifies s
    ensures LE(s[..32]) == old(LE(s[..])) % L
    ensures s[32..] == old(s[32..])
  {
    hide LE, Weight, Pow2;
    ghost var v := LE(s[..]);
    var limbs := Unpack(s[..], 24);
    TopLimb(v, s[..]);
    var t := LimbArray(limbs);
    Reduce(t);
    var out := Pack(t[..]);
    WriteBack(s, out);
  }

  method WriteBack(s: array<byte>, out: seq<byte>)
    requires s.Length == 64 && |out| == 32
    modifies s
    ensures s[..32] == out && s[32..] == old(s[32..])
  {
    ghost var tail := s[32..];
    for k := 0 to 32
      invariant s[32..] == tail && s[..k] == out[..k]
    {
      s[k] := out[k];
    }
  }

  lemma TopLimb(v: nat, s: seq<byte>)
    requires |s| == 64 && v == LE(s)
    ensures v / Pow2(483) < 0x2000_0000
  {
    assert Pow2(5) == 32;
    Pow2Literals();
    hide LE, Pow2;
    LEBound(s);
    Pow2Add(24, 5);
    Pow2Add(483, 29);
    DivBelow(v, Pow2(483), 0x2000_0000);
  }

  // ---- sc_muladd ----

  /** Sum of the products a[i] * b[k - i] over the first r rows i. */
  function Diagonal(a: seq<int>, b: seq<int>, r: nat, k: nat): int
    requires |a| == |b| == 12 && r <= 12
  {
    if r == 0 then 0
    else Diagonal(a, b, r - 1, k) + (if 0 <= k - (r - 1) < 12 then a[r - 1] * b[k - (r - 1)] else 0)
  }

  ghost function Row(b: seq<int>, x: int, r: nat): (s: seq<int>)
    requires |b| == 12
  {
    seq(24, k => if 0 <= k - r < 12 then x * b[k - r] else 0)
  }

  lemma {:induction false} RowTail(b: seq<int>, x: int, r: nat, j: nat)
    requires |b| == 12 && r <= 12 && j <= 12
    ensures Weight(Row(b, x, r), 21, r + j) == x * Pow2(21 * r) * Weight(b, 21, j)
    decreases 12 - j
  {
    hide Pow2;
    var s := Row(b, x, r);
    if j == 12 {
      hide Row;
      WeightZeros(s, 21, r + 12, 24);
      EmptyWeight(s);
    } else {
      RowTail(b, x, r, j + 1);
      Pow2Add(21 * r, 21 * j);
      assert s[r + j] == x * b[j];
      RowIdentity(x, b[j], Pow2(21 * r), Pow2(21 * j), Weight(b, 21, j + 1));
    }
  }

  lemma RowIdentity(x: int, y: int, p: int, q: int, rest: int)
    ensures x * y * (p * q) + x * p * rest == x * p * (y * q + rest)
  {
    MulInterchange(x, y, p, q);
  }

  lemma {:induction false} WeightSum(s: seq<int>, t: seq<int>, u: seq<int>, j: nat)
    requires j <= |s| == |t| == |u| && forall k :: 0 <= k < |s| ==> u[k] == s[k] + t[k]
    ensures Weight(u, 21, j) == Weight(s, 21, j) + Weight(t, 21, j)
    decreases |s| - j
  {
    if j < |s| {
      WeightSum(s, t, u, j + 1);
      assert (s[j] + t[j]) * Pow2(21 * j) == s[j] * Pow2(21 * j) + t[j] * Pow2(21 * j);
    }
  }

  /** The column sums c + a * b after r rows. */
  ghost function Sums(a: seq<int>, b: seq<int>, c: seq<int>, r: nat): (s: seq<int>)
    requires |a| == |b| == |c| == 12 && r <= 12
  {
    seq(24, k requires 0 <= k < 24 => (if k < 12 then c[k] else 0) + Diagonal(a, b, r, k))
  }

  lemma {:induction false} PaddedWeight(c: seq<int>, s: seq<int>, j: nat)
    requires |c| == 12 && |s| == 24 && j <= 12 && forall k :: 0 <= k < 24 ==> s[k] == if k < 12 then c[k] else 0
    ensures Weight(s, 21, j) == Weight(c, 21, j)
    decreases 12 - j
  {
    if j == 12 {
      WeightZeros(s, 21, 12, 24);
      EmptyWeight(s);
    } else {
      PaddedWeight(c, s, j + 1);
    }
  }

  lemma SumsStep(a: seq<int>, b: seq<int>, c: seq<int>, r: nat)
    requires |a| == |b| == |c| == 12 && r < 12
    ensures Val(Sums(a, b, c, r + 1)) == Val(Sums(a, b, c, r)) + a[r] * Pow2(21 * r) * Weight(b, 21, 0)
    ensures Weight(a, 21, r) == a[r] * Pow2(21 * r) + Weight(a, 21, r + 1)
  {
    var s, t, row := Sums(a, b, c, r + 1), Sums(a, b, c, r), Row(b, a[r], r);
    WeightSum(t, row, s, 0);
    RowWeight(b, a[r], r);
  }

  /** The value of the column sums while the digits of a from some place on, worth `rest`, are still to come. */
  ghost function Grown(c: int, a: int, rest: int, b: int): int {
    c + (a - rest) * b
  }

  /** Row by row, the column sums grow to c + a * b. */
  lemma {:induction false} SumsValue(a: seq<int>, b: seq<int>, c: seq<int>, r: nat)
    requires |a| == |b| == |c| == 12 && r <= 12
    ensures Val(Sums(a, b, c, r)) == Grown(Weight(c, 21, 0), Weight(a, 21, 0), Weight(a, 21, r), Weight(b, 21, 0))
  {
    if r == 0 {
      PaddedWeight(c, Sums(a, b, c, r), 0);
    } else {
      hide *;
      SumsValue(a, b, c, r - 1);
      SumsStep(a, b, c, r - 1);
      OneRowMore(Val(Sums(a, b, c, r - 1)), Val(Sums(a, b, c, r)), Weight(c, 21, 0), Weight(a, 21, 0),
                 Weight(a, 21, r - 1), Weight(a, 21, r), a[r - 1] * Pow2(21 * (r - 1)), Weight(b, 21, 0));
    }
  }

  lemma OneRowMore(v: int, v': int, c: int, a: int, rest: int, rest': int, row: int, b: int)
    requires v == Grown(c, a, rest, b) && v' == v + row * b && rest == row + rest'
    ensures v' == Grown(c, a, rest', b)
  {
    assert (a - rest) * b + row * b == (a - rest + row) * b;
  }

  lemma RowWeight(b: seq<int>, x: int, r: nat)
    requires |b| == 12 && r <= 12
    ensures Weight(Row(b, x, r), 21, 0) == x * Pow2(21 * r) * Weight(b, 21, 0)
  {
    WeightZeros(Row(b, x, r), 21, 0, r);
    RowTail(b, x, r, 0);
  }

  lemma {:induction false} DiagonalBound(a: seq<int>, b: seq<int>, r: nat, k: nat)
    requires |a| == |b| == 12 && r <= 12
    requires forall i :: 0 <= i < 11 ==> 0 <= a[i] < B && 0 <= b[i] < B
    requires 0 <= a[11] < 0x200_0000 && 0 <= b[11] < 0x200_0000
    ensures 0 <= Diagonal(a, b, r, k)
    ensures Diagonal(a, b, r, k) <= if k == 22 && r == 12 then 0x4_0000_0000_0000 else r * 0x4000_0000_0000
    ensures k >= 23 || (k == 22 && r < 12) ==> Diagonal(a, b, r, k) == 0
  {
    if r > 0 {
      DiagonalBound(a, b, r - 1, k);
      var i := r - 1;
      if 0 <= k - i < 12 {
        ProductBound(a[i], b[k - i], if i == 11 then 0x200_0000 else B, if k - i == 11 then 0x200_0000 else B);
      }
    }
  }

  lemma ProductBound(x: int, y: int, a: int, b: int)
    requires 0 <= x < a && 0 <= y < b
    ensures 0 <= x * y <= a * b
  {
  }

  lemma TopOfScalar(v: nat, s: seq<byte>)
    requires |s| == 32 && v == LE(s)
    ensures v / Pow2(231) < 0x200_0000
  {
    assert Pow2(1) == 2;
    Pow2Literals();
    hide LE, Pow2;
    LEBound(s);
    Pow2Add(24, 1);
    Pow2Add(231, 25);
    DivBelow(v, Pow2(231), 0x200_0000);
  }

  method UnpackScalar(a: seq<byte>) returns (s: seq<int>)
    requires |a| == 32
    ensures |s| == 12 && Weight(s, 21, 0) == LE(a)
    ensures forall i :: 0 <= i < 11 ==> 0 <= s[i] < B
    ensures 0 <= s[11] < 0x200_0000
  {
    hide LE, Weight, Pow2;
    s := Unpack(a, 12);
    TopOfScalar(LE(a), a);
  }

  /** The column sums of sc_muladd, before any carry. */
  method MulAddColumns(a: seq<int>, b: seq<int>, c: seq<int>) returns (s: array<i64>)
    requires |a| == |b| == |c| == 12
    requires forall i :: 0 <= i < 11 ==> 0 <= a[i] < B && 0 <= b[i] < B && 0 <= c[i] < B
    requires 0 <= a[11] < 0x200_0000 && 0 <= b[11] < 0x200_0000 && 0 <= c[11] < 0x200_0000
    ensures fresh(s) && s.Length == 24 && s[..] == Sums(a, b, c, 12)
    ensures Within(s[..], 0, 24, 0x8_0000_0000_0000) && s[23] == 0
  {
    hide Diagonal;
    s := new i64[24];
    for k := 0 to 24
      invariant forall j :: 0 <= j < k ==> s[j] == (if j < 12 then c[j] else 0) + Diagonal(a, b, 12, j)
      invariant forall j :: 0 <= j < k ==> 0 <= s[j] <= 0x8_0000_0000_0000
      invariant k == 24 ==> s[23] == 0
    {
      DiagonalBound(a, b, 12, k);
      s[k] := (if k < 12 then c[k] else 0) + Diagonal(a, b, 12, k);
    }
  }

  /** sc_muladd: exactly (a * b + c) mod L, for any three 32-byte strings. */
  method ScMulAdd(a: seq<byte>, b: seq<byte>, c: seq<byte>) returns (t: seq<byte>)
    requires |a| == |b| == |c| == 32
    ensures |t| == 32 && LE(t) == (LE(a) * LE(b) + LE(c)) % L
  {
    hide LE, Weight, Sums;
    var x := UnpackScalar(a);
    var y := UnpackScalar(b);
    var z := UnpackScalar(c);
    var s := MulAddColumns(x, y, z);
    SumsValue(x, y, z, 12);
    assert Weight(x, 21, 12) == 0 by { EmptyWeight(x); }
    CarryEvery(s, 0, 22, 0x8_0000_0000_0000, 0x4000_0001);
    CarryEvery(s, 1, 21, 0x8_0000_4000_0001, 0x4000_0400);
    Reduce(s);
    t := Pack(s[..]);
  }
}
