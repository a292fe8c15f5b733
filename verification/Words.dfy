/** Machine words as bounded integers: powers of two, bit fields, and little-endian byte strings. */
module Words {

  type byte = b: int | 0 <= b < 256

  type i32 = x: int | -0x8000_0000 <= x < 0x8000_0000

  /** The low 32 bits as a signed int: what a conversion from long keeps. */
  function Int32(x: int): (r: i32)
    ensures 0 <= x < 0x8000_0000 ==> r == x
  {
    (x + 0x8000_0000) % 0x1_0000_0000 - 0x8000_0000
  }

  /** 2^n. */
  function Pow2(n: nat): (r: nat)
    ensures 1 <= r
  {
    if n == 0 then 1 else 2 * Pow2(n - 1)
  }

  lemma {:induction false} Pow2Add(m: nat, n: nat)
    ensures Pow2(m + n) == Pow2(m) * Pow2(n)
  {
    if m > 0 {
      Pow2Add(m - 1, n);
      assert Pow2(m + n) == 2 * (Pow2(m - 1) * Pow2(n));
    }
  }

  lemma {:induction false} Pow2Monotone(m: nat, n: nat)
    requires m <= n
    ensures Pow2(m) <= Pow2(n)
  {
    if m < n {
      Pow2Monotone(m, n - 1);
    }
  }

  /** The literal values of the powers that size limbs and words. */
  lemma PowZero()
    ensures Pow2(0) == 1 && Pow2(1) == 2
  {
  }

  lemma Pow2Small()
    ensures Pow2(3) == 8 && Pow2(4) == 16 && Pow2(5) == 32 && Pow2(7) == 128 && Pow2(8) == 0x100
  {
  }

  lemma Pow2Double(n: nat)
    requires n > 0
    ensures Pow2(n) == 2 * Pow2(n - 1)
  {
  }

  /** A product of two known numbers. */
  lemma Product(x: int, y: int, a: int, b: int)
    requires x == a && y == b
    ensures x * y == a * b
  {
  }

  lemma Pow2Literals()
    ensures Pow2(8) == 0x100 && Pow2(16) == 0x1_0000 && Pow2(20) == 0x10_0000 && Pow2(21) == 0x20_0000
    ensures Pow2(24) == 0x100_0000 && Pow2(32) == 0x1_0000_0000
    ensures Pow2(48) == 0x1_0000_0000_0000 && Pow2(51) == 0x8_0000_0000_0000
    ensures Pow2(64) == 0x1_0000_0000_0000_0000
  {
    hide Pow2;
    Pow2Small();
    Pow2Sum(8, 8, 0x100, 0x100);
    Pow2Sum(16, 4, 0x1_0000, 0x10);
    Pow2Sum(16, 5, 0x1_0000, 0x20);
    Pow2Sum(16, 8, 0x1_0000, 0x100);
    Pow2Sum(16, 16, 0x1_0000, 0x1_0000);
    Pow2Sum(24, 24, 0x100_0000, 0x100_0000);
    Pow2Sum(48, 3, 0x1_0000_0000_0000, 8);
    Pow2Sum(32, 32, 0x1_0000_0000, 0x1_0000_0000);
  }

  /** The power of a sum of exponents whose powers are known. */
  lemma Pow2Sum(m: nat, n: nat, a: int, b: int)
    requires Pow2(m) == a && Pow2(n) == b
    ensures Pow2(m + n) == a * b
  {
    hide Pow2;
    Pow2Add(m, n);
    Product(Pow2(m), Pow2(n), a, b);
  }

  lemma Pow2Bytes(n: nat)
    requires n > 0
    ensures Pow2(8 * n) == 256 * Pow2(8 * n - 8)
  {
    Pow2Add(8, 8 * n - 8);
  }

  lemma MulAssoc(a: int, b: int, c: int)
    ensures a * (b * c) == a * b * c
  {
  }

  lemma MulInterchange(a: int, b: int, c: int, d: int)
    ensures a * b * (c * d) == a * c * (b * d)
  {
    MulAssoc(a * b, c, d);
    MulAssoc(a * c, b, d);
  }

  lemma MulGrows(k: int, d: int)
    requires k >= 1 && d > 0
    ensures k * d >= d
  {
  }

  /** Division by a positive number, characterised by the Euclidean bounds. */
  lemma DivUnique(x: int, d: int, q: int, r: int)
    requires d > 0 && x == q * d + r && 0 <= r < d
    ensures x / d == q && x % d == r
  {
    var q', r' := x / d, x % d;
    assert x == q' * d + r';
    assert (q - q') * d == r' - r;
    if q' < q {
      MulGrows(q - q', d);
    } else if q < q' {
      MulGrows(q' - q, d);
    }
  }

  lemma DivDiv(x: int, a: int, b: int, ab: int)
    requires a > 0 && b > 0 && ab == a * b
    ensures ab > 0 && x / a / b == x / ab
    ensures x % ab == x / a % b * a + x % a && x % ab / a == x / a % b && x % ab % a == x % a
  {
    var q, t, r := x / a / b, x / a % b, x % a;
    assert x / a == q * b + t && x == x / a * a + r;
    TwoDigits(q, t, r, a, b, ab);
    DivUnique(x, ab, q, t * a + r);
    DivUnique(t * a + r, a, t, r);
  }

  lemma TwoDigits(q: int, t: int, r: int, a: int, b: int, ab: int)
    requires 0 <= t < b && 0 <= r < a && ab == a * b
    ensures (q * b + t) * a + r == q * ab + (t * a + r) && 0 <= t * a + r < ab
  {
    assert (q * b + t) * a == q * (a * b) + t * a;
    assert (b - t) * a == b * a - t * a;
    MulGrows(b - t, a);
    if t > 0 {
      MulGrows(t, a);
    }
  }

  /** Cutting a word at bit a: shifting a masked word is masking the shifted one, and a narrower mask absorbs. */
  lemma SplitAt(x: int, a: nat, b: nat)
    ensures x / Pow2(a) / Pow2(b) == x / Pow2(a + b)
    ensures x % Pow2(a + b) == x / Pow2(a) % Pow2(b) * Pow2(a) + x % Pow2(a)
    ensures x % Pow2(a + b) / Pow2(a) == x / Pow2(a) % Pow2(b) && x % Pow2(a + b) % Pow2(a) == x % Pow2(a)
  {
    hide Pow2;
    Pow2Add(a, b);
    DivDiv(x, Pow2(a), Pow2(b), Pow2(a + b));
  }

  lemma DivBelow(v: nat, d: int, q: int)
    requires d > 0 && v < d * q
    ensures v / d < q
  {
    if v / d >= q {
      MulBelow(d, q, v / d);
    }
  }

  lemma MulBelow(d: int, x: int, y: int)
    requires d > 0 && x <= y
    ensures d * x <= d * y
  {
  }

  /** A left shift that drops the bits beyond the word keeps the low bits of its operand. */
  lemma ShiftTruncates(x: int, a: int, b: int)
    requires a > 0 && b > 0
    ensures a * b > 0 && x * a % (a * b) == x % b * a
  {
    assert x == x / b * b + x % b;
    assert x * a == x / b * (a * b) + x % b * a by {
      assert (x / b * b + x % b) * a == x / b * (a * b) + x % b * a;
    }
    MulGrows(b - x % b, a);
    assert (b - x % b) * a == a * b - x % b * a;
    if x % b > 0 { MulGrows(x % b, a); }
    DivUnique(x * a, a * b, x / b, x % b * a);
  }

  /** The len-bit field of v that starts at bit off. */
  function Bits(v: nat, off: nat, len: nat): (r: nat)
    ensures r < Pow2(len)
  {
    v / Pow2(off) % Pow2(len)
  }

  /** A field of a field is a field. */
  lemma BitsOfBits(v: nat, off: nat, n: nat, shift: nat, len: nat)
    requires shift + len <= n
    ensures Bits(v, off, n) / Pow2(shift) % Pow2(len) == Bits(v, off + shift, len)
  {
    hide Pow2;
    var x := v / Pow2(off);
    SplitAt(x, shift, n - shift);
    SplitAt(x / Pow2(shift), len, n - shift - len);
    SplitAt(v, off, shift);
  }

  /** Cutting one field off the bottom of what lies above bit off. */
  lemma BitsStep(v: nat, off: nat, len: nat)
    ensures v / Pow2(off) == Bits(v, off, len) + Pow2(len) * (v / Pow2(off + len))
  {
    hide Pow2;
    SplitAt(v, off, len);
  }

  /** The number a little-endian byte string denotes. */
  function LE(s: seq<byte>): nat {
    if s == [] then 0 else s[0] + 256 * LE(s[1..])
  }

  lemma {:induction false} LEAppend(s: seq<byte>, t: seq<byte>)
    ensures LE(s + t) == LE(s) + Pow2(8 * |s|) * LE(t)
  {
    if s == [] {
      assert s + t == t;
    } else {
      assert (s + t)[1..] == s[1..] + t;
      LEAppend(s[1..], t);
      Pow2Bytes(|s|);
      MulAssoc(256, Pow2(8 * |s| - 8), LE(t));
    }
  }

  lemma {:induction false} LEBound(s: seq<byte>)
    ensures LE(s) < Pow2(8 * |s|)
  {
    if s != [] {
      LEBound(s[1..]);
      Pow2Bytes(|s|);
    }
  }

  lemma LastByte(s: seq<byte>, n: nat)
    requires n < |s|
    ensures LE(s[..n + 1]) == LE(s[..n]) + Pow2(8 * n) * s[n]
  {
    assert s[..n + 1] == s[..n] + [s[n]] && LE([s[n]]) == s[n] + 256 * LE([]);
    hide Pow2;
    LEAppend(s[..n], [s[n]]);
  }

  /** Two byte strings of one length that denote the same number are equal. */
  lemma {:induction false} LEInjective(s: seq<byte>, t: seq<byte>)
    requires |s| == |t| && LE(s) == LE(t)
    ensures s == t
  {
    if s != [] {
      LEInjective(s[1..], t[1..]);
      assert s == [s[0]] + s[1..] && t == [t[0]] + t[1..];
    }
  }

  /** A little-endian load of n bytes at offset k reads the bit field that starts at bit 8k. */
  lemma LESlice(s: seq<byte>, k: nat, n: nat)
    requires k + n <= |s|
    ensures LE(s[k..k + n]) == Bits(LE(s), 8 * k, 8 * n)
  {
    hide LE, Pow2, Bits;
    var a, b, c := s[..k], s[k..k + n], s[k + n..];
    assert s == a + (b + c);
    JoinSlices(a, b, c, LE(s));
  }

  lemma JoinSlices(a: seq<byte>, b: seq<byte>, c: seq<byte>, v: nat)
    requires v == LE(a + (b + c))
    ensures LE(b) == Bits(v, 8 * |a|, 8 * |b|)
  {
    hide LE, Pow2;
    LEAppend(a, b + c);
    LEAppend(b, c);
    LEBound(a);
    LEBound(b);
    SliceValue(v, LE(a), LE(b + c), LE(b), LE(c), Pow2(8 * |a|), Pow2(8 * |b|));
  }

  lemma SliceValue(v: int, x: int, yz: int, y: int, z: int, p: int, q: int)
    requires v == x + p * yz && yz == y + q * z && 0 <= x < p && 0 <= y < q
    ensures v / p % q == y
  {
    DivUnique(v, p, yz, x);
    DivUnique(yz, q, z, y);
  }

  /** The or of two bytes. */
  function OrByte(d: byte, x: byte): (r: byte)
    ensures r == 0 <==> d == 0 && x == 0
  {
    (d as bv8 | x as bv8) as int
  }

  /** store64_le and its relatives: the n low bytes of v. */
  function ToLE(v: nat, n: nat): (s: seq<byte>)
    ensures |s| == n
  {
    if n == 0 then [] else [v % 256] + ToLE(v / 256, n - 1)
  }

  lemma {:induction false} LEOfToLE(v: nat, n: nat)
    ensures LE(ToLE(v, n)) == v % Pow2(8 * n)
  {
    hide Pow2;
    PowZero();
    if n > 0 {
      LEOfToLE(v / 256, n - 1);
      Pow2Literals();
      SplitAt(v, 8, 8 * n - 8);
      assert ToLE(v, n)[1..] == ToLE(v / 256, n - 1);
    }
  }

  /** The pieces put together, in order. */
  ghost function Concat(parts: seq<seq<byte>>): seq<byte> {
    if parts == [] then [] else Concat(parts[..|parts| - 1]) + parts[|parts| - 1]
  }

  // ---- bitwise operators on naturals ----

  function Xor(x: nat, y: nat): nat {
    if x == 0 && y == 0 then 0 else (x % 2 + y % 2) % 2 + 2 * Xor(x / 2, y / 2)
  }

  function And(x: nat, y: nat): nat {
    if x == 0 || y == 0 then 0 else x % 2 * (y % 2) + 2 * And(x / 2, y / 2)
  }

  lemma {:induction false} XorCancels(x: nat, y: nat)
    ensures Xor(x, Xor(x, y)) == y
  {
    if x != 0 || y != 0 {
      hide Xor;
      var z := Xor(x, y);
      XorHalves(x, y);
      XorHalves(x, z);
      XorCancels(x / 2, y / 2);
      BackFromHalves(x, y, z, Xor(x, z));
    }
  }

  lemma BackFromHalves(x: nat, y: nat, z: nat, w: nat)
    requires z % 2 == (x % 2 + y % 2) % 2 && w % 2 == (x % 2 + z % 2) % 2 && w / 2 == y / 2
    ensures w == y
  {
    ParityCancels(x % 2, y % 2);
    FromHalves(w, y);
  }

  lemma ParityCancels(p: nat, q: nat)
    requires p < 2 && q < 2
    ensures (p + (p + q) % 2) % 2 == q
  {
  }

  lemma FromHalves(x: nat, y: nat)
    requires x % 2 == y % 2 && x / 2 == y / 2
    ensures x == y
  {
  }

  lemma XorHalves(x: nat, y: nat)
    ensures Xor(x, y) % 2 == (x % 2 + y % 2) % 2 && Xor(x, y) / 2 == Xor(x / 2, y / 2)
  {
  }

  /** Bit k. */
  function Bit(v: nat, k: nat): nat {
    v / Pow2(k) % 2
  }

  lemma BitZero(v: nat)
    ensures Bit(v, 0) == v % 2
  {
  }

  lemma BitNext(v: nat, k: nat)
    requires k > 0
    ensures Bit(v, k) == Bit(v / 2, k - 1)
  {
    hide Pow2;
    Pow2Double(k);
    DivDiv(v, 2, Pow2(k - 1), Pow2(k));
  }

  /** A bit of the exclusive or is set when exactly one of the two is. */
  lemma {:induction false} XorBit(x: nat, y: nat, k: nat)
    ensures Bit(Xor(x, y), k) == if Bit(x, k) != Bit(y, k) then 1 else 0
  {
    hide Xor, Bit;
    XorHalves(x, y);
    if k == 0 {
      BitZero(x);
      BitZero(y);
      BitZero(Xor(x, y));
    } else {
      XorBit(x / 2, y / 2, k - 1);
      BitNext(x, k);
      BitNext(y, k);
      BitNext(Xor(x, y), k);
    }
  }

  lemma {:induction false} XorZero(x: nat)
    ensures Xor(x, 0) == x
  {
    if x != 0 {
      XorZero(x / 2);
    }
  }

  lemma {:induction false} XorBound(x: nat, y: nat, n: nat)
    requires x < Pow2(n) && y < Pow2(n)
    ensures Xor(x, y) < Pow2(n)
  {
    if n > 0 {
      XorBound(x / 2, y / 2, n - 1);
    }
  }

  lemma {:induction false} AndOnes(n: nat, y: nat)
    requires y < Pow2(n)
    ensures And(Pow2(n) - 1, y) == y
  {
    if n > 0 && y > 0 {
      AndOnes(n - 1, y / 2);
      assert (Pow2(n) - 1) / 2 == Pow2(n - 1) - 1 && (Pow2(n) - 1) % 2 == 1;
    }
  }
}
