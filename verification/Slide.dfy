/** The sliding-window recoding of a scalar (slide_vartime). */
module Slide {
  import opened Words
  import opened Digits

  type i8 = x: int | -128 <= x < 128

  /** A multiple of 2^j that is below 2^255 leaves room for another 2^j. */
  lemma RoomForCarry(s: seq<int>, j: nat)
    requires j <= |s| && j <= 255 && Weight(s, 1, j) < Pow2(255)
    ensures Weight(s, 1, j) + Pow2(j) <= Pow2(255)
  {
    hide Weight, Horner, Pow2;
    var q := Horner(s, 1, j);
    WeightHorner(s, 1, j);
    Pow2Add(255 - j, j);
    var m, d := Pow2(255 - j), Pow2(j);
    assert (m - q) * d > 0 by { assert (m - q) * d == m * d - q * d; }
    MulPositive(m - q, d);
    MulGrows(m - q, d);
  }

  lemma MulPositive(k: int, d: int)
    requires k * d > 0 && d > 0
    ensures k > 0
  {
  }

  ghost predicate BitsFrom(s: seq<int>, j: nat) {
    forall k :: j <= k < |s| ==> s[k] == 0 || s[k] == 1
  }

  // ---- the bits of the scalar ----

  lemma ScalarBit(a: seq<byte>, i: nat)
    requires |a| == 32 && i < 256
    ensures a[i / 8] / Pow2(i % 8) % 2 == Bits(LE(a), i, 1)
  {
    var k := i / 8;
    assert a[k..k + 1] == [a[k]] && LE([a[k]]) == a[k] + 256 * LE([]);
    assert Pow2(1) == 2;
    hide Pow2, LE;
    LESlice(a, k, 1);
    BitsOfBits(LE(a), 8 * k, 8, i % 8, 1);
  }

  method LoadBits(r: array<i8>, a: seq<byte>)
    requires r.Length == 256 && |a| == 32 && LE(a) < Pow2(255)
    modifies r
    ensures Weight(r[..], 1, 0) == LE(a) && BitsFrom(r[..], 0)
  {
    hide LE, Weight, Bits, Pow2;
    for i := 0 to 256
      invariant forall k :: 0 <= k < i ==> r[k] == Bits(LE(a), k, 1) <= 1
    {
      ScalarBit(a, i);
      r[i] := a[i / 8] / Pow2(i % 8) % 2;
    }
    ScalarWeight(LE(a), r[..]);
  }

  lemma ScalarWeight(v: nat, s: seq<int>)
    requires |s| == 256 && v < Pow2(255) && forall k :: 0 <= k < 256 ==> s[k] == Bits(v, k, 1)
    ensures Weight(s, 1, 0) == v
  {
    hide Pow2, Weight, Horner;
    PowZero();
    DivUnique(v, Pow2(255), 0, v);
    FieldsHorner(v, s, 1, 0);
    WeightHorner(s, 1, 0);
  }

  // ---- the window loop ----

  /** Adds 2^from to the bits from position `from` upwards; the weight bound says the carry finds a zero in time. */
  method AddCarry(r: array<i8>, from: nat)
    requires r.Length == 256 && from < 256 && BitsFrom(r[..], from)
    requires Weight(r[..], 1, from) + Pow2(from) <= Pow2(255)
    modifies r
    ensures BitsFrom(r[..], from) && r[..from] == old(r[..from])
    ensures Weight(r[..], 1, from) == old(Weight(r[..], 1, from)) + Pow2(from)
    ensures old(r[from]) == 1 ==> r[from] == 0
  {
    hide Weight, Pow2;
    var k := from;
    while k < 256
      invariant from <= k <= 256
      invariant BitsFrom(r[..], from) && r[..from] == old(r[..from])
      invariant Weight(r[..], 1, from) + Pow2(k) == old(Weight(r[..], 1, from)) + Pow2(from)
      invariant Weight(r[..], 1, k) + Pow2(k) <= Pow2(255)
      invariant k > from ==> r[from] == 0
      invariant k == from ==> r[from] == old(r[from])
    {
      ghost var s := r[..];
      CarryStep(s, k);
      if r[k] == 0 {
        WeightUpdate(s, 1, k, 1, from);
        r[k] := 1;
        assert r[..] == s[k := 1];
        return;
      }
      WeightUpdate(s, 1, k, 0, from);
      r[k] := 0;
      assert r[..] == s[k := 0];
      WeightLocal(r[..], s, 1, k + 1);
      k := k + 1;
    }
    CarryInside(r[..], k);
    assert false;
  }

  /** A one at position k passes the pending carry on: 2^k + 2^k = 2^(k+1). */
  lemma CarryStep(s: seq<int>, k: nat)
    requires k < |s|
    ensures Pow2(k + 1) == 2 * Pow2(k)
    ensures s[k] == 1 ==> Weight(s, 1, k) == Pow2(k) + Weight(s, 1, k + 1)
  {
  }

  lemma {:induction false} CarryInside(s: seq<int>, k: nat)
    requires k <= |s| == 256 && Weight(s, 1, k) + Pow2(k) <= Pow2(255)
    ensures k < 256
  {
    hide Pow2;
    if k == 256 {
      CarryStep([0] + s, 255);
      assert false;
    }
  }

  ghost predicate Digit(x: int) {
    x == 0 || (x % 2 == 1 && -15 <= x <= 15)
  }

  /** What window i keeps while it absorbs the bits below i + b: the digit and the room above it. */
  ghost predicate WindowOpen(s: seq<int>, i: nat, b: nat)
    requires i < |s|
  {
    && s[i] % 2 == 1 && -15 <= s[i] <= 15
    && (b <= 4 ==> 1 <= s[i] < Pow2(b))
    && (forall k :: i < k < i + b && k < |s| && k < i + 5 ==> s[k] == 0)
    && Weight(s, 1, i + 1) + (if b <= 4 then Pow2(i) else 0) <= Pow2(255)
  }

  lemma SmallPowers(b: nat)
    requires 1 <= b <= 6
    ensures Pow2(b) == [1, 2, 4, 8, 16, 32, 64][b] && Pow2(b + 1) == 2 * Pow2(b)
  {
  }

  lemma WindowDigit(s: seq<int>, i: nat, b: nat)
    requires i < |s| && WindowOpen(s, i, b)
    ensures -15 <= s[i] <= 15 && (b <= 4 ==> 1 <= s[i])
  {
    hide Weight, Pow2;
  }

  /** Bit i + b of an open window joins the digit at i. */
  lemma JoinDigit(s: seq<int>, i: nat, b: nat)
    requires 1 <= b <= 3 && i + b < |s| && WindowOpen(s, i, b) && s[i + b] == 1
    ensures var t := s[i := s[i] + Pow2(b)][i + b := 0];
            WindowOpen(t, i, b + 1) && Weight(t, 1, 0) == Weight(s, 1, 0)
  {
    hide Weight, Pow2;
    SmallPowers(b);
    var u := s[i := s[i] + Pow2(b)];
    WeightUpdate(s, 1, i, s[i] + Pow2(b), 0);
    WeightUpdate(u, 1, i + b, 0, 0);
    WeightUpdate(u, 1, i + b, 0, i + 1);
    WeightLocal(u, s, 1, i + 1);
    Pow2Add(b, i);
  }

  /** The fifth bit of a window: subtract 16 from the digit and carry upwards. */
  lemma BorrowRoom(s: seq<int>, i: nat)
    requires i + 4 < |s| == 256 && WindowOpen(s, i, 4)
    ensures Weight(s, 1, i + 1) == Weight(s, 1, i + 4)
    ensures Weight(s, 1, i + 4) + Pow2(i + 4) <= Pow2(255) && Pow2(i + 4) == 16 * Pow2(i)
  {
    hide Weight, Pow2;
    WeightZeros(s, 1, i + 1, i + 4);
    RoomForCarry(s, i + 4);
    SmallPowers(4);
    Pow2Add(4, i);
  }

  method Join(r: array<i8>, i: nat, b: nat)
    requires r.Length == 256 && 1 <= b <= 3 && i + b < 256 && r[i + b] == 1
    requires BitsFrom(r[..], i + 1) && WindowOpen(r[..], i, b)
    modifies r
    ensures BitsFrom(r[..], i + 1) && r[..i] == old(r[..i])
    ensures Weight(r[..], 1, 0) == old(Weight(r[..], 1, 0)) && WindowOpen(r[..], i, b + 1)
  {
    hide WindowOpen, Weight, Pow2;
    ghost var s := r[..];
    JoinDigit(s, i, b);
    SmallPowers(b);
    WindowDigit(s, i, b);
    r[i] := r[i] + r[i + b] * Pow2(b);
    r[i + b] := 0;
    assert r[..] == s[i := s[i] + Pow2(b)][i + b := 0];
  }

  lemma BorrowKeeps(s: seq<int>, u: seq<int>, i: nat)
    requires i + 4 < |s| == |u| == 256 && WindowOpen(s, i, 4) && s[i + 4] == 1 && u[i + 4] == 0
    requires u[i] == s[i] - 16 && forall k :: 0 <= k < i + 4 && k != i ==> u[k] == s[k]
    requires Weight(u, 1, i + 4) == Weight(s, 1, i + 4) + Pow2(i + 4)
    ensures Weight(u, 1, 0) == Weight(s, 1, 0) && WindowOpen(u, i, 5)
  {
    hide Weight, Pow2;
    BorrowRoom(s, i);
    SmallPowers(4);
    var t := s[i := s[i] - 16];
    WeightUpdate(s, 1, i, s[i] - 16, 0);
    WeightLocal(t, s, 1, i + 4);
    WeightPrefix(u, t, 1, 0, i + 4);
    WeightZeros(u, 1, i + 1, i + 4);
  }

  /** Only the bit at distance four can get here: nearer bits join, farther ones close the window. */
  method Borrow(r: array<i8>, i: nat, b: nat)
    requires r.Length == 256 && b == 4 && i + b < 256 && r[i + b] == 1
    requires BitsFrom(r[..], i + 1) && WindowOpen(r[..], i, 4)
    modifies r
    ensures BitsFrom(r[..], i + 1) && r[..i] == old(r[..i])
    ensures Weight(r[..], 1, 0) == old(Weight(r[..], 1, 0)) && WindowOpen(r[..], i, 5)
  {
    hide Weight, Pow2, WindowOpen;
    ghost var s := r[..];
    BorrowRoom(s, i);
    SmallPowers(b);
    WindowDigit(s, i, b);
    r[i] := r[i] - r[i + b] * Pow2(b);
    ghost var t := r[..];
    WeightLocal(t, s, 1, i + b);
    AddCarry(r, i + b);
    ghost var u := r[..];
    assert forall k :: 0 <= k < i + 4 ==> u[k] == u[..i + b][k] == t[..i + b][k] == t[k];
    BorrowKeeps(s, u, i);
  }

  lemma OpenWindow(s: seq<int>, i: nat)
    requires i < |s| && s[i] == 1 && Weight(s, 1, i) <= Pow2(255)
    ensures WindowOpen(s, i, 1)
  {
    hide Weight, Pow2;
    SmallPowers(1);
    WeightHead(s, i);
  }

  lemma WeightHead(s: seq<int>, i: nat)
    requires i < |s|
    ensures Weight(s, 1, i) == s[i] * Pow2(i) + Weight(s, 1, i + 1)
  {
    hide Pow2;
  }

  /** One window: the digit at i absorbs, or borrows from, the bits above it. */
  method Window(r: array<i8>, i: nat)
    requires r.Length == 256 && i < 256 && r[i] == 1 && BitsFrom(r[..], i)
    requires Weight(r[..], 1, i) <= Pow2(255)
    modifies r
    ensures BitsFrom(r[..], i + 1) && r[..i] == old(r[..i])
    ensures Weight(r[..], 1, 0) == old(Weight(r[..], 1, 0)) && Weight(r[..], 1, i + 1) <= Pow2(255)
    ensures Digit(r[i]) && r[i] != 0
    ensures forall k :: i < k < i + 5 && k < 256 ==> r[k] == 0
  {
    hide Weight, Pow2;
    OpenWindow(r[..], i);
    var b := 1;
    while b <= 6 && i + b < 256
      invariant 1 <= b <= 7 && r[..i] == old(r[..i]) && BitsFrom(r[..], i + 1)
      invariant Weight(r[..], 1, 0) == old(Weight(r[..], 1, 0))
      invariant WindowOpen(r[..], i, b)
    {
      SmallPowers(b);
      if r[i + b] != 0 {
        assert r[i + b] == 1;
        if r[i] + r[i + b] * Pow2(b) <= 15 {
          Join(r, i, b);
        } else if r[i] - r[i + b] * Pow2(b) >= -15 {
          Borrow(r, i, b);
        } else {
          break;
        }
      }
      b := b + 1;
    }
  }

  /** Nonzero digits before position i have four zeros above them. */
  ghost predicate Spaced(s: seq<int>, i: nat) {
    forall j, k :: 0 <= j < i && j < k < j + 5 && k < |s| && s[j] != 0 ==> s[k] == 0
  }

  lemma SpacedStep(s: seq<int>, t: seq<int>, i: nat)
    requires i < |s| == |t| && Spaced(s, i) && s[i] != 0 && s[..i] == t[..i]
    requires forall k :: i < k < i + 5 && k < |t| ==> t[k] == 0
    ensures Spaced(t, i + 1)
  {
    forall j, k | 0 <= j < i + 1 && j < k < j + 5 && k < |t| && t[j] != 0
      ensures t[k] == 0
    {
      if j < i {
        assert s[j] == s[..i][j] == t[j];
        assert k < i;
        assert s[k] == s[..i][k] == t[k];
      }
    }
  }

  /** slide_vartime: signed odd digits at least five places apart that sum to the scalar. */
  method SlideVartime(r: array<i8>, a: seq<byte>)
    requires r.Length == 256 && |a| == 32 && LE(a) < Pow2(255)
    modifies r
    ensures Weight(r[..], 1, 0) == LE(a)
    ensures forall k :: 0 <= k < 256 ==> Digit(r[k])
    ensures Spaced(r[..], 256)
  {
    hide Weight, Pow2, Digit, Spaced, LE;
    LoadBits(r, a);
    SpacedStart(r[..]);
    for i := 0 to 256
      invariant Weight(r[..], 1, 0) == LE(a) && Weight(r[..], 1, i) <= Pow2(255)
      invariant BitsFrom(r[..], i) && Spaced(r[..], i)
      invariant forall k :: 0 <= k < i ==> Digit(r[k])
    {
      ghost var s := r[..];
      if r[i] == 0 {
        WeightZeros(s, 1, i, i + 1);
        SpacedZero(s, i);
      } else {
        Window(r, i);
        SpacedStep(s, r[..], i);
        assert forall k :: 0 <= k < i ==> r[k] == r[..i][k] == s[..i][k] == s[k];
      }
    }
  }

  lemma SpacedStart(s: seq<int>)
    ensures Spaced(s, 0)
  {
  }

  lemma SpacedZero(s: seq<int>, i: nat)
    requires i < |s| && Spaced(s, i) && s[i] == 0
    ensures Spaced(s, i + 1) && Digit(s[i])
  {
  }
}
