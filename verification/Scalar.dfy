/** Reduction modulo the group order in signed 21-bit limbs (sc_reduce and the common tail of sc_muladd). */
module Scalar {
  import opened Words
  import opened Digits

  /** The order of the base point, 2^252 + 27742317777372353535851937790883648493. */
  const L: int := 0x1000000000000000000000000000000014def9dea2f79cd65812631a5cf5d3ed
  /** The limb radix 2^21. */
  const B: int := 0x20_0000

  type i64 = x: int | -0x8000_0000_0000_0000 <= x < 0x8000_0000_0000_0000

  /** The integer that 24 limbs denote. */
  ghost function Val(s: seq<int>): int {
    Weight(s, 21, 0)
  }

  ghost predicate Within(s: seq<int>, lo: nat, hi: nat, b: int) {
    forall k :: lo <= k < hi && k < |s| ==> -b <= s[k] <= b
  }

  ghost predicate ZeroFrom(s: seq<int>, lo: nat) {
    forall k :: lo <= k < |s| ==> s[k] == 0
  }

  lemma Pow21(j: nat)
    ensures Pow2(21 * (j + 1)) == B * Pow2(21 * j)
  {
    Pow2Literals();
    hide Pow2;
    Pow2Stride(21, j);
  }

  // ---- folding: 2^252 is congruent to a six-limb constant ----

  ghost function AddAt(s: seq<int>, k: nat, d: int): (t: seq<int>)
    requires k < |s|
    ensures |t| == |s|
  {
    s[k := s[k] + d]
  }

  /** s with limb i folded down to limbs i-12 .. i-7. */
  ghost function Folded(s: seq<int>, i: nat): (t: seq<int>)
    requires 12 <= i < |s|
    ensures |t| == |s|
  {
    var x := s[i];
    var low := AddThree(s, i - 12, x * 666643, x * 470296, x * 654183);
    AddAt(AddThree(low, i - 9, -x * 997805, x * 136657, -x * 683901), i, -x)
  }

  ghost function AddThree(s: seq<int>, k: nat, d: int, e: int, f: int): (t: seq<int>)
    requires k + 2 < |s|
    ensures |t| == |s|
  {
    AddAt(AddAt(AddAt(s, k, d), k + 1, e), k + 2, f)
  }

  lemma FoldedWeights(j: nat)
    ensures Pow2(21 * (j + 1)) == B * Pow2(21 * j) && Pow2(21 * (j + 2)) == B * B * Pow2(21 * j)
    ensures Pow2(21 * (j + 3)) == B * B * B * Pow2(21 * j)
    ensures Pow2(21 * (j + 4)) == B * B * B * B * Pow2(21 * j)
    ensures Pow2(21 * (j + 5)) == B * B * B * B * B * Pow2(21 * j)
    ensures Pow2(21 * (j + 12)) == B * B * B * B * B * B * B * B * B * B * B * B * Pow2(21 * j)
  {
    hide Pow2;
    FourUp(j);
    FourUp(j + 4);
    FourUp(j + 8);
    Pow21(j + 4);
  }

  lemma FourUp(j: nat)
    ensures Pow2(21 * (j + 1)) == B * Pow2(21 * j) && Pow2(21 * (j + 2)) == B * B * Pow2(21 * j)
    ensures Pow2(21 * (j + 3)) == B * B * B * Pow2(21 * j)
    ensures Pow2(21 * (j + 4)) == B * B * B * B * Pow2(21 * j)
  {
    hide Pow2;
    Pow21(j);
    Pow21(j + 1);
    Pow21(j + 2);
    Pow21(j + 3);
  }

  /** Replacing x * 2^252 by x times the six-limb constant takes away x * L. */
  lemma FoldIdentity(x: int, p: int)
    ensures x * 666643 * p + x * 470296 * (B * p) + x * 654183 * (B * B * p) - x * 997805 * (B * B * B * p)
          + x * 136657 * (B * B * B * B * p) - x * 683901 * (B * B * B * B * B * p)
          - x * (B * B * B * B * B * B * B * B * B * B * B * B * p) == -L * (x * p)
  {
  }

  lemma AddAtValue(s: seq<int>, k: nat, d: int)
    requires k < |s|
    ensures Val(AddAt(s, k, d)) == Val(s) + d * Pow2(21 * k)
  {
    hide Weight, Pow2;
    WeightUpdate(s, 21, k, s[k] + d, 0);
  }

  lemma FoldedSum(s: seq<int>, i: nat)
    requires 12 <= i < |s|
    ensures var x, j := s[i], i - 12;
            Val(Folded(s, i)) == Val(s)
              + x * 666643 * Pow2(21 * j) + x * 470296 * Pow2(21 * (j + 1)) + x * 654183 * Pow2(21 * (j + 2))
              + -x * 997805 * Pow2(21 * (j + 3)) + x * 136657 * Pow2(21 * (j + 4))
              + -x * 683901 * Pow2(21 * (j + 5)) + -x * Pow2(21 * (j + 12))
  {
    hide Val, Pow2, AddAt;
    var x, j := s[i], i - 12;
    var t1 := AddAt(s, j, x * 666643);
    var t2 := AddAt(t1, j + 1, x * 470296);
    var t3 := AddAt(t2, j + 2, x * 654183);
    var t4 := AddAt(t3, j + 3, -x * 997805);
    var t5 := AddAt(t4, j + 4, x * 136657);
    var t6 := AddAt(t5, j + 5, -x * 683901);
    AddAtValue(s, j, x * 666643);
    AddAtValue(t1, j + 1, x * 470296);
    AddAtValue(t2, j + 2, x * 654183);
    AddAtValue(t3, j + 3, -x * 997805);
    AddAtValue(t4, j + 4, x * 136657);
    AddAtValue(t5, j + 5, -x * 683901);
    AddAtValue(t6, j + 12, -x);
  }

  lemma FoldedValue(s: seq<int>, i: nat)
    requires 12 <= i < |s|
    ensures Val(Folded(s, i)) == Val(s) - L * (s[i] * Pow2(21 * (i - 12)))
  {
    hide Val, Pow2, Folded;
    FoldedSum(s, i);
    FoldedWeights(i - 12);
    FoldIdentity(s[i], Pow2(21 * (i - 12)));
  }

  lemma FoldedBounds(s: seq<int>, i: nat, m: int, b: int)
    requires 12 <= i < |s| && -m <= s[i] <= m && Within(s, 0, i - 6, b)
    ensures Within(Folded(s, i), 0, i - 6, b + m * 0x10_0000)
    ensures Folded(s, i)[i] == 0 && forall k :: i - 6 <= k < |s| && k != i ==> Folded(s, i)[k] == s[k]
  {
  }

  ghost function ModL(x: int): nat {
    x % L
  }

  lemma ModLShift(x: int, k: int)
    ensures ModL(x - L * k) == ModL(x)
  {
  }

  /** One fold group of six statements: limb i, worth a multiple of 2^252, is added into the limbs below and cleared. */
  method Fold(s: array<i64>, i: nat, ghost m: int, ghost b: int)
    requires s.Length == 24 && 12 <= i < 24 && -m <= s[i] <= m && Within(s[..], 0, i - 6, b)
    requires b + m * 0x10_0000 < 0x8000_0000_0000_0000 && b >= 0
    modifies s
    ensures s[..] == Folded(old(s[..]), i)
    ensures Val(s[..]) == old(Val(s[..])) - L * (old(s[i]) * Pow2(21 * (i - 12)))
    ensures ModL(Val(s[..])) == ModL(old(Val(s[..])))
    ensures Within(s[..], 0, i - 6, b + m * 0x10_0000) && s[i] == 0
    ensures forall k :: i - 6 <= k < 24 && k != i ==> s[k] == old(s[k])
  {
    hide Val, Pow2, ModL;
    ghost var t := s[..];
    FoldedValue(t, i);
    FoldedBounds(t, i, m, b);
    ModLShift(Val(t), t[i] * Pow2(21 * (i - 12)));
    FoldStores(s, i, m, b);
  }

  /** The six updates of one fold. */
  method FoldStores(s: array<i64>, i: nat, ghost m: int, ghost b: int)
    requires s.Length == 24 && 12 <= i < 24 && -m <= s[i] <= m && Within(s[..], 0, i - 6, b)
    requires b + m * 0x10_0000 < 0x8000_0000_0000_0000 && b >= 0
    modifies s
    ensures s[..] == Folded(old(s[..]), i)
  {
    hide AddThree;
    var x := s[i];
    AddToThree(s, i - 12, x * 666643, x * 470296, x * 654183);
    AddToThree(s, i - 9, -x * 997805, x * 136657, -x * 683901);
    s[i] := 0;
  }

  method AddToThree(s: array<i64>, k: nat, d: int, e: int, f: int)
    requires k + 2 < s.Length && Fits(s[k] + d) && Fits(s[k + 1] + e) && Fits(s[k + 2] + f)
    modifies s
    ensures s[..] == AddThree(old(s[..]), k, d, e, f)
    ensures forall j :: k + 2 < j < s.Length ==> s[j] == old(s[j])
  {
    s[k] := s[k] + d;
    s[k + 1] := s[k + 1] + e;
    s[k + 2] := s[k + 2] + f;
  }

  predicate Fits(x: int) {
    -0x8000_0000_0000_0000 <= x < 0x8000_0000_0000_0000
  }

  /** What holds of the limbs between folds: small ones still to fold above lo, sums below it, zeros above hi. */
  ghost predicate Folding(s: seq<int>, lo: nat, hi: nat, m: int, b: int) {
    Within(s, 0, lo, b) && Within(s, lo, hi, m) && ZeroFrom(s, hi)
  }

  method FoldNext(s: array<i64>, i: nat, ghost lo: nat, ghost m: int, ghost b: int)
    requires s.Length == 24 && 12 <= i < 24 && i - 5 <= lo <= i && Folding(s[..], lo, i + 1, m, b)
    requires 0 <= m <= b && b + m * 0x10_0000 < 0x8000_0000_0000_0000
    modifies s
    ensures Folding(s[..], lo, i, m, b + m * 0x10_0000)
    ensures s[lo - 1] == old(s[lo - 1]) && forall k :: 0 <= k < i - 12 ==> s[k] == old(s[k])
    ensures ModL(Val(s[..])) == ModL(old(Val(s[..])))
  {
    hide Val, ModL;
    Fold(s, i, m, b);
  }

  /** The folds of six consecutive limbs, top first. */
  method FoldSix(s: array<i64>, top: nat, ghost m: int, ghost b: int)
    requires s.Length == 24 && 17 <= top < 24 && Folding(s[..], top - 5, top + 1, m, b)
    requires 0 <= m <= b && b + 6 * m * 0x10_0000 < 0x8000_0000_0000_0000
    modifies s
    ensures Within(s[..], 0, top - 5, b + 6 * m * 0x10_0000) && ZeroFrom(s[..], top - 5)
    ensures s[top - 6] == old(s[top - 6]) && forall k :: 0 <= k < top - 17 ==> s[k] == old(s[k])
    ensures ModL(Val(s[..])) == ModL(old(Val(s[..])))
  {
    hide Val, ModL, Within, ZeroFrom;
    FoldNext(s, top, top - 5, m, b);
    FoldNext(s, top - 1, top - 5, m, b + m * 0x10_0000);
    FoldNext(s, top - 2, top - 5, m, b + 2 * m * 0x10_0000);
    FoldNext(s, top - 3, top - 5, m, b + 3 * m * 0x10_0000);
    FoldNext(s, top - 4, top - 5, m, b + 4 * m * 0x10_0000);
    FoldNext(s, top - 5, top - 5, m, b + 5 * m * 0x10_0000);
  }

  // ---- carries ----

  lemma CarryValue(s: seq<int>, i: nat, c: int)
    requires i + 1 < |s|
    ensures Val(AddAt(AddAt(s, i + 1, c), i, -c * B)) == Val(s)
  {
    hide Val, Pow2, AddAt;
    AddAtValue(s, i + 1, c);
    AddAtValue(AddAt(s, i + 1, c), i, -c * B);
    Pow21(i);
    CarryIdentity(c, Pow2(21 * i));
  }

  lemma CarryIdentity(c: int, p: int)
    ensures c * (B * p) + -c * B * p == 0
  {
  }

  /** One rounding carry: limb i is brought into [-2^20, 2^20). */
  method CarryRound(s: array<i64>, i: nat)
    requires s.Length == 24 && i < 23
    requires s[i] <= 0x7000_0000_0000_0000 && -0x7000_0000_0000_0000 <= s[i + 1] <= 0x7000_0000_0000_0000
    modifies s
    ensures Val(s[..]) == old(Val(s[..]))
    ensures -0x10_0000 <= s[i] < 0x10_0000
    ensures s[i + 1] == old(s[i + 1]) + (old(s[i]) + 0x10_0000) / B
    ensures forall k :: 0 <= k < 24 && k != i && k != i + 1 ==> s[k] == old(s[k])
  {
    ghost var t := s[..];
    var carry: i64 := (s[i] + 0x10_0000) / B;
    CarryValue(t, i, carry);
    hide Val;
    s[i + 1] := s[i + 1] + carry;
    s[i] := s[i] - carry * B;
    assert s[..] == AddAt(AddAt(t, i + 1, carry), i, -carry * B);
  }

  /** One floor carry: limb i is masked into [0, 2^21). */
  method CarryFloor(s: array<i64>, i: nat)
    requires s.Length == 24 && i < 23
    requires -0x7000_0000_0000_0000 <= s[i + 1] <= 0x7000_0000_0000_0000
    modifies s
    ensures Val(s[..]) == old(Val(s[..]))
    ensures 0 <= s[i] < B && s[i + 1] == old(s[i + 1]) + old(s[i]) / B
    ensures forall k :: 0 <= k < 24 && k != i && k != i + 1 ==> s[k] == old(s[k])
  {
    ghost var t := s[..];
    var carry: i64 := s[i] / B;
    CarryValue(t, i, carry);
    hide Val;
    s[i + 1] := s[i + 1] + carry;
    s[i] := s[i] % B;
    assert s[..] == AddAt(AddAt(t, i + 1, carry), i, -carry * B);
  }

  /** Rounding carries out of limbs lo, lo + 2, .., hi. */
  method CarryEvery(s: array<i64>, lo: nat, hi: nat, ghost b: int, ghost c: int)
    requires s.Length == 24 && lo <= hi <= 22 && (hi - lo) % 2 == 0
    requires 0 <= b <= B * (c - 1) && b + c < 0x7000_0000_0000_0000 && Within(s[..], lo, hi + 2, b)
    modifies s
    ensures Val(s[..]) == old(Val(s[..]))
    ensures forall k :: lo <= k <= hi && (k - lo) % 2 == 0 ==> -0x10_0000 <= s[k] < 0x10_0000
    ensures forall k :: lo < k <= hi + 1 && (k - lo) % 2 == 1 ==> old(s[k]) - c <= s[k] <= old(s[k]) + c
    ensures forall k :: 0 <= k < 24 && !(lo <= k <= hi + 1) ==> s[k] == old(s[k])
  {
    hide Val;
    var i := lo;
    while i <= hi
      invariant lo <= i <= hi + 2 && (i - lo) % 2 == 0
      invariant Val(s[..]) == old(Val(s[..]))
      invariant forall k :: lo <= k < i && (k - lo) % 2 == 0 ==> -0x10_0000 <= s[k] < 0x10_0000
      invariant forall k :: lo < k < i && (k - lo) % 2 == 1 ==> old(s[k]) - c <= s[k] <= old(s[k]) + c
      invariant forall k :: 0 <= k < 24 && !(lo <= k < i) ==> s[k] == old(s[k])
    {
      CarryRound(s, i);
      i := i + 2;
    }
  }

  // ---- the reduction, stage by stage ----

  /** The first six folds and the rounding carries over limbs 6 to 16. */
  method ReduceHigh(s: array<i64>)
    requires s.Length == 24 && Within(s[..], 0, 24, 0x8000_0000)
    modifies s
    ensures Within(s[..], 0, 18, 0x8_0000_0000) && ZeroFrom(s[..], 18)
    ensures ModL(Val(s[..])) == ModL(old(Val(s[..])))
  {
    hide Val, ModL;
    FoldSix(s, 23, 0x8000_0000, 0x8000_0000);
    CarryEvery(s, 6, 16, 0x40_0000_0000_0000, 0x4_0000_0000);
    CarryEvery(s, 7, 15, 0x80_0000_0000_0000, 0x6_0000_0000);
  }

  /** The next six folds and the rounding carries over limbs 0 to 11. */
  method ReduceMiddle(s: array<i64>)
    requires s.Length == 24 && Within(s[..], 0, 18, 0x8_0000_0000) && ZeroFrom(s[..], 18)
    modifies s
    ensures Within(s[..], 0, 13, 0x100_0000_0000) && ZeroFrom(s[..], 13)
    ensures -0x10_0000 <= s[11] < 0x10_0000
    ensures ModL(Val(s[..])) == ModL(old(Val(s[..])))
  {
    hide Val, ModL;
    FoldSix(s, 17, 0x8_0000_0000, 0x8_0000_0000);
    CarryEvery(s, 0, 10, 0x400_0000_0000_0000, 0x40_0000_0000);
    CarryEvery(s, 1, 11, 0x800_0000_0000_0000, 0x80_0000_0000);
  }

  lemma {:induction false} WeightBound(s: seq<int>, j: nat, n: nat, b: int)
    requires j <= n <= |s| && Within(s, j, n, b) && b >= 0
    ensures -b * (Pow2(21 * n) - Pow2(21 * j)) <= (B - 1) * (Weight(s, 21, j) - Weight(s, 21, n))
    ensures (B - 1) * (Weight(s, 21, j) - Weight(s, 21, n)) <= b * (Pow2(21 * n) - Pow2(21 * j))
    decreases n - j
  {
    if j < n {
      WeightBound(s, j + 1, n, b);
      hide Pow2;
      Pow21(j);
      LimbBound(s[j], b, Pow2(21 * j));
      Telescope(b, Pow2(21 * j), Pow2(21 * n));
    }
  }

  lemma Telescope(b: int, p: int, q: int)
    ensures b * (q - B * p) + (B - 1) * (b * p) == b * (q - p)
    ensures -b * (q - B * p) - (B - 1) * (b * p) == -b * (q - p)
  {
  }

  lemma LimbBound(x: int, b: int, p: int)
    requires -b <= x <= b && p > 0
    ensures -(b * p) <= x * p <= b * p
  {
  }

  lemma BigPowers()
    ensures Pow2(0) == 1 && Pow2(126) == B * B * B * B * B * B
    ensures Pow2(231) == B * B * B * B * B * B * B * B * B * B * B
    ensures Pow2(252) == B * Pow2(231)
  {
    PowZero();
    hide Pow2;
    FoldedWeights(0);
    FoldedWeights(6);
    Pow21(5);
    Pow21(11);
  }

  /** Entering the floor carries, the value lies strictly between -2^252 and 2^252. */
  lemma BeforeFloor(s: seq<int>)
    requires |s| == 24 && Within(s, 0, 6, 0x2000_0000_0000_0000) && Within(s, 6, 11, 0x100_0000_0000)
    requires -0x10_0000 <= s[11] < 0x10_0000 && ZeroFrom(s, 12)
    ensures 0 - Pow2(252) < Val(s) < Pow2(252)
  {
    hide Pow2, Weight;
    BigPowers();
    WeightAt(s, 11);
    WeightBound(s, 0, 6, 0x2000_0000_0000_0000);
    WeightBound(s, 6, 11, 0x100_0000_0000);
    WeightZeros(s, 21, 12, 24);
    assert Weight(s, 21, 24) == 0 by { EmptyWeight(s); }
  }

  lemma WeightAt(s: seq<int>, j: nat)
    requires j < |s|
    ensures Weight(s, 21, j) == s[j] * Pow2(21 * j) + Weight(s, 21, j + 1)
  {
    hide Pow2;
  }

  lemma EmptyWeight(s: seq<int>)
    ensures Weight(s, 21, |s|) == 0
  {
  }

  ghost predicate Masked(s: seq<int>, n: nat) {
    forall k :: 0 <= k < n && k < |s| ==> 0 <= s[k] < B
  }

  lemma {:induction false} MaskedWeight(s: seq<int>, j: nat, n: nat)
    requires j <= n <= |s| && Masked(s, n)
    ensures 0 <= Weight(s, 21, j) - Weight(s, 21, n) <= Pow2(21 * n) - Pow2(21 * j)
    decreases n - j
  {
    if j < n {
      MaskedWeight(s, j + 1, n);
      hide Pow2;
      Pow21(j);
      MaskedLimb(s[j], Pow2(21 * j));
    }
  }

  lemma MaskedLimb(x: int, p: int)
    requires 0 <= x < B && p > 0
    ensures 0 <= x * p <= B * p - p
  {
    LimbBound(x, B - 1, p);
  }

  /** Floor carries out of limbs 0 .. n-1. */
  method FloorPass(s: array<i64>, n: nat)
    requires s.Length == 24 && n < 24 && Within(s[..], 0, n + 1, 0x2000_0000_0000_0000)
    modifies s
    ensures Masked(s[..], n) && Val(s[..]) == old(Val(s[..]))
    ensures forall k :: n < k < 24 ==> s[k] == old(s[k])
  {
    hide Val;
    for i := 0 to n
      invariant Masked(s[..], i) && Val(s[..]) == old(Val(s[..]))
      invariant -0x3000_0000_0000_0000 <= s[i] <= 0x3000_0000_0000_0000
      invariant forall k :: i < k < 24 ==> s[k] == old(s[k])
    {
      CarryFloor(s, i);
    }
  }

  lemma SplitTop(s: seq<int>, n: nat)
    requires n < |s| && Masked(s, n) && ZeroFrom(s, n + 1)
    ensures s[n] * Pow2(21 * n) <= Val(s) < s[n] * Pow2(21 * n) + Pow2(21 * n)
  {
    MaskedWeight(s, 0, n);
    assert Weight(s, 21, n) == s[n] * Pow2(21 * n) + Weight(s, 21, n + 1);
    hide Weight, Pow2;
    WeightZeros(s, 21, n + 1, |s|);
    EmptyWeight(s);
  }

  /** After the masked carries of a value in (-2^252, 2^252), limb 12 is its sign: 0 or -1. */
  lemma SignLimb(s: seq<int>)
    requires |s| == 24 && Masked(s, 12) && ZeroFrom(s, 13) && 0 - Pow2(252) < Val(s) < Pow2(252)
    ensures s[12] == if Val(s) < 0 then -1 else 0
  {
    hide Val, Pow2;
    SplitTop(s, 12);
    SignOf(s[12], Val(s), Pow2(252));
  }

  lemma SignOf(x: int, v: int, p: int)
    requires p > 0 && x * p <= v < x * p + p && 0 - p < v < p
    ensures x == if v < 0 then -1 else 0
  {
    assert (-x - 1) * p == -(x * p) - p;
    if x >= 1 {
      MulGrows(x, p);
    } else if x <= -2 {
      MulGrows(-x - 1, p);
    }
  }

  /** The tail of the reduction: from rounded limbs to the canonical residue in limbs 0 to 11. */
  method ReduceLow(s: array<i64>)
    requires s.Length == 24 && Within(s[..], 0, 13, 0x100_0000_0000) && ZeroFrom(s[..], 13)
    requires -0x10_0000 <= s[11] < 0x10_0000
    modifies s
    ensures Val(s[..]) == ModL(old(Val(s[..])))
    ensures Masked(s[..], 11) && 0 <= s[11] < 2 * B && ZeroFrom(s[..], 12)
  {
    hide Val, Pow2, ModL;
    ghost var v := Val(s[..]);
    Fold(s, 12, 0x100_0000_0000, 0x100_0000_0000);
    BeforeFloor(s[..]);
    SignFold(s);
    ghost var v2 := Val(s[..]);
    FloorPass(s, 11);
    BigPowers();
    SplitTop(s[..], 11);
    CanonicalResidue(v, v2);
  }

  /** The floor carries and the last fold add L exactly when the value is negative. */
  method SignFold(s: array<i64>)
    requires s.Length == 24 && Within(s[..], 0, 13, 0x2000_0000_0000_0000) && ZeroFrom(s[..], 13)
    requires 0 - Pow2(252) < Val(s[..]) < Pow2(252)
    modifies s
    ensures Val(s[..]) == (if old(Val(s[..])) < 0 then old(Val(s[..])) + L else old(Val(s[..])))
    ensures ModL(Val(s[..])) == ModL(old(Val(s[..])))
    ensures Within(s[..], 0, 12, 0x2000_0000_0000_0000) && ZeroFrom(s[..], 12)
  {
    hide Val, Pow2, ModL;
    FloorPass(s, 12);
    SignLimb(s[..]);
    PowZero();
    Fold(s, 12, 1, B);
  }

  lemma CanonicalResidue(v: int, r: int)
    requires ModL(v) == ModL(r) && 0 <= r < L
    ensures r == ModL(v)
  {
  }

  /** sc_reduce's limb arithmetic: any 24 limbs below 2^31 in size become the residue mod L. */
  method Reduce(s: array<i64>)
    requires s.Length == 24 && Within(s[..], 0, 24, 0x8000_0000)
    modifies s
    ensures Val(s[..]) == ModL(old(Val(s[..])))
    ensures Masked(s[..], 11) && 0 <= s[11] < 2 * B && ZeroFrom(s[..], 12)
  {
    hide Val, ModL;
    ReduceHigh(s);
    ReduceMiddle(s);
    ReduceLow(s);
  }
}
