/** Positional values of digit sequences; digits may be negative or exceed the radix. */
module Digits {
  import opened Words

  /** The digits from position j upwards, the k-th with weight 2^(wk). */
  ghost function Weight(s: seq<int>, w: nat, j: nat): int
    requires j <= |s|
    decreases |s| - j
  {
    if j == |s| then 0 else s[j] * Pow2(w * j) + Weight(s, w, j + 1)
  }

  lemma Pow2Stride(w: nat, j: nat)
    ensures Pow2(w * (j + 1)) == Pow2(w) * Pow2(w * j)
  {
    assert w * (j + 1) == w + w * j;
    Pow2Add(w, w * j);
  }

  lemma {:induction false} WeightLocal(s: seq<int>, t: seq<int>, w: nat, j: nat)
    requires j <= |s| == |t| && forall k :: j <= k < |s| ==> s[k] == t[k]
    ensures Weight(s, w, j) == Weight(t, w, j)
    decreases |s| - j
  {
    if j < |s| {
      WeightLocal(s, t, w, j + 1);
    }
  }

  lemma {:induction false} WeightUpdate(s: seq<int>, w: nat, k: nat, v: int, j: nat)
    requires j <= k < |s|
    ensures Weight(s[k := v], w, j) == Weight(s, w, j) + (v - s[k]) * Pow2(w * k)
    decreases k - j
  {
    if j == k {
      WeightLocal(s[k := v], s, w, k + 1);
      assert (v - s[k]) * Pow2(w * k) == v * Pow2(w * k) - s[k] * Pow2(w * k);
    } else {
      WeightUpdate(s, w, k, v, j + 1);
    }
  }

  /** The same digits in Horner form, without the factor 2^(wj). */
  ghost function Horner(s: seq<int>, w: nat, j: nat): int
    requires j <= |s|
    decreases |s| - j
  {
    if j == |s| then 0 else s[j] + Horner(s, w, j + 1) * Pow2(w)
  }

  lemma HornerStep(s: seq<int>, w: nat, j: nat)
    requires j < |s|
    ensures Horner(s, w, j) == s[j] + Horner(s, w, j + 1) * Pow2(w) && Horner(s, w, |s|) == 0
  {
  }

  lemma StrideStep(x: int, q: int, p: int, d: int)
    ensures (x + q * p) * d == x * d + q * (p * d)
  {
  }

  lemma {:induction false} WeightHorner(s: seq<int>, w: nat, j: nat)
    requires j <= |s|
    ensures Weight(s, w, j) == Horner(s, w, j) * Pow2(w * j)
    decreases |s| - j
  {
    if j < |s| {
      WeightHorner(s, w, j + 1);
      Pow2Stride(w, j);
      StrideStep(s[j], Horner(s, w, j + 1), Pow2(w), Pow2(w * j));
    }
  }

  /** Fields cut out of v, the last one taking all that is left, have the value v. */
  lemma {:induction false} FieldsHorner(v: nat, s: seq<int>, w: nat, j: nat)
    requires j < |s| && s[|s| - 1] == v / Pow2(w * (|s| - 1))
    requires forall k :: j <= k < |s| - 1 ==> s[k] == Bits(v, w * k, w)
    ensures Horner(s, w, j) == v / Pow2(w * j)
    decreases |s| - j
  {
    hide Pow2, Bits, Horner;
    HornerStep(s, w, j);
    if j < |s| - 1 {
      FieldsHorner(v, s, w, j + 1);
      Distribute(w, j);
      BitsStep(v, w * j, w);
      FieldStep(v / Pow2(w * j), s[j], Pow2(w), v / Pow2(w * j + w), Horner(s, w, j + 1));
    }
  }

  lemma Distribute(w: int, j: int)
    ensures w * (j + 1) == w * j + w
  {
  }

  lemma FieldStep(x: int, d: int, p: int, y: int, h: int)
    requires x == d + p * y && h == y
    ensures d + h * p == x
  {
  }

  lemma QuotientStep(v: int, a: int, p: int, ap: int, d: int, h: int)
    requires a > 0 && p > 0 && ap == a * p > 0 && v / a == d + h * p && 0 <= d < p
    ensures h == v / ap
  {
    var q := v / a;
    DivUnique(q, p, h, d);
    DivDiv(v, a, p, ap);
  }

  /** Conversely, digits in range are the fields of the number they denote. */
  lemma {:induction false} HornerFields(s: seq<int>, w: nat, j: nat)
    requires j < |s| && forall k :: 0 <= k < j ==> 0 <= s[k] < Pow2(w)
    ensures Horner(s, w, j) == Horner(s, w, 0) / Pow2(w * j)
  {
    hide Pow2, Horner;
    PowZero();
    if j > 0 {
      HornerStep(s, w, j - 1);
      HornerFields(s, w, j - 1);
      Pow2Stride(w, j - 1);
      QuotientStep(Horner(s, w, 0), Pow2(w * (j - 1)), Pow2(w), Pow2(w * j), s[j - 1], Horner(s, w, j));
    }
  }

  lemma {:induction false} WeightZeros(s: seq<int>, w: nat, j: nat, k: nat)
    requires j <= k <= |s| && forall i :: j <= i < k ==> s[i] == 0
    ensures Weight(s, w, j) == Weight(s, w, k)
    decreases k - j
  {
    if j < k {
      WeightZeros(s, w, j + 1, k);
    }
  }

  lemma {:induction false} WeightPrefix(s: seq<int>, t: seq<int>, w: nat, i: nat, j: nat)
    requires i <= j <= |s| == |t| && forall k :: i <= k < j ==> s[k] == t[k]
    ensures Weight(s, w, i) - Weight(s, w, j) == Weight(t, w, i) - Weight(t, w, j)
    decreases j - i
  {
    if i < j {
      WeightPrefix(s, t, w, i + 1, j);
    }
  }
}
