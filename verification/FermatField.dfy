/** What the primality of P gives: inverses, no zero divisors, and square roots by exponentiation. */
module FermatField {
  import opened Field
  import opened FieldPow

  /** Fermat's little theorem for P, the form in which the primality of 2^255 - 19 is assumed. */
  ghost predicate Fermat() {
    forall z: int :: LittleTheorem(z)
  }

  ghost predicate LittleTheorem(z: int) {
    Mod(z) != 0 ==> Mod(Pow(z, P - 1)) == 1
  }

  lemma FermatAt(z: int)
    requires Fermat() && Mod(z) != 0
    ensures Mod(Pow(z, P - 1)) == 1
  {
    hide Pow, Mod;
    assert LittleTheorem(z);
  }

  /** z^(P-2) is the inverse of a nonzero z. */
  lemma Inverse(z: int, i: int)
    requires Fermat() && Mod(z) != 0 && Mod(i) == Mod(Pow(z, P - 2))
    ensures Mod(z * i) == 1
  {
    FermatAt(z);
    hide Mod, Fermat;
    ModMul(z, z, i, Pow(z, P - 2));
    PowSucc(z, P - 2);
  }

  lemma PowSucc(z: int, e: nat)
    ensures Pow(z, e + 1) == z * Pow(z, e)
  {
  }

  lemma ModZero(x: int)
    ensures Mod(x) == 0 <==> Mod(x) == Mod(0)
    ensures Mod(0) == 0 && Mod(1) == 1
  {
    ModIs(x);
    ModIs(0);
    ModIs(1);
  }

  lemma NoZeroDivisors(x: int, y: int)
    requires Fermat() && Mod(x * y) == 0
    ensures Mod(x) == 0 || Mod(y) == 0
  {
    hide Mod, Fermat, Pow;
    if Mod(x) != 0 {
      var i := Pow(x, P - 2);
      Inverse(x, i);
      ModZero(x * y);
      ModZero(y);
      ModMul(x * y, 0, i, i);
      ModMul(x * i, 1, y, y);
      assert x * y * i == x * i * y;
      ModZero(1);
    }
  }

  /** Two square roots of the same number differ at most in sign. */
  lemma RootsOfSame(x: int, y: int)
    requires Fermat() && Mod(x * x) == Mod(y * y)
    ensures Mod(x) == Mod(y) || Mod(x) == Mod(0 - y)
  {
    hide Mod, Fermat;
    ModAdd(x * x, y * y, y * y, y * y);
    assert (x - y) * (x + y) == x * x - y * y;
    ModZero((x - y) * (x + y));
    NoZeroDivisors(x - y, x + y);
    ModZero(x - y);
    ModZero(x + y);
    if Mod(x - y) == 0 {
      ModAdd(x - y, 0, y, y);
    } else {
      ModAdd(x + y, 0, y, y);
    }
  }

  /** A square to the power (P-1)/4 is 1 or -1, or the square is zero. */
  lemma QuarterPower(m: int)
    requires Fermat() && Mod(m) != 0
    ensures var n := Pow(m * m, (P - 1) / 4); Mod(n) == 1 || Mod(n) == Mod(0 - 1)
  {
    FermatAt(m);
    hide Mod, Fermat, Pow;
    var h := Pow(m, (P - 1) / 2);
    PowAdd(m, (P - 1) / 2, (P - 1) / 2);
    ModZero(0);
    RootsOfSame(h, 1);
    Halving(m);
  }

  lemma Halving(m: int)
    ensures Pow(m * m, (P - 1) / 4) == Pow(m, (P - 1) / 2)
  {
    assert Pow(m, 2) == m * Pow(m, 1) && Pow(m, 1) == m * Pow(m, 0);
    hide Pow;
    PowMul(m, 2, (P - 1) / 4);
  }
}
