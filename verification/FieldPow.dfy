/** The two addition chains: inversion by z^(2^255 - 21) and the square-root exponent 2^252 - 3. */
module FieldPow {
  import opened Words
  import opened Field

  ghost function Pow(z: int, e: nat): int {
    if e == 0 then 1 else z * Pow(z, e - 1)
  }

  lemma {:induction false} PowAdd(z: int, m: nat, n: nat)
    ensures Pow(z, m + n) == Pow(z, m) * Pow(z, n)
  {
    if m > 0 {
      PowAdd(z, m - 1, n);
      MulAssoc(z, Pow(z, m - 1), Pow(z, n));
    }
  }

  lemma {:induction false} PowMul(z: int, m: nat, n: nat)
    ensures Pow(Pow(z, m), n) == Pow(z, m * n)
  {
    if n > 0 {
      PowMul(z, m, n - 1);
      assert m * n == m + m * (n - 1);
      PowAdd(z, m, m * (n - 1));
    }
  }

  lemma {:induction false} PowOfProduct(x: int, y: int, e: nat)
    ensures Pow(x * y, e) == Pow(x, e) * Pow(y, e)
  {
    if e > 0 {
      PowOfProduct(x, y, e - 1);
      MulInterchange(x, y, Pow(x, e - 1), Pow(y, e - 1));
    }
  }

  lemma {:induction false} PowMod(x: int, y: int, e: nat)
    requires Mod(x) == Mod(y)
    ensures Mod(Pow(x, e)) == Mod(Pow(y, e))
  {
    hide Mod;
    if e > 0 {
      PowMod(x, y, e - 1);
      ModMul(x, y, Pow(x, e - 1), Pow(y, e - 1));
    }
  }

  /** h holds z^e, with limbs any multiplier accepts. */
  ghost predicate IsPower(h: Fe, z: int, e: nat) {
    Below(h, LOOSE) && Mod(Val(h)) == Mod(Pow(z, e))
  }

  method MulPower(f: Fe, g: Fe, ghost z: int, ghost m: nat, ghost n: nat) returns (h: Fe)
    requires IsPower(f, z, m) && IsPower(g, z, n)
    ensures IsPower(h, z, m + n) && Below(h, TIGHT)
  {
    hide Mod, Val, Pow;
    h := FeMul(f, g);
    ModMul(Val(f), Pow(z, m), Val(g), Pow(z, n));
    PowAdd(z, m, n);
  }

  method SqPower(f: Fe, ghost z: int, ghost e: nat) returns (h: Fe)
    requires IsPower(f, z, e)
    ensures IsPower(h, z, 2 * e)
  {
    hide Mod, Val, Pow;
    h := FeSq(f);
    ModMul(Val(f), Pow(z, e), Val(f), Pow(z, e));
    PowAdd(z, e, e);
  }

  /** A squaring and the loop of n - 1 more that follows it. */
  method SqPowerN(f: Fe, n: nat, ghost z: int, ghost e: nat) returns (h: Fe)
    requires n >= 1 && IsPower(f, z, e)
    ensures IsPower(h, z, e * Pow2(n))
  {
    hide IsPower;
    h := SqPower(f, z, e);
    ghost var d: nat := 2 * e;
    assert Pow2(1) == 2;
    for i := 1 to n
      invariant IsPower(h, z, d) && d == e * Pow2(i)
    {
      h := SqPower(h, z, d);
      d := 2 * d;
      assert e * (2 * Pow2(i)) == 2 * (e * Pow2(i));
    }
  }

  /** The exponent 2^k - 1. */
  ghost function Ones(k: nat): nat {
    Pow2(k) - 1
  }

  lemma OnesStep(a: nat, b: nat)
    ensures Ones(a) * Pow2(b) + Ones(b) == Ones(a + b)
  {
    hide Pow2;
    Pow2Add(a, b);
    var p, q := Pow2(a), Pow2(b);
    assert (p - 1) * q == p * q - q;
  }

  /** Square b times, then multiply: z^(2^a - 1) and z^(2^b - 1) give z^(2^(a+b) - 1). */
  method Extend(f: Fe, g: Fe, b: nat, ghost z: int, ghost a: nat) returns (h: Fe)
    requires b >= 1 && IsPower(f, z, Ones(a)) && IsPower(g, z, Ones(b))
    ensures IsPower(h, z, Ones(a + b))
  {
    hide IsPower, Ones, Pow2;
    h := SqPowerN(f, b, z, Ones(a));
    h := MulPower(h, g, z, Ones(a) * Pow2(b), Ones(b));
    OnesStep(a, b);
  }

  lemma FirstPower(z: Fe)
    requires Below(z, LOOSE)
    ensures IsPower(z, Val(z), 1)
  {
    hide Val, Mod, Below;
    assert Pow(Val(z), 1) == Val(z) * Pow(Val(z), 0);
  }

  /** The start both chains share: z^11 and z^31. */
  method ChainStart(z: Fe) returns (t0: Fe, t1: Fe)
    requires Below(z, LOOSE)
    ensures IsPower(t0, Val(z), 11) && IsPower(t1, Val(z), Ones(5))
  {
    ghost var v := Val(z);
    assert Ones(5) == 31;
    hide IsPower, Ones, Pow, Val;
    FirstPower(z);
    t0 := SqPower(z, v, 1);
    t1 := SqPower(t0, v, 2);
    t1 := SqPower(t1, v, 4);
    t1 := MulPower(z, t1, v, 1, 8);
    t0 := MulPower(t0, t1, v, 2, 9);
    var t2 := SqPower(t0, v, 11);
    t1 := MulPower(t1, t2, v, 9, 22);
  }

  /** The climb both chains share: from z^31 to z^(2^250 - 1). */
  method Climb(a: Fe, ghost v: int) returns (t1: Fe)
    requires IsPower(a, v, Ones(5))
    ensures IsPower(t1, v, Ones(250))
  {
    hide IsPower, Ones;
    t1 := Extend(a, a, 5, v, 5);
    var t2 := Extend(t1, t1, 10, v, 10);
    t2 := Extend(t2, t2, 20, v, 20);
    t1 := Extend(t2, t1, 10, v, 40);
    t2 := Extend(t1, t1, 50, v, 50);
    t2 := Extend(t2, t2, 100, v, 100);
    t1 := Extend(t2, t1, 50, v, 200);
  }

  /** fe_invert: z^(2^255 - 21). */
  method FeInvert(z: Fe) returns (out: Fe)
    requires Below(z, LOOSE)
    ensures Below(out, TIGHT) && Mod(Val(out)) == Mod(Pow(Val(z), P - 2))
  {
    ghost var v := Val(z);
    hide IsPower, Val, Pow;
    var t0, t1 := ChainStart(z);
    t1 := Climb(t1, v);
    t1 := SqPowerN(t1, 5, v, Ones(250));
    out := MulPower(t1, t0, v, Ones(250) * Pow2(5), 11);
    LongExponents();
    assert IsPower(out, v, P - 2);
    UsePower(out, v, P - 2);
  }

  lemma UsePower(h: Fe, z: int, e: nat)
    requires IsPower(h, z, e)
    ensures Mod(Val(h)) == Mod(Pow(z, e))
  {
    hide Pow, Val, Mod, Below;
  }

  lemma LongExponents()
    ensures Ones(250) * Pow2(5) + 11 == P - 2
    ensures 4 * Ones(250) + 1 == (P - 5) / 8
  {
    assert Pow2(5) == 32;
    Pow2Literals();
    hide Pow2;
    Pow2Add(64, 64);
    Pow2Add(128, 64);
    Pow2Add(192, 32);
    Pow2Add(224, 21);
    Pow2Add(245, 5);
  }

  /** fe_pow22523: z^(2^252 - 3), and (P - 5) / 8 = 2^252 - 3. */
  method FePow22523(z: Fe) returns (out: Fe)
    requires Below(z, LOOSE)
    ensures Below(out, TIGHT) && Mod(Val(out)) == Mod(Pow(Val(z), (P - 5) / 8))
  {
    ghost var v := Val(z);
    hide IsPower, Val, Pow;
    FirstPower(z);
    var t0, t1 := ChainStart(z);
    t0 := Climb(t1, v);
    t0 := SqPower(t0, v, Ones(250));
    t0 := SqPower(t0, v, 2 * Ones(250));
    out := MulPower(t0, z, v, 4 * Ones(250), 1);
    LongExponents();
    UsePower(out, v, (P - 5) / 8);
  }
}
