/** Commutative groups of points given by their operations, and integer multiples in them. */
module Groups {

  datatype Pt = Pt(x: int, y: int)

  /** A candidate for a group on points: which points belong, and the operations. */
  datatype Group = Group(has: Pt -> bool, zero: Pt, add: (Pt, Pt) -> Pt, neg: Pt -> Pt)

  /** The laws of a commutative group at three of its points. */
  ghost predicate LawsAt(g: Group, x: Pt, y: Pt, z: Pt) {
    && g.has(g.zero) && g.has(g.add(x, y)) && g.has(g.neg(x))
    && g.add(g.zero, x) == x && g.add(g.neg(x), x) == g.zero
    && g.add(x, y) == g.add(y, x) && g.add(g.add(x, y), z) == g.add(x, g.add(y, z))
  }

  ghost predicate HasAll(g: Group, x: Pt, y: Pt, z: Pt) {
    g.has(x) && g.has(y) && g.has(z)
  }

  ghost predicate IsGroup(g: Group) {
    g.has(g.zero) && forall x, y, z :: HasAll(g, x, y, z) ==> LawsAt(g, x, y, z)
  }

  lemma Laws(g: Group, x: Pt, y: Pt, z: Pt)
    requires IsGroup(g) && g.has(x) && g.has(y) && g.has(z)
    ensures g.has(g.zero) && g.has(g.add(x, y)) && g.has(g.neg(x))
    ensures g.add(g.zero, x) == x && g.add(x, g.zero) == x
    ensures g.add(g.neg(x), x) == g.zero && g.add(x, g.neg(x)) == g.zero
    ensures g.add(x, y) == g.add(y, x) && g.add(g.add(x, y), z) == g.add(x, g.add(y, z))
  {
    assert HasAll(g, x, y, z);
    assert HasAll(g, x, g.zero, x) && HasAll(g, x, g.neg(x), x);
  }

  /** n times x, for any integer n. */
  ghost function Mul(g: Group, n: int, x: Pt): Pt
    decreases if n < 0 then -n else n
  {
    if n == 0 then g.zero
    else if n > 0 then g.add(x, Mul(g, n - 1, x))
    else g.add(g.neg(x), Mul(g, n + 1, x))
  }

  lemma {:induction false} MulHas(g: Group, n: int, x: Pt)
    requires IsGroup(g) && g.has(x)
    ensures g.has(Mul(g, n, x))
    decreases if n < 0 then -n else n
  {
    hide IsGroup;
    Laws(g, x, x, x);
    if n > 0 {
      MulHas(g, n - 1, x);
      Laws(g, x, Mul(g, n - 1, x), x);
    } else if n < 0 {
      MulHas(g, n + 1, x);
      Laws(g, g.neg(x), Mul(g, n + 1, x), x);
    }
  }

  lemma MulStep(g: Group, n: int, x: Pt)
    requires IsGroup(g) && g.has(x)
    ensures g.has(Mul(g, n, x)) && Mul(g, n + 1, x) == g.add(x, Mul(g, n, x))
  {
    hide IsGroup;
    MulHas(g, n, x);
    if n < 0 {
      MulHas(g, n + 1, x);
      Laws(g, x, x, x);
      Laws(g, x, g.neg(x), Mul(g, n + 1, x));
      Laws(g, Mul(g, n + 1, x), x, x);
    }
  }

  lemma {:induction false} MulAdd(g: Group, m: int, n: int, x: Pt)
    requires IsGroup(g) && g.has(x)
    ensures Mul(g, m + n, x) == g.add(Mul(g, m, x), Mul(g, n, x))
    decreases if m < 0 then -m else m
  {
    hide IsGroup;
    MulHas(g, n, x);
    if m == 0 {
      Laws(g, Mul(g, n, x), x, x);
    } else if m > 0 {
      hide Mul;
      MulAdd(g, m - 1, n, x);
      MulStep(g, m - 1, x);
      MulStep(g, m - 1 + n, x);
      Laws(g, x, Mul(g, m - 1, x), Mul(g, n, x));
    } else {
      hide Mul;
      MulAdd(g, m + 1, n, x);
      MulStep(g, m, x);
      MulStep(g, m + n, x);
      // x + (m+n)x == x + (mx + nx); cancel x
      Laws(g, x, Mul(g, m, x), Mul(g, n, x));
      Laws(g, Mul(g, m, x), Mul(g, n, x), x);
      Cancel(g, x, Mul(g, m + n, x), g.add(Mul(g, m, x), Mul(g, n, x)));
    }
  }

  lemma Cancel(g: Group, x: Pt, y: Pt, z: Pt)
    requires IsGroup(g) && g.has(x) && g.has(y) && g.has(z) && g.add(x, y) == g.add(x, z)
    ensures y == z
  {
    hide IsGroup;
    Laws(g, x, x, x);
    Laws(g, g.neg(x), x, y);
    Laws(g, g.neg(x), x, z);
    Laws(g, y, x, x);
    Laws(g, z, x, x);
  }

  lemma MulNeg(g: Group, n: int, x: Pt)
    requires IsGroup(g) && g.has(x)
    ensures Mul(g, -n, x) == g.neg(Mul(g, n, x))
  {
    hide Mul, IsGroup;
    MulOne(g, x);
    MulAdd(g, n, -n, x);
    MulHas(g, n, x);
    MulHas(g, -n, x);
    Laws(g, Mul(g, n, x), x, x);
    Cancel(g, Mul(g, n, x), Mul(g, -n, x), g.neg(Mul(g, n, x)));
  }

  lemma {:induction false} MulMul(g: Group, m: int, n: int, x: Pt)
    requires IsGroup(g) && g.has(x)
    ensures Mul(g, m, Mul(g, n, x)) == Mul(g, m * n, x)
    decreases if m < 0 then -m else m
  {
    hide IsGroup, Mul;
    MulHas(g, n, x);
    MulOne(g, x);
    MulOne(g, Mul(g, n, x));
    if m > 0 {
      MulMul(g, m - 1, n, x);
      assert m * n == n + (m - 1) * n;
      MulAdd(g, n, (m - 1) * n, x);
      MulStep(g, m - 1, Mul(g, n, x));
    } else if m < 0 {
      MulMul(g, m + 1, n, x);
      assert m * n + n == (m + 1) * n;
      MulHas(g, m * n, x);
      MulAdd(g, n, m * n, x);
      MulStep(g, m, Mul(g, n, x));
      Cancel(g, Mul(g, n, x), Mul(g, m, Mul(g, n, x)), Mul(g, m * n, x));
    }
  }

  lemma MulOne(g: Group, x: Pt)
    requires IsGroup(g) && g.has(x)
    ensures Mul(g, 1, x) == x && Mul(g, 0, x) == g.zero
  {
    hide IsGroup;
    Laws(g, x, x, x);
  }

  /** a*x + b*y. */
  ghost function Comb(g: Group, a: int, b: int, x: Pt, y: Pt): Pt {
    g.add(Mul(g, a, x), Mul(g, b, y))
  }

  lemma CombAdd(g: Group, a: int, b: int, c: int, d: int, x: Pt, y: Pt)
    requires IsGroup(g) && g.has(x) && g.has(y)
    ensures g.has(Comb(g, a, b, x, y))
    ensures g.add(Comb(g, a, b, x, y), Comb(g, c, d, x, y)) == Comb(g, a + c, b + d, x, y)
  {
    hide IsGroup, Mul;
    MulHas(g, a, x);
    MulHas(g, b, y);
    MulHas(g, c, x);
    MulHas(g, d, y);
    MulAdd(g, a, c, x);
    MulAdd(g, b, d, y);
    Laws(g, Mul(g, a, x), Mul(g, b, y), x);
    Interchange(g, Mul(g, a, x), Mul(g, b, y), Mul(g, c, x), Mul(g, d, y));
  }

  /** Adding a multiple of one of the two generators. */
  lemma CombAddOne(g: Group, a: int, b: int, c: int, x: Pt, y: Pt)
    requires IsGroup(g) && g.has(x) && g.has(y)
    ensures g.add(Comb(g, a, b, x, y), Mul(g, c, x)) == Comb(g, a + c, b, x, y)
    ensures g.add(Comb(g, a, b, x, y), Mul(g, c, y)) == Comb(g, a, b + c, x, y)
    ensures Comb(g, 0, 0, x, y) == g.zero
  {
    hide IsGroup, Mul;
    CombAdd(g, a, b, c, 0, x, y);
    CombAdd(g, a, b, 0, c, x, y);
    MulOne(g, x);
    MulOne(g, y);
    MulHas(g, c, x);
    MulHas(g, c, y);
    Laws(g, Mul(g, c, x), x, x);
    Laws(g, Mul(g, c, y), x, x);
    Laws(g, g.zero, x, x);
  }

  lemma Interchange(g: Group, p: Pt, q: Pt, r: Pt, s: Pt)
    requires IsGroup(g) && g.has(p) && g.has(q) && g.has(r) && g.has(s)
    ensures g.add(g.add(p, q), g.add(r, s)) == g.add(g.add(p, r), g.add(q, s))
  {
    hide IsGroup;
    Laws(g, r, s, s);
    Laws(g, q, s, s);
    Laws(g, p, q, g.add(r, s));
    Laws(g, q, r, s);
    Laws(g, r, q, s);
    Laws(g, p, r, g.add(q, s));
  }

  /** Multiples that differ by a multiple of the order of x are equal. */
  lemma MulModOrder(g: Group, n: int, order: int, x: Pt)
    requires IsGroup(g) && g.has(x) && order > 0 && Mul(g, order, x) == g.zero
    ensures Mul(g, n % order, x) == Mul(g, n, x)
  {
    hide IsGroup, Mul;
    var k := n / order;
    assert n == n % order + k * order;
    MulAdd(g, n % order, k * order, x);
    MulMul(g, k, order, x);
    MulMul(g, k, 0, x);
    MulOne(g, x);
    MulHas(g, n % order, x);
    Laws(g, Mul(g, n % order, x), x, x);
  }

  /** h (-ax) + s x = r x when s x = (ha + r) x. */
  lemma CancelSecret(g: Group, a: int, r: int, h: int, ha: int, s: int, x: Pt)
    requires IsGroup(g) && g.has(x) && ha == h * a && Mul(g, s, x) == Mul(g, ha + r, x)
    ensures Comb(g, h, s, g.neg(Mul(g, a, x)), x) == Mul(g, r, x)
  {
    hide IsGroup, Mul;
    MulNeg(g, a, x);
    MulMul(g, h, -a, x);
    assert h * -a == -ha;
    MulAdd(g, -ha, ha + r, x);
    assert -ha + (ha + r) == r;
  }
}
