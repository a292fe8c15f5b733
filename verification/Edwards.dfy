/** The twisted Edwards curve -x^2 + y^2 = 1 + d x^2 y^2 over the field, and the algebra of its addition formulas. */
module Edwards {
  import opened Field
  import opened Groups

  /** The limbs of d, 2d and a square root of -1. */
  const ED_D: Fe := Fe(929955233495203, 466365720129213, 1662059464998953, 2033849074728123, 1442794654840575)
  const ED_D2: Fe := Fe(1859910466990425, 932731440258426, 1072319116312658, 1815898335770999, 633789495995903)
  const SQRTM1: Fe := Fe(1718705420411056, 234908883556509, 2233514472574048, 2117202627021982, 765476049583133)

  /** d = -121665/121666 (section 5.1 of RFC 8032). */
  ghost predicate IsD(d: int) {
    0 <= d < P && Mod(121666 * d) == Mod(-121665)
  }

  ghost function CurveD(): (d: int)
    ensures IsD(d)
  {
    FractionExists();
    var d :| IsD(d);
    d
  }

  ghost const D: int := CurveD()

  const D_VALUE: int := 0x52036cee2b6ffe738cc740797779e89800700a4d4141d8ab75eb4dca135978a3

  lemma FractionExists()
    ensures IsD(D_VALUE)
  {
    ModIs(121666 * D_VALUE);
    ModIs(-121665);
  }

  /** There is only one such fraction, because d + 1 = 1/121666. */
  lemma DValue()
    ensures D == D_VALUE
  {
    FractionExists();
    InverseTimes(D);
    InverseTimes(D_VALUE);
    ModIs(D);
    ModIs(D_VALUE);
    hide Mod;
    ModMul(D_VALUE + 1, D_VALUE + 1, 121666 * D, 121666 * D_VALUE);
  }

  lemma InverseTimes(x: int)
    ensures Mod((D_VALUE + 1) * (121666 * x)) == Mod(x)
  {
    hide Mod;
    assert (D_VALUE + 1) * 121666 == 1 + P * 77955;
    assert (D_VALUE + 1) * (121666 * x) == x + P * (77955 * x);
    ModShift(x, 77955 * x);
  }

  lemma Constants()
    ensures Val(ED_D) == D && Mod(Val(ED_D2)) == Mod(2 * D)
    ensures Mod(Val(SQRTM1) * Val(SQRTM1)) == Mod(-1)
    ensures Below(ED_D, TIGHT) && Below(ED_D2, TIGHT) && Below(SQRTM1, TIGHT)
  {
    DValue();
    ModIs(Val(ED_D2));
    ModIs(2 * D_VALUE);
    ModIs(Val(SQRTM1) * Val(SQRTM1));
    ModIs(-1);
  }

  ghost predicate OnCurve(p: Pt) {
    && 0 <= p.x < P && 0 <= p.y < P
    && Mod(p.y * p.y - p.x * p.x) == Mod(1 + D * (p.x * p.x * (p.y * p.y)))
  }

  ghost function Neg(p: Pt): Pt {
    Pt(Mod(-p.x), p.y)
  }

  /** z has an inverse. */
  ghost predicate Unit(z: int) {
    exists i: int :: Mod(z * i) == 1
  }

  /** d x1 x2 y1 y2. */
  ghost function Cross(p: Pt, q: Pt): int {
    D * (p.x * q.x * (p.y * q.y))
  }

  /** r is the Edwards sum of p and q (section 5.1.4 of RFC 8032), written without division. */
  ghost predicate IsSum(p: Pt, q: Pt, r: Pt) {
    && Mod(r.x * (1 + Cross(p, q))) == Mod(p.x * q.y + q.x * p.y)
    && Mod(r.y * (1 - Cross(p, q))) == Mod(p.y * q.y + p.x * q.x)
  }

  ghost function Curve(add: (Pt, Pt) -> Pt): Group {
    Group((p: Pt) => OnCurve(p), Pt(0, 1), add, (p: Pt) => Neg(p))
  }

  /** The hypothesis about the curve: complete Edwards addition is a commutative group on its points. */
  ghost predicate IsEdwards(add: (Pt, Pt) -> Pt) {
    IsGroup(Curve(add)) && forall p, q :: CompleteAt(add, p, q)
  }

  /** The sum of two curve points is their Edwards sum, whose denominators are invertible. */
  ghost predicate CompleteAt(add: (Pt, Pt) -> Pt, p: Pt, q: Pt) {
    OnCurve(p) && OnCurve(q) ==>
      IsSum(p, q, add(p, q)) && Unit(1 + Cross(p, q)) && Unit(1 - Cross(p, q))
  }

  lemma Complete(add: (Pt, Pt) -> Pt, p: Pt, q: Pt)
    requires IsEdwards(add) && OnCurve(p) && OnCurve(q)
    ensures IsSum(p, q, add(p, q)) && Unit(1 + Cross(p, q)) && Unit(1 - Cross(p, q))
    ensures OnCurve(add(p, q)) && OnCurve(Neg(p)) && OnCurve(Pt(0, 1))
  {
    hide OnCurve, IsSum, Unit, Cross, IsGroup;
    assert CompleteAt(add, p, q);
    Laws(Curve(add), p, q, p);
  }

  // ---- units ----

  lemma UnitMul(x: int, y: int)
    requires Unit(x) && Unit(y)
    ensures Unit(x * y)
  {
    var i :| Mod(x * i) == 1;
    var j :| Mod(y * j) == 1;
    ModIs(1);
    hide Mod;
    ModMul(x * i, 1, y * j, 1);
    assert x * y * (i * j) == x * i * (y * j) by { Words.MulInterchange(x, y, i, j); }
  }

  lemma UnitMod(x: int, y: int)
    requires Unit(x) && Mod(x) == Mod(y)
    ensures Unit(y)
  {
    hide Mod;
    var i :| Mod(x * i) == 1;
    ModMul(x, y, i, i);
  }

  lemma UnitTwo()
    ensures Unit(2) && Unit(1)
  {
    ModIs(2 * ((P + 1) / 2));
    ModIs(1 * 1);
  }

  // ---- the addition formulas ----

  /** The four integer identities behind the unified addition: with w = Z1 Z2. */
  lemma CrossIdentity(x1: int, y1: int, x2: int, y2: int, w: int)
    ensures (y1 + x1) * (y2 + x2) * w - (y1 - x1) * (y2 - x2) * w == 2 * w * (x1 * y2 + x2 * y1)
    ensures (y1 + x1) * (y2 + x2) * w + (y1 - x1) * (y2 - x2) * w == 2 * w * (y1 * y2 + x1 * x2)
  {
    var a, b, c, e := y1 * y2, y1 * x2, x1 * y2, x1 * x2;
    assert (y1 + x1) * (y2 + x2) == a + b + c + e;
    assert (y1 - x1) * (y2 - x2) == a - b - c + e;
  }

  lemma CrossSums(x1: int, y1: int, x2: int, y2: int, w: int, c: int, e: int)
    requires Mod(c) == Mod((y1 + x1) * (y2 + x2) * w) && Mod(e) == Mod((y1 - x1) * (y2 - x2) * w)
    ensures Mod(c - e) == Mod(2 * w * (x1 * y2 + x2 * y1)) && Mod(c + e) == Mod(2 * w * (y1 * y2 + x1 * x2))
  {
    hide Mod;
    ModAdd(c, (y1 + x1) * (y2 + x2) * w, e, (y1 - x1) * (y2 - x2) * w);
    CrossIdentity(x1, y1, x2, y2, w);
  }

  lemma SumAndDifference(s: int, k: int, t0: int, t: int, Z: int, T: int)
    requires Mod(t) == Mod(s * k) && Mod(t0) == Mod(s) && Mod(Z) == Mod(t0 + t) && Mod(T) == Mod(t0 - t)
    ensures Mod(Z) == Mod(s * (1 + k)) && Mod(T) == Mod(s * (1 - k))
  {
    hide Mod;
    ModAdd(t0, s, t, s * k);
    BothSigns(s, k);
  }

  lemma BothSigns(s: int, k: int)
    ensures s + s * k == s * (1 + k) && s - s * k == s * (1 - k)
  {
  }

  /** From the products c, e, t, t0 of an addition to the point the result represents. */
  lemma AddCore(p: Pt, q: Pt, r: Pt, w: int, c: int, e: int, t: int, t0: int, X: int, Y: int, Z: int, T: int)
    requires IsSum(p, q, r) && Unit(w) && Unit(1 + Cross(p, q)) && Unit(1 - Cross(p, q))
    requires Mod(c) == Mod((p.y + p.x) * (q.y + q.x) * w) && Mod(e) == Mod((p.y - p.x) * (q.y - q.x) * w)
    requires Mod(t) == Mod(2 * w * Cross(p, q)) && Mod(t0) == Mod(2 * w)
    requires Mod(X) == Mod(c - e) && Mod(Y) == Mod(c + e) && Mod(Z) == Mod(t0 + t) && Mod(T) == Mod(t0 - t)
    ensures Mod(X) == Mod(r.x * Z) && Mod(Y) == Mod(r.y * T) && Unit(Z) && Unit(T)
  {
    hide Mod, Unit, Cross;
    var k := Cross(p, q);
    CrossSums(p.x, p.y, q.x, q.y, w, c, e);
    SumAndDifference(2 * w, k, t0, t, Z, T);
    ScaleSum(2 * w, r.x, 1 + k, p.x * q.y + q.x * p.y, X, Z);
    ScaleSum(2 * w, r.y, 1 - k, p.y * q.y + p.x * q.x, Y, T);
    UnitTwo();
    UnitMul(2, w);
  }

  /** If v m = n then a coordinate 2w n over a denominator 2w m is v. */
  lemma ScaleSum(s: int, v: int, m: int, n: int, X: int, Z: int)
    requires Mod(v * m) == Mod(n) && Mod(X) == Mod(s * n) && Mod(Z) == Mod(s * m)
    ensures Mod(X) == Mod(v * Z)
    ensures Unit(s) && Unit(m) ==> Unit(Z)
  {
    hide Mod, Unit;
    ModMul(s, s, v * m, n);
    ModMul(v, v, Z, s * m);
    assert s * (v * m) == v * (s * m) by { Words.MulAssoc(s, v, m); Words.MulAssoc(v, s, m); }
    if Unit(s) && Unit(m) {
      UnitMul(s, m);
      UnitMod(s * m, Z);
    }
  }

  /** x^2, y^2 and xy of a projective point, cleared of the denominator. */
  lemma Squares(p: Pt, X: int, Y: int, Z: int)
    requires Mod(X) == Mod(p.x * Z) && Mod(Y) == Mod(p.y * Z)
    ensures Mod(X * X) == Mod(Z * Z * (p.x * p.x)) && Mod(Y * Y) == Mod(Z * Z * (p.y * p.y))
    ensures Mod((X + Y) * (X + Y)) == Mod(Z * Z * (p.x * p.x + 2 * (p.x * p.y) + p.y * p.y))
  {
    hide Mod;
    var x, y := p.x, p.y;
    ModMul(X, x * Z, X, x * Z);
    ModMul(Y, y * Z, Y, y * Z);
    ModAdd(X, x * Z, Y, y * Z);
    ModMul(X + Y, x * Z + y * Z, X + Y, x * Z + y * Z);
    SquareIdentity(x, y, Z);
  }

  lemma SquareIdentity(x: int, y: int, Z: int)
    ensures x * Z * (x * Z) == Z * Z * (x * x) && y * Z * (y * Z) == Z * Z * (y * y)
    ensures (x * Z + y * Z) * (x * Z + y * Z) == Z * Z * (x * x + 2 * (x * y) + y * y)
  {
    var s := x + y;
    assert x * Z + y * Z == s * Z;
    ProductSquare(x, Z);
    ProductSquare(y, Z);
    ProductSquare(s, Z);
    assert s * s == x * x + 2 * (x * y) + y * y;
  }

  lemma ProductSquare(x: int, Z: int)
    ensures x * Z * (x * Z) == Z * Z * (x * x)
  {
    Words.MulInterchange(x, Z, x, Z);
  }

  lemma CurveEquation(p: Pt)
    requires OnCurve(p)
    ensures Mod(p.y * p.y - p.x * p.x) == Mod(1 + Cross(p, p))
  {
    hide Mod;
  }

  /** From the squares of a doubling to the point the result represents. */
  lemma DblCore(p: Pt, r: Pt, Z1: int, xx: int, yy: int, aa: int, zz2: int, X: int, Y: int, Z: int, T: int)
    requires OnCurve(p) && IsSum(p, p, r) && Unit(Z1) && Unit(1 + Cross(p, p)) && Unit(1 - Cross(p, p))
    requires Mod(xx) == Mod(Z1 * Z1 * (p.x * p.x)) && Mod(yy) == Mod(Z1 * Z1 * (p.y * p.y))
    requires Mod(aa) == Mod(Z1 * Z1 * (p.x * p.x + 2 * (p.x * p.y) + p.y * p.y)) && Mod(zz2) == Mod(2 * (Z1 * Z1))
    requires Mod(Y) == Mod(yy + xx) && Mod(Z) == Mod(yy - xx) && Mod(X) == Mod(aa - Y) && Mod(T) == Mod(zz2 - Z)
    ensures Mod(X) == Mod(r.x * Z) && Mod(Y) == Mod(r.y * T) && Unit(Z) && Unit(T)
  {
    hide Mod, Unit, Cross, OnCurve;
    CurveEquation(p);
    var w, k, x, y := Z1 * Z1, Cross(p, p), p.x, p.y;
    var u, v, m := x * x, y * y, x * y;
    ModAdd(yy, w * v, xx, w * u);
    assert w * v + w * u == w * (v + u) && w * v - w * u == w * (v - u);
    ModMul(w, w, v - u, 1 + k);
    ModAdd(aa, w * (u + 2 * m + v), Y, w * (v + u));
    assert w * (u + 2 * m + v) - w * (v + u) == w * (m + m);
    ModAdd(zz2, 2 * w, Z, w * (1 + k));
    assert 2 * w - w * (1 + k) == w * (1 - k);
    ScaleSum(w, r.x, 1 + k, x * y + x * y, X, Z);
    ScaleSum(w, r.y, 1 - k, y * y + x * x, Y, T);
    UnitMul(Z1, Z1);
  }

  lemma PairProduct(u: int, Z1: int, v: int, Z2: int, a: int, b: int)
    requires Mod(a) == Mod(u * Z1) && Mod(b) == Mod(v * Z2)
    ensures Mod(a * b) == Mod(u * v * (Z1 * Z2))
  {
    hide Mod;
    ModMul(a, u * Z1, b, v * Z2);
    Words.MulInterchange(u, Z1, v, Z2);
  }

  lemma CrossProduct(p: Pt, q: Pt, w: int)
    ensures 2 * D * (q.x * q.y) * (p.x * p.y) * w == 2 * w * Cross(p, q)
  {
    Words.MulInterchange(q.x, q.y, p.x, p.y);
    Words.MulInterchange(p.x, q.x, p.y, q.y);
    var k := p.x * q.x * (p.y * q.y);
    assert q.x * q.y * (p.x * p.y) == k by {
      Words.MulInterchange(p.x, p.y, q.x, q.y);
    }
    assert 2 * D * (q.x * q.y) * (p.x * p.y) == 2 * D * k by { Words.MulAssoc(2 * D, q.x * q.y, p.x * p.y); }
    assert 2 * D * k * w == 2 * w * (D * k);
  }

  /** The unified addition: projective p plus q given by A = (y+x)Z2, B = (y-x)Z2 and C = 2dxyZ2. */
  lemma UnifiedAdd(p: Pt, q: Pt, r: Pt, X1: int, Y1: int, Z1: int, T1: int, A: int, B: int, Z2: int, C: int,
                   b: int, c: int, e: int, t: int, t0: int, X: int, Y: int, Z: int, T: int)
    requires IsSum(p, q, r) && Unit(Z1) && Unit(Z2) && Unit(1 + Cross(p, q)) && Unit(1 - Cross(p, q))
    requires Mod(X1) == Mod(p.x * Z1) && Mod(Y1) == Mod(p.y * Z1) && Mod(T1) == Mod(p.x * p.y * Z1)
    requires Mod(A) == Mod((q.y + q.x) * Z2) && Mod(B) == Mod((q.y - q.x) * Z2)
    requires Mod(C) == Mod(2 * D * (q.x * q.y) * Z2)
    requires Mod(b) == Mod(Y1 - X1) && Mod(c) == Mod((Y1 + X1) * A) && Mod(e) == Mod(b * B)
    requires Mod(t) == Mod(C * T1) && Mod(t0) == Mod(2 * (Z1 * Z2))
    requires Mod(X) == Mod(c - e) && Mod(Y) == Mod(c + e) && Mod(Z) == Mod(t0 + t) && Mod(T) == Mod(t0 - t)
    ensures Mod(X) == Mod(r.x * Z) && Mod(Y) == Mod(r.y * T) && Unit(Z) && Unit(T)
  {
    hide Mod, Unit, Cross, IsSum;
    ModAdd(Y1, p.y * Z1, X1, p.x * Z1);
    assert p.y * Z1 + p.x * Z1 == (p.y + p.x) * Z1 && p.y * Z1 - p.x * Z1 == (p.y - p.x) * Z1;
    PairProduct(p.y + p.x, Z1, q.y + q.x, Z2, Y1 + X1, A);
    PairProduct(p.y - p.x, Z1, q.y - q.x, Z2, b, B);
    PairProduct(2 * D * (q.x * q.y), Z2, p.x * p.y, Z1, C, T1);
    CrossProduct(p, q, Z1 * Z2);
    UnitMul(Z1, Z2);
    AddCore(p, q, r, Z1 * Z2, c, e, t, t0, X, Y, Z, T);
  }
}
