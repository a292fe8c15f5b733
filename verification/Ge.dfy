/** Group elements: the coordinate systems of section 5 of cookbook_ed25519.c and the formulas between them. */
module Ge {
  import opened Words
  import opened Field
  import opened Groups
  import opened Edwards

  datatype GeP2 = GeP2(X: Fe, Y: Fe, Z: Fe)
  datatype GeP3 = GeP3(X: Fe, Y: Fe, Z: Fe, T: Fe)
  datatype GeP1P1 = GeP1P1(X: Fe, Y: Fe, Z: Fe, T: Fe)
  datatype GePrecomp = GePrecomp(yplusx: Fe, yminusx: Fe, xy2d: Fe)
  datatype GeCached = GeCached(YplusX: Fe, YminusX: Fe, Z: Fe, T2d: Fe)

  const FE_0: Fe := Fe(0, 0, 0, 0, 0)
  const FE_1: Fe := Fe(1, 0, 0, 0, 0)

  /** g represents p projectively, x = X/Z and y = Y/Z, with limbs the multipliers accept. */
  ghost predicate IsP2(g: GeP2, p: Pt) {
    && Below(g.X, TIGHT) && Below(g.Y, TIGHT) && Below(g.Z, TIGHT)
    && Unit(Val(g.Z)) && Mod(Val(g.X)) == Mod(p.x * Val(g.Z)) && Mod(Val(g.Y)) == Mod(p.y * Val(g.Z))
  }

  /** As IsP2, with T = XY/Z. */
  ghost predicate IsP3(g: GeP3, p: Pt) {
    && IsP2(GeP2(g.X, g.Y, g.Z), p)
    && Below(g.T, TIGHT) && Mod(Val(g.T)) == Mod(p.x * p.y * Val(g.Z))
  }

  /** Completed coordinates, x = X/Z and y = Y/T. */
  ghost predicate IsP1P1(g: GeP1P1, p: Pt) {
    && Below(g.X, LOOSE) && Below(g.Y, LOOSE) && Below(g.Z, LOOSE) && Below(g.T, LOOSE)
    && Unit(Val(g.Z)) && Unit(Val(g.T))
    && Mod(Val(g.X)) == Mod(p.x * Val(g.Z)) && Mod(Val(g.Y)) == Mod(p.y * Val(g.T))
  }

  ghost predicate IsPrecomp(g: GePrecomp, p: Pt) {
    && Below(g.yplusx, TIGHT) && Below(g.yminusx, TIGHT) && Below(g.xy2d, TIGHT)
    && Mod(Val(g.yplusx)) == Mod(p.y + p.x) && Mod(Val(g.yminusx)) == Mod(p.y - p.x)
    && Mod(Val(g.xy2d)) == Mod(2 * D * (p.x * p.y))
  }

  ghost predicate IsCached(g: GeCached, p: Pt) {
    && Below(g.YplusX, MEDIUM) && Below(g.YminusX, MEDIUM) && Below(g.Z, TIGHT) && Below(g.T2d, TIGHT)
    && Unit(Val(g.Z))
    && Mod(Val(g.YplusX)) == Mod((p.y + p.x) * Val(g.Z)) && Mod(Val(g.YminusX)) == Mod((p.y - p.x) * Val(g.Z))
    && Mod(Val(g.T2d)) == Mod(2 * D * (p.x * p.y) * Val(g.Z))
  }

  // ---- conversions ----

  lemma ConvertAlgebra(x: int, y: int, X: int, Y: int, Z: int, T: int)
    requires Mod(X) == Mod(x * Z) && Mod(Y) == Mod(y * T)
    ensures Mod(X * T) == Mod(x * (Z * T)) && Mod(Y * Z) == Mod(y * (Z * T)) && Mod(X * Y) == Mod(x * y * (Z * T))
  {
    hide Mod;
    ModMul(X, x * Z, T, T);
    ModMul(Y, y * T, Z, Z);
    ModMul(X, x * Z, Y, y * T);
    MulAssoc(x, Z, T);
    MulAssoc(y, T, Z);
    MulInterchange(x, Z, y, T);
  }

  lemma Rescale(x: int, A: int, B: int, C: int, C': int)
    requires Mod(A) == Mod(B) && Mod(B) == Mod(x * C) && Mod(C') == Mod(C)
    ensures Mod(A) == Mod(x * C')
  {
    hide Mod;
    ModMul(x, x, C', C);
  }

  method P1P1ToP2(p: GeP1P1, ghost q: Pt) returns (r: GeP2)
    requires IsP1P1(p, q)
    ensures IsP2(r, q) && Mod(Val(r.Z)) == Mod(Val(p.Z) * Val(p.T))
  {
    hide Mod, Val, Unit, Below;
    var X := FeMul(p.X, p.T);
    var Y := FeMul(p.Y, p.Z);
    var Z := FeMul(p.Z, p.T);
    r := GeP2(X, Y, Z);
    ghost var z := Val(p.Z) * Val(p.T);
    ConvertAlgebra(q.x, q.y, Val(p.X), Val(p.Y), Val(p.Z), Val(p.T));
    Rescale(q.x, Val(X), Val(p.X) * Val(p.T), z, Val(Z));
    Rescale(q.y, Val(Y), Val(p.Y) * Val(p.Z), z, Val(Z));
    UnitMul(Val(p.Z), Val(p.T));
    UnitMod(z, Val(Z));
  }

  method P1P1ToP3(p: GeP1P1, ghost q: Pt) returns (r: GeP3)
    requires IsP1P1(p, q)
    ensures IsP3(r, q)
  {
    hide Mod, Val, Unit, Below;
    var s := P1P1ToP2(p, q);
    var T := FeMul(p.X, p.Y);
    r := GeP3(s.X, s.Y, s.Z, T);
    ConvertAlgebra(q.x, q.y, Val(p.X), Val(p.Y), Val(p.Z), Val(p.T));
    Rescale(q.x * q.y, Val(T), Val(p.X) * Val(p.Y), Val(p.Z) * Val(p.T), Val(s.Z));
  }

  lemma Widen(f: Fe, a: int, b: int)
    requires Below(f, a) && a <= b
    ensures Below(f, b)
  {
  }

  /** Sums and differences of two multiplier results. */
  method AddTight(f: Fe, g: Fe) returns (h: Fe)
    requires Below(f, TIGHT) && Below(g, TIGHT)
    ensures Val(h) == Val(f) + Val(g) && Below(h, MEDIUM) && Below(h, LOOSE)
  {
    h := FeAdd(f, g);
    Widen(h, MEDIUM, LOOSE);
  }

  method SubTight(f: Fe, g: Fe) returns (h: Fe)
    requires Below(f, TIGHT) && Below(g, TIGHT)
    ensures Mod(Val(h)) == Mod(Val(f) - Val(g)) && Below(h, MEDIUM) && Below(h, LOOSE)
  {
    hide Mod, Val, Carryable;
    Carries(g);
    h := FeSub(f, g);
  }

  lemma CacheAlgebra(p: Pt, X: int, Y: int, Z: int, T: int, d2: int)
    requires Mod(X) == Mod(p.x * Z) && Mod(Y) == Mod(p.y * Z) && Mod(T) == Mod(p.x * p.y * Z)
    requires Mod(d2) == Mod(2 * D)
    ensures Mod(Y + X) == Mod((p.y + p.x) * Z) && Mod(Y - X) == Mod((p.y - p.x) * Z)
    ensures Mod(T * d2) == Mod(2 * D * (p.x * p.y) * Z)
  {
    hide Mod;
    ModAdd(Y, p.y * Z, X, p.x * Z);
    assert p.y * Z + p.x * Z == (p.y + p.x) * Z && p.y * Z - p.x * Z == (p.y - p.x) * Z;
    ModMul(T, p.x * p.y * Z, d2, 2 * D);
    MulAssoc(2 * D, p.x * p.y, Z);
  }

  method P3ToCached(p: GeP3, ghost q: Pt) returns (r: GeCached)
    requires IsP3(p, q)
    ensures IsCached(r, q)
  {
    Constants();
    hide Mod, Val, Unit, Below;
    CacheAlgebra(q, Val(p.X), Val(p.Y), Val(p.Z), Val(p.T), Val(ED_D2));
    var plus := AddTight(p.Y, p.X);
    var minus := SubTight(p.Y, p.X);
    Widen(p.T, TIGHT, LOOSE);
    Widen(ED_D2, TIGHT, LOOSE);
    var T2d := FeMul(p.T, ED_D2);
    r := GeCached(plus, minus, p.Z, T2d);
  }

  // ---- doubling ----

  method P2Dbl(p: GeP2, ghost q: Pt, ghost add: (Pt, Pt) -> Pt) returns (r: GeP1P1)
    requires IsEdwards(add) && OnCurve(q) && IsP2(p, q)
    ensures IsP1P1(r, add(q, q))
  {
    hide Mod, Val, Unit, Below, IsEdwards, OnCurve, IsSum;
    Widen(p.X, TIGHT, LOOSE);
    Widen(p.Y, TIGHT, LOOSE);
    Widen(p.Z, TIGHT, MEDIUM);
    var xx := FeSq(p.X);
    var yy := FeSq(p.Y);
    var zz2 := FeSq2(p.Z);
    var a := AddTight(p.X, p.Y);
    var aa := FeSq(a);
    var Y := AddTight(yy, xx);
    var Z := SubTight(yy, xx);
    var X := SubLoose(aa, Y);
    var T := SubLoose(zz2, Z);
    r := GeP1P1(X, Y, Z, T);
    Complete(add, q, q);
    Squares(q, Val(p.X), Val(p.Y), Val(p.Z));
    DblCore(q, add(q, q), Val(p.Z), Val(xx), Val(yy), Val(aa), Val(zz2), Val(X), Val(Y), Val(Z), Val(T));
  }

  method SubLoose(f: Fe, g: Fe) returns (h: Fe)
    requires Below(f, TIGHT) && Below(g, MEDIUM)
    ensures Mod(Val(h)) == Mod(Val(f) - Val(g)) && Below(h, LOOSE)
  {
    hide Mod, Val, Carryable;
    Carries(g);
    h := FeSub(f, g);
  }

  method P3Dbl(p: GeP3, ghost q: Pt, ghost add: (Pt, Pt) -> Pt) returns (r: GeP1P1)
    requires IsEdwards(add) && OnCurve(q) && IsP3(p, q)
    ensures IsP1P1(r, add(q, q))
  {
    hide IsP2, IsP1P1, IsEdwards, OnCurve;
    r := P2Dbl(GeP2(p.X, p.Y, p.Z), q, add);
  }

  // ---- addition ----

  method AddMedium(f: Fe, g: Fe) returns (h: Fe)
    requires Below(f, MEDIUM) && Below(g, TIGHT)
    ensures Val(h) == Val(f) + Val(g) && Below(h, LOOSE)
  {
    h := FeAdd(f, g);
    Widen(h, MEDIUM + TIGHT, LOOSE);
  }

  method SubMedium(f: Fe, g: Fe) returns (h: Fe)
    requires Below(f, MEDIUM) && Below(g, TIGHT)
    ensures Mod(Val(h)) == Mod(Val(f) - Val(g)) && Below(h, LOOSE)
  {
    hide Mod, Val, Carryable;
    Carries(g);
    h := FeSub(f, g);
  }

  method AddCached(p: GeP3, q: GeCached, ghost u: Pt, ghost v: Pt, ghost add: (Pt, Pt) -> Pt) returns (r: GeP1P1)
    requires IsEdwards(add) && OnCurve(u) && OnCurve(v) && IsP3(p, u) && IsCached(q, v)
    ensures IsP1P1(r, add(u, v))
  {
    hide Mod, Val, Unit, Below, IsEdwards, OnCurve, IsSum;
    Widen(q.YplusX, MEDIUM, LOOSE);
    Widen(q.YminusX, MEDIUM, LOOSE);
    Widen(q.T2d, TIGHT, LOOSE);
    Widen(q.Z, TIGHT, LOOSE);
    Widen(p.T, TIGHT, LOOSE);
    Widen(p.Z, TIGHT, LOOSE);
    var a := AddTight(p.Y, p.X);
    var b := SubTight(p.Y, p.X);
    var c := FeMul(a, q.YplusX);
    var e := FeMul(b, q.YminusX);
    var t := FeMul(q.T2d, p.T);
    var z := FeMul(p.Z, q.Z);
    var t0 := AddTight(z, z);
    var X := SubTight(c, e);
    var Y := AddTight(c, e);
    var Z := AddMedium(t0, t);
    var T := SubMedium(t0, t);
    r := GeP1P1(X, Y, Z, T);
    Complete(add, u, v);
    ModAdd(Val(z), Val(p.Z) * Val(q.Z), Val(z), Val(p.Z) * Val(q.Z));
    UnifiedAdd(u, v, add(u, v), Val(p.X), Val(p.Y), Val(p.Z), Val(p.T), Val(q.YplusX), Val(q.YminusX), Val(q.Z),
               Val(q.T2d), Val(b), Val(c), Val(e), Val(t), Val(t0), Val(X), Val(Y), Val(Z), Val(T));
  }

  lemma NegatedX(v: Pt)
    ensures Mod(Neg(v).x) == Mod(0 - v.x) && Neg(v).y == v.y
  {
    ModIs(Mod(0 - v.x));
  }

  /** Swapping y+x with y-x turns a table entry for v into one for -v. */
  lemma NegatedSums(v: Pt, Z: int, plus: int, minus: int)
    requires Mod(plus) == Mod((v.y + v.x) * Z) && Mod(minus) == Mod((v.y - v.x) * Z)
    ensures var n := Neg(v); Mod(minus) == Mod((n.y + n.x) * Z) && Mod(plus) == Mod((n.y - n.x) * Z)
  {
    hide Mod, Neg;
    var n := Neg(v);
    NegatedX(v);
    ModAdd(v.y, v.y, n.x, 0 - v.x);
    ModMul(n.y + n.x, v.y - v.x, Z, Z);
    ModMul(n.y - n.x, v.y + v.x, Z, Z);
  }

  /** So does negating 2dxy. */
  lemma NegatedMultiple(v: Pt, Z: int, c: int)
    requires Mod(c) == Mod(2 * D * (v.x * v.y) * Z)
    ensures var n := Neg(v); Mod(0 - c) == Mod(2 * D * (n.x * n.y) * Z)
  {
    hide Mod, Neg;
    NegatedX(v);
    ModAdd(0, 0, c, 2 * D * (v.x * v.y) * Z);
    NegatedProduct(Neg(v).x, v.x, v.y, Z);
  }

  lemma NegatedProduct(n: int, x: int, y: int, Z: int)
    requires Mod(n) == Mod(0 - x)
    ensures Mod(2 * D * (n * y) * Z) == Mod(0 - 2 * D * (x * y) * Z)
  {
    hide Mod;
    ModMul(n, 0 - x, y, y);
    ModMul(2 * D, 2 * D, n * y, (0 - x) * y);
    ModMul(2 * D * (n * y), 2 * D * ((0 - x) * y), Z, Z);
    NegatedIdentity(x * y, Z);
    assert (0 - x) * y == 0 - x * y;
  }

  lemma NegatedIdentity(m: int, Z: int)
    ensures 2 * D * (0 - m) * Z == 0 - 2 * D * m * Z
  {
  }

  method SubCached(p: GeP3, q: GeCached, ghost u: Pt, ghost v: Pt, ghost add: (Pt, Pt) -> Pt) returns (r: GeP1P1)
    requires IsEdwards(add) && OnCurve(u) && OnCurve(v) && IsP3(p, u) && IsCached(q, v)
    ensures IsP1P1(r, add(u, Neg(v)))
  {
    hide Mod, Val, Unit, Below, IsEdwards, OnCurve, IsSum, Neg;
    Widen(q.YplusX, MEDIUM, LOOSE);
    Widen(q.YminusX, MEDIUM, LOOSE);
    Widen(q.T2d, TIGHT, LOOSE);
    Widen(q.Z, TIGHT, LOOSE);
    Widen(p.T, TIGHT, LOOSE);
    Widen(p.Z, TIGHT, LOOSE);
    var a := AddTight(p.Y, p.X);
    var b := SubTight(p.Y, p.X);
    var c := FeMul(a, q.YminusX);
    var e := FeMul(b, q.YplusX);
    var t := FeMul(q.T2d, p.T);
    var z := FeMul(p.Z, q.Z);
    var t0 := AddTight(z, z);
    var X := SubTight(c, e);
    var Y := AddTight(c, e);
    var Z := SubMedium(t0, t);
    var T := AddMedium(t0, t);
    r := GeP1P1(X, Y, Z, T);
    NegatedSums(v, Val(q.Z), Val(q.YplusX), Val(q.YminusX));
    NegatedMultiple(v, Val(q.Z), Val(q.T2d));
    NegatedProductMod(Val(t), Val(q.T2d), Val(p.T));
    Complete(add, v, v);
    Complete(add, u, Neg(v));
    ModAdd(Val(z), Val(p.Z) * Val(q.Z), Val(z), Val(p.Z) * Val(q.Z));
    UnifiedAdd(u, Neg(v), add(u, Neg(v)), Val(p.X), Val(p.Y), Val(p.Z), Val(p.T), Val(q.YminusX), Val(q.YplusX),
               Val(q.Z), 0 - Val(q.T2d), Val(b), Val(c), Val(e), 0 - Val(t), Val(t0), Val(X), Val(Y), Val(Z), Val(T));
  }

  lemma NegatedProductMod(t: int, c: int, T: int)
    requires Mod(t) == Mod(c * T)
    ensures Mod(0 - t) == Mod((0 - c) * T)
  {
    hide Mod;
    ModAdd(0, 0, t, c * T);
    assert (0 - c) * T == 0 - c * T;
  }

  lemma PrecompIsCached(q: GePrecomp, v: Pt)
    requires IsPrecomp(q, v)
    ensures Mod(Val(q.yplusx)) == Mod((v.y + v.x) * 1) && Mod(Val(q.yminusx)) == Mod((v.y - v.x) * 1)
    ensures Mod(Val(q.xy2d)) == Mod(2 * D * (v.x * v.y) * 1)
    ensures Below(q.yplusx, LOOSE) && Below(q.yminusx, LOOSE) && Below(q.xy2d, LOOSE) && Unit(1)
  {
    hide Mod, Val, Unit;
    UnitTwo();
  }

  method Madd(p: GeP3, q: GePrecomp, ghost u: Pt, ghost v: Pt, ghost add: (Pt, Pt) -> Pt) returns (r: GeP1P1)
    requires IsEdwards(add) && OnCurve(u) && OnCurve(v) && IsP3(p, u) && IsPrecomp(q, v)
    ensures IsP1P1(r, add(u, v))
  {
    hide Mod, Val, Unit, Below, IsEdwards, OnCurve, IsSum, IsPrecomp;
    PrecompIsCached(q, v);
    Widen(p.T, TIGHT, LOOSE);
    var a := AddTight(p.Y, p.X);
    var b := SubTight(p.Y, p.X);
    var c := FeMul(a, q.yplusx);
    var e := FeMul(b, q.yminusx);
    var t := FeMul(q.xy2d, p.T);
    var t0 := AddTight(p.Z, p.Z);
    var X := SubTight(c, e);
    var Y := AddTight(c, e);
    var Z := AddMedium(t0, t);
    var T := SubMedium(t0, t);
    r := GeP1P1(X, Y, Z, T);
    Complete(add, u, v);
    UnifiedAdd(u, v, add(u, v), Val(p.X), Val(p.Y), Val(p.Z), Val(p.T), Val(q.yplusx), Val(q.yminusx), 1,
               Val(q.xy2d), Val(b), Val(c), Val(e), Val(t), Val(t0), Val(X), Val(Y), Val(Z), Val(T));
  }

  method Msub(p: GeP3, q: GePrecomp, ghost u: Pt, ghost v: Pt, ghost add: (Pt, Pt) -> Pt) returns (r: GeP1P1)
    requires IsEdwards(add) && OnCurve(u) && OnCurve(v) && IsP3(p, u) && IsPrecomp(q, v)
    ensures IsP1P1(r, add(u, Neg(v)))
  {
    hide Mod, Val, Unit, Below, IsEdwards, OnCurve, IsSum, IsPrecomp, Neg;
    PrecompIsCached(q, v);
    Widen(p.T, TIGHT, LOOSE);
    var a := AddTight(p.Y, p.X);
    var b := SubTight(p.Y, p.X);
    var c := FeMul(a, q.yminusx);
    var e := FeMul(b, q.yplusx);
    var t := FeMul(q.xy2d, p.T);
    var t0 := AddTight(p.Z, p.Z);
    var X := SubTight(c, e);
    var Y := AddTight(c, e);
    var Z := SubMedium(t0, t);
    var T := AddMedium(t0, t);
    r := GeP1P1(X, Y, Z, T);
    NegatedSums(v, 1, Val(q.yplusx), Val(q.yminusx));
    NegatedMultiple(v, 1, Val(q.xy2d));
    NegatedProductMod(Val(t), Val(q.xy2d), Val(p.T));
    Complete(add, v, v);
    Complete(add, u, Neg(v));
    UnifiedAdd(u, Neg(v), add(u, Neg(v)), Val(p.X), Val(p.Y), Val(p.Z), Val(p.T), Val(q.yminusx), Val(q.yplusx), 1,
               0 - Val(q.xy2d), Val(b), Val(c), Val(e), 0 - Val(t), Val(t0), Val(X), Val(Y), Val(Z), Val(T));
  }
}
