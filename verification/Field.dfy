/** The field of 2^255 - 19 in five 51-bit limbs (section 3 of cookbook_ed25519.c). */
module Field {
  import opened Words

  /** 2^255 - 19. */
  const P: int := 0x7fffffffffffffffffffffffffffffffffffffffffffffffffffffffffffffed
  /** The limb radix 2^51. */
  const R: int := 0x8_0000_0000_0000

  type u64 = x: int | 0 <= x < 0x1_0000_0000_0000_0000
  type u128 = x: int | 0 <= x < 0x1_0000_0000_0000_0000_0000_0000_0000_0000

  datatype Fe = Fe(l0: u64, l1: u64, l2: u64, l3: u64, l4: u64)

  /** The integer the limbs denote. */
  ghost function Val(f: Fe): nat {
    f.l0 + R * (f.l1 + R * (f.l2 + R * (f.l3 + R * f.l4)))
  }

  ghost predicate Below(f: Fe, bound: int) {
    f.l0 < bound && f.l1 < bound && f.l2 < bound && f.l3 < bound && f.l4 < bound
  }

  /** Below this, every limb can absorb any carry without leaving 64 bits. */
  const CARRYABLE: int := 0xffff_ffff_ffff_0000
  /** What the multipliers accept. */
  const LOOSE: int := 0x40_0000_0000_0000
  /** What a sum or difference of two multiplier results stays under. */
  const MEDIUM: int := 0x20_0000_0000_0000
  /** What a multiplier result stays under. */
  const TIGHT: int := 0x10_0000_0000_0000

  ghost predicate Quotient(q: int, x: int) {
    q == x / P
  }

  /** r is what is left of x beside P times the quotient. */
  ghost predicate IsResidue(x: int, r: int) {
    0 <= r < P && forall q :: Quotient(q, x) ==> x == P * q + r
  }

  /** The residue class of x, named by its representative in [0, P). */
  ghost function Mod(x: int): (r: nat)
    ensures r < P
  {
    assert IsResidue(x, x % P);
    var r: nat :| IsResidue(x, r);
    r
  }

  lemma ModIs(x: int)
    ensures Mod(x) == x % P
  {
    assert Quotient(x / P, x);
  }

  lemma ModShift(x: int, k: int)
    ensures Mod(x + P * k) == Mod(x)
  {
    ModIs(x + P * k);
    ModIs(x);
  }

  lemma ModDiff(x: int, y: int) returns (k: int)
    requires Mod(x) == Mod(y)
    ensures x == y + P * k
  {
    ModIs(x);
    ModIs(y);
    k := x / P - y / P;
  }

  lemma ModAdd(x: int, x': int, y: int, y': int)
    requires Mod(x) == Mod(x') && Mod(y) == Mod(y')
    ensures Mod(x + y) == Mod(x' + y') && Mod(x - y) == Mod(x' - y')
  {
    var j := ModDiff(x, x');
    var k := ModDiff(y, y');
    ModShift(x' + y', j + k);
    ModShift(x' - y', j - k);
  }

  lemma ModMul(x: int, x': int, y: int, y': int)
    requires Mod(x) == Mod(x') && Mod(y) == Mod(y')
    ensures Mod(x * y) == Mod(x' * y')
  {
    hide Mod;
    var j := ModDiff(x, x');
    var k := ModDiff(y, y');
    assert x * y == x' * y' + P * (j * y' + k * x' + P * (j * k)) by {
      assert (x' + P * j) * (y' + P * k) == x' * y' + P * (j * y') + P * (k * x') + P * P * (j * k);
    }
    ModShift(x' * y', j * y' + k * x' + P * (j * k));
  }

  // ---- addition and subtraction ----

  method FeAdd(f: Fe, g: Fe) returns (h: Fe)
    requires f.l0 + g.l0 < 0x1_0000_0000_0000_0000 && f.l1 + g.l1 < 0x1_0000_0000_0000_0000
    requires f.l2 + g.l2 < 0x1_0000_0000_0000_0000 && f.l3 + g.l3 < 0x1_0000_0000_0000_0000
    requires f.l4 + g.l4 < 0x1_0000_0000_0000_0000
    ensures Val(h) == Val(f) + Val(g)
    ensures forall a, b :: Below(f, a) && Below(g, b) ==> Below(h, a + b)
  {
    h := Fe(f.l0 + g.l0, f.l1 + g.l1, f.l2 + g.l2, f.l3 + g.l3, f.l4 + g.l4);
  }

  /** No addition of a carry into the next limb leaves 64 bits. */
  ghost predicate Carryable(g: Fe) {
    var t1 := g.l1 as int + g.l0 / R;
    var t2 := g.l2 as int + t1 / R;
    var t3 := g.l3 as int + t2 / R;
    var t4 := g.l4 as int + t3 / R;
    && t1 < 0x1_0000_0000_0000_0000 && t2 < 0x1_0000_0000_0000_0000
    && t3 < 0x1_0000_0000_0000_0000 && t4 < 0x1_0000_0000_0000_0000
  }

  lemma Carries(g: Fe)
    requires Below(g, CARRYABLE)
    ensures Carryable(g)
  {
  }

  /** Carries ripple from the bottom limb to the top; c is what leaves the top. */
  method Ripple(g: Fe) returns (h: Fe, c: u64)
    requires Carryable(g)
    ensures Below(h, R) && c < 0x2000
    ensures Val(h) + (P + 19) * c == Val(g)
  {
    var g0: u64, g1: u64, g2: u64, g3: u64, g4: u64 := g.l0, g.l1, g.l2, g.l3, g.l4;
    g1 := g1 + g0 / R;
    g0 := g0 % R;
    g2 := g2 + g1 / R;
    g1 := g1 % R;
    g3 := g3 + g2 / R;
    g2 := g2 % R;
    g4 := g4 + g3 / R;
    g3 := g3 % R;
    c := g4 / R;
    h := Fe(g0, g1, g2, g3, g4 % R);
  }

  /** One wrapping pass: what leaves the top, worth 2^255, re-enters at the bottom times 19. */
  method CarryPass(g: Fe) returns (h: Fe, ghost c: nat)
    requires Carryable(g)
    ensures Val(h) == Val(g) - P * c
    ensures h.l0 < R + 19 * 0x2000 && h.l1 < R && h.l2 < R && h.l3 < R && h.l4 < R
    ensures Val(h) < P + 19 + 19 * 0x2000
    ensures (P + 19) * c <= Val(g) < (P + 19) * (c + 1)
  {
    var t, top := Ripple(g);
    h := Fe(t.l0 + 19 * top, t.l1, t.l2, t.l3, t.l4);
    c := top;
  }

  /** Subtraction: the subtrahend is carried first, then 2P is added limb by limb so nothing goes below zero. */
  method FeSub(f: Fe, g: Fe) returns (h: Fe)
    requires Below(f, 0xfff0_0000_0000_0000) && Carryable(g)
    ensures Mod(Val(h)) == Mod(Val(f) - Val(g))
    ensures forall a :: Below(f, a) ==> Below(h, a + TIGHT - 1)
  {
    hide Mod, Carryable;
    var s, c := CarryPass(g);
    h := Fe(f.l0 + 0xfffffffffffda - s.l0, f.l1 + 0xffffffffffffe - s.l1, f.l2 + 0xffffffffffffe - s.l2,
            f.l3 + 0xffffffffffffe - s.l3, f.l4 + 0xffffffffffffe - s.l4);
    assert Val(h) == Val(f) + 2 * P - Val(s);
    ModShift(Val(f) - Val(g), 2 + c);
  }

  method FeNeg(f: Fe) returns (h: Fe)
    requires Carryable(f)
    ensures Mod(Val(h)) == Mod(0 - Val(f))
    ensures Below(h, TIGHT)
  {
    h := FeSub(Fe(0, 0, 0, 0, 0), f);
    assert Below(Fe(0, 0, 0, 0, 0), 1);
  }

  // ---- multiplication ----

  const COLUMN: int := 0x1_0000_0000_0000_0000_0000_0000_0000_000

  /** Sum of the five column sums of a product. */
  ghost function Columns(t0: int, t1: int, t2: int, t3: int, t4: int): int {
    t0 + R * (t1 + R * (t2 + R * (t3 + R * t4)))
  }

  /** The carries of the columns ripple to the top; what leaves the top fits 64 bits. */
  method RippleColumns(a0: u128, a1: u128, a2: u128, a3: u128, a4: u128) returns (r: Fe, top: u64)
    requires a0 < COLUMN && a1 < COLUMN && a2 < COLUMN && a3 < COLUMN && a4 < R * 960_000_000_000_000_000
    ensures Below(r, R) && top < 960_000_000_010_000_000
    ensures Val(r) + (P + 19) * top == Columns(a0, a1, a2, a3, a4)
  {
    var t1: u128 := a1 + a0 / R;
    var t2: u128 := a2 + t1 / R;
    var t3: u128 := a3 + t2 / R;
    var t4: u128 := a4 + t3 / R;
    top := t4 / R;
    r := Fe(a0 % R, t1 % R, t2 % R, t3 % R, t4 % R);
    RippledValue(a0 / R, t1 / R, t2 / R, t3 / R, top, a0 % R, t1 % R, t2 % R, t3 % R, t4 % R);
  }

  /** Digits and carries of the chain, put back together. */
  lemma RippledValue(q0: int, q1: int, q2: int, q3: int, q4: int, r0: int, r1: int, r2: int, r3: int, r4: int)
    ensures Columns(r0, r1, r2, r3, r4) + (P + 19) * q4
      == Columns(R * q0 + r0, R * q1 + r1 - q0, R * q2 + r2 - q1, R * q3 + r3 - q2, R * q4 + r4 - q3)
  {
  }

  /** The carry chain that ends fe_mul, fe_sq and fe_sq2. */
  method CarryColumns(a0: u128, a1: u128, a2: u128, a3: u128, a4: u128) returns (h: Fe)
    requires a0 < COLUMN && a1 < COLUMN && a2 < COLUMN && a3 < COLUMN && a4 < R * 960_000_000_000_000_000
    ensures Mod(Val(h)) == Mod(Columns(a0, a1, a2, a3, a4))
    ensures Below(h, TIGHT)
  {
    hide Mod;
    var r, top := RippleColumns(a0, a1, a2, a3, a4);
    var h0: u64 := r.l0 + top * 19;
    h := Fe(h0 % R, r.l1 + h0 / R, r.l2, r.l3, r.l4);
    assert Val(h) + P * top == Val(r) + (P + 19) * top;
    ModShift(Val(h), top);
  }

  /** The five partial products of f with one limb y. */
  datatype Row = Row(c0: int, c1: int, c2: int, c3: int, c4: int)

  function Times(f: Fe, y: int): Row {
    Row(f.l0 * y, f.l1 * y, f.l2 * y, f.l3 * y, f.l4 * y)
  }

  ghost predicate RowWithin(r: Row, b: int) {
    && 0 <= r.c0 <= b && 0 <= r.c1 <= b && 0 <= r.c2 <= b && 0 <= r.c3 <= b && 0 <= r.c4 <= b
  }

  ghost function RowVal(r: Row): int {
    Columns(r.c0, r.c1, r.c2, r.c3, r.c4)
  }

  lemma Scale(f: Fe, x: int)
    ensures Val(f) * x == RowVal(Times(f, x))
  {
  }

  lemma MulBound(x: int, y: int, a: int, b: int)
    requires 0 <= x <= a && 0 <= y <= b
    ensures 0 <= x * y <= a * b
  {
  }

  lemma TimesBound(f: Fe, y: int, a: int, b: int)
    requires Below(f, a) && 0 <= y < b
    ensures RowWithin(Times(f, y), a * b)
  {
    MulBound(f.l0, y, a, b);
    MulBound(f.l1, y, a, b);
    MulBound(f.l2, y, a, b);
    MulBound(f.l3, y, a, b);
    MulBound(f.l4, y, a, b);
  }

  /** Adding five shifted rows column by column, with 2^255 folded down to 19, changes the sum by a multiple of P. */
  lemma FoldRows(a: Row, b: Row, c: Row, d: Row, e: Row)
    ensures Mod(Columns(a.c0 + 19 * (e.c1 + d.c2 + c.c3 + b.c4),
                        b.c0 + a.c1 + 19 * (e.c2 + d.c3 + c.c4),
                        c.c0 + b.c1 + a.c2 + 19 * (e.c3 + d.c4),
                        d.c0 + c.c1 + b.c2 + a.c3 + 19 * e.c4,
                        e.c0 + d.c1 + c.c2 + b.c3 + a.c4))
         == Mod(Columns(RowVal(a), RowVal(b), RowVal(c), RowVal(d), RowVal(e)))
  {
    hide Mod;
    var high := Columns(e.c1 + d.c2 + c.c3 + b.c4, e.c2 + d.c3 + c.c4, e.c3 + d.c4, e.c4, 0);
    ModShift(Columns(a.c0 + 19 * (e.c1 + d.c2 + c.c3 + b.c4),
                     b.c0 + a.c1 + 19 * (e.c2 + d.c3 + c.c4),
                     c.c0 + b.c1 + a.c2 + 19 * (e.c3 + d.c4),
                     d.c0 + c.c1 + b.c2 + a.c3 + 19 * e.c4,
                     e.c0 + d.c1 + c.c2 + b.c3 + a.c4), high);
  }

  lemma ScaleColumns(f: Fe, x: int)
    ensures Val(f) * x == Columns(f.l0 * x, f.l1 * x, f.l2 * x, f.l3 * x, f.l4 * x)
  {
  }

  lemma ProductRows(f: Fe, g: Fe)
    ensures Val(f) * Val(g) == Columns(RowVal(Times(f, g.l0)), RowVal(Times(f, g.l1)), RowVal(Times(f, g.l2)),
                                       RowVal(Times(f, g.l3)), RowVal(Times(f, g.l4)))
  {
    hide *;
    ScaleColumns(g, Val(f));
    Scale(f, g.l0);
    Scale(f, g.l1);
    Scale(f, g.l2);
    Scale(f, g.l3);
    Scale(f, g.l4);
  }

  // The column sums of fe_mul; w holds the multiples 19 * g.
  function MulCol0(f: Fe, g: Fe, w: Fe): int {
    f.l0 * g.l0 + f.l1 * w.l4 + f.l2 * w.l3 + f.l3 * w.l2 + f.l4 * w.l1
  }

  function MulCol1(f: Fe, g: Fe, w: Fe): int {
    f.l0 * g.l1 + f.l1 * g.l0 + f.l2 * w.l4 + f.l3 * w.l3 + f.l4 * w.l2
  }

  function MulCol2(f: Fe, g: Fe, w: Fe): int {
    f.l0 * g.l2 + f.l1 * g.l1 + f.l2 * g.l0 + f.l3 * w.l4 + f.l4 * w.l3
  }

  function MulCol3(f: Fe, g: Fe, w: Fe): int {
    f.l0 * g.l3 + f.l1 * g.l2 + f.l2 * g.l1 + f.l3 * g.l0 + f.l4 * w.l4
  }

  function MulCol4(f: Fe, g: Fe): int {
    f.l0 * g.l4 + f.l1 * g.l3 + f.l2 * g.l2 + f.l3 * g.l1 + f.l4 * g.l0
  }

  lemma MulColumnsAreRows(f: Fe, g: Fe, w: Fe, a: Row, b: Row, c: Row, d: Row, e: Row)
    requires w.l1 == 19 * g.l1 && w.l2 == 19 * g.l2 && w.l3 == 19 * g.l3 && w.l4 == 19 * g.l4
    requires a == Times(f, g.l0) && b == Times(f, g.l1) && c == Times(f, g.l2)
    requires d == Times(f, g.l3) && e == Times(f, g.l4)
    ensures MulCol0(f, g, w) == a.c0 + 19 * (e.c1 + d.c2 + c.c3 + b.c4)
    ensures MulCol1(f, g, w) == b.c0 + a.c1 + 19 * (e.c2 + d.c3 + c.c4)
    ensures MulCol2(f, g, w) == c.c0 + b.c1 + a.c2 + 19 * (e.c3 + d.c4)
    ensures MulCol3(f, g, w) == d.c0 + c.c1 + b.c2 + a.c3 + 19 * e.c4
    ensures MulCol4(f, g) == e.c0 + d.c1 + c.c2 + b.c3 + a.c4
  {
    Nineteen(f.l1, g.l4, w.l4);
    Nineteen(f.l2, g.l3, w.l3);
    Nineteen(f.l3, g.l2, w.l2);
    Nineteen(f.l4, g.l1, w.l1);
    Nineteen(f.l2, g.l4, w.l4);
    Nineteen(f.l3, g.l3, w.l3);
    Nineteen(f.l4, g.l2, w.l2);
    Nineteen(f.l3, g.l4, w.l4);
    Nineteen(f.l4, g.l3, w.l3);
    Nineteen(f.l4, g.l4, w.l4);
  }

  lemma Nineteen(x: int, y: int, w: int)
    requires w == 19 * y
    ensures x * w == 19 * (x * y)
  {
  }

  lemma MulColumnsValue(f: Fe, g: Fe, w: Fe, m: int)
    requires w.l1 == 19 * g.l1 && w.l2 == 19 * g.l2 && w.l3 == 19 * g.l3 && w.l4 == 19 * g.l4
    requires m == Val(f) * Val(g)
    ensures Mod(Columns(MulCol0(f, g, w), MulCol1(f, g, w), MulCol2(f, g, w), MulCol3(f, g, w), MulCol4(f, g)))
         == Mod(m)
  {
    hide *;
    var a, b, c := Times(f, g.l0), Times(f, g.l1), Times(f, g.l2);
    var d, e := Times(f, g.l3), Times(f, g.l4);
    MulColumnsAreRows(f, g, w, a, b, c, d, e);
    FoldRows(a, b, c, d, e);
    ProductRows(f, g);
  }

  lemma FoldedWithin(a: Row, b: Row, c: Row, d: Row, e: Row, m: int)
    requires RowWithin(a, m) && RowWithin(b, m) && RowWithin(c, m) && RowWithin(d, m) && RowWithin(e, m)
    ensures 0 <= a.c0 + 19 * (e.c1 + d.c2 + c.c3 + b.c4) <= 77 * m
    ensures 0 <= b.c0 + a.c1 + 19 * (e.c2 + d.c3 + c.c4) <= 77 * m
    ensures 0 <= c.c0 + b.c1 + a.c2 + 19 * (e.c3 + d.c4) <= 77 * m
    ensures 0 <= d.c0 + c.c1 + b.c2 + a.c3 + 19 * e.c4 <= 77 * m
    ensures 0 <= e.c0 + d.c1 + c.c2 + b.c3 + a.c4 <= 5 * m
  {
  }

  lemma MulColumnsBounded(f: Fe, g: Fe, w: Fe, bound: int)
    requires Below(f, bound) && Below(g, bound)
    requires w.l1 == 19 * g.l1 && w.l2 == 19 * g.l2 && w.l3 == 19 * g.l3 && w.l4 == 19 * g.l4
    ensures 0 <= MulCol0(f, g, w) <= 77 * (bound * bound) && 0 <= MulCol1(f, g, w) <= 77 * (bound * bound)
    ensures 0 <= MulCol2(f, g, w) <= 77 * (bound * bound) && 0 <= MulCol3(f, g, w) <= 77 * (bound * bound)
    ensures 0 <= MulCol4(f, g) <= 5 * (bound * bound)
  {
    hide Times, RowWithin, MulCol0, MulCol1, MulCol2, MulCol3, MulCol4;
    TimesBound(f, g.l0, bound, bound);
    TimesBound(f, g.l1, bound, bound);
    TimesBound(f, g.l2, bound, bound);
    TimesBound(f, g.l3, bound, bound);
    TimesBound(f, g.l4, bound, bound);
    var a, b, c := Times(f, g.l0), Times(f, g.l1), Times(f, g.l2);
    var d, e := Times(f, g.l3), Times(f, g.l4);
    FoldedWithin(a, b, c, d, e, bound * bound);
    MulColumnsAreRows(f, g, w, a, b, c, d, e);
  }

  /** Multiplication: no 64- or 128-bit step overflows while both operands stay below 2^54 limb by limb. */
  method FeMul(f: Fe, g: Fe) returns (h: Fe)
    requires Below(f, LOOSE) && Below(g, LOOSE)
    ensures Mod(Val(h)) == Mod(Val(f) * Val(g))
    ensures Below(h, TIGHT)
  {
    var w := Fe(0, 19 * g.l1, 19 * g.l2, 19 * g.l3, 19 * g.l4);
    MulColumnsBounded(f, g, w, LOOSE);
    MulColumnsValue(f, g, w, Val(f) * Val(g));
    hide Mod, Val, Columns, MulCol0, MulCol1, MulCol2, MulCol3, MulCol4;
    var t0: u128 := MulCol0(f, g, w);
    var t1: u128 := MulCol1(f, g, w);
    var t2: u128 := MulCol2(f, g, w);
    var t3: u128 := MulCol3(f, g, w);
    var t4: u128 := MulCol4(f, g);
    h := CarryColumns(t0, t1, t2, t3, t4);
  }

  // The column sums of fe_sq and fe_sq2; d1 = 2*f1, k1..k3 = 38*f1..f3 and n3, n4 = 19*f3, 19*f4.
  function SqCol0(f: Fe, k1: int, k2: int): int {
    f.l0 * f.l0 + k1 * f.l4 + k2 * f.l3
  }

  function SqCol1(f: Fe, d0: int, k2: int, n3: int): int {
    d0 * f.l1 + k2 * f.l4 + n3 * f.l3
  }

  function SqCol2(f: Fe, d0: int, k3: int): int {
    d0 * f.l2 + f.l1 * f.l1 + k3 * f.l4
  }

  function SqCol3(f: Fe, d0: int, d1: int, n4: int): int {
    d0 * f.l3 + d1 * f.l2 + n4 * f.l4
  }

  function SqCol4(f: Fe, d0: int, d1: int): int {
    d0 * f.l4 + d1 * f.l3 + f.l2 * f.l2
  }

  /** Squaring shares the symmetric products: its columns are those of f * f. */
  lemma SqColumnsAreMulColumns(f: Fe, w: Fe)
    requires w.l1 == 19 * f.l1 && w.l2 == 19 * f.l2 && w.l3 == 19 * f.l3 && w.l4 == 19 * f.l4
    ensures SqCol0(f, 38 * f.l1, 38 * f.l2) == MulCol0(f, f, w)
    ensures SqCol1(f, 2 * f.l0, 38 * f.l2, 19 * f.l3) == MulCol1(f, f, w)
    ensures SqCol2(f, 2 * f.l0, 38 * f.l3) == MulCol2(f, f, w)
    ensures SqCol3(f, 2 * f.l0, 2 * f.l1, 19 * f.l4) == MulCol3(f, f, w)
    ensures SqCol4(f, 2 * f.l0, 2 * f.l1) == MulCol4(f, f)
  {
  }

  /** The column sums that fe_sq and fe_sq2 both start from. */
  method SquareColumns(f: Fe, ghost bound: int) returns (t0: u128, t1: u128, t2: u128, t3: u128, t4: u128)
    requires Below(f, bound) && bound <= LOOSE
    ensures t0 <= 77 * (bound * bound) && t1 <= 77 * (bound * bound) && t2 <= 77 * (bound * bound)
    ensures t3 <= 77 * (bound * bound) && t4 <= 5 * (bound * bound)
    ensures Mod(Columns(t0, t1, t2, t3, t4)) == Mod(Val(f) * Val(f))
  {
    var d0: u64, d1: u64, k1: u64, k2: u64 := 2 * f.l0, 2 * f.l1, 38 * f.l1, 38 * f.l2;
    var k3: u64, n3: u64, n4: u64 := 38 * f.l3, 19 * f.l3, 19 * f.l4;
    ghost var w := Fe(0, 19 * f.l1, 19 * f.l2, 19 * f.l3, 19 * f.l4);
    SqColumnsAreMulColumns(f, w);
    MulColumnsBounded(f, f, w, bound);
    MulColumnsValue(f, f, w, Val(f) * Val(f));
    MulBound(bound, bound, LOOSE, LOOSE);
    hide *;
    t0 := SqCol0(f, k1, k2);
    t1 := SqCol1(f, d0, k2, n3);
    t2 := SqCol2(f, d0, k3);
    t3 := SqCol3(f, d0, d1, n4);
    t4 := SqCol4(f, d0, d1);
  }

  method FeSq(f: Fe) returns (h: Fe)
    requires Below(f, LOOSE)
    ensures Mod(Val(h)) == Mod(Val(f) * Val(f))
    ensures Below(h, TIGHT)
  {
    hide Mod, Val, Below, Columns;
    var t0, t1, t2, t3, t4 := SquareColumns(f, LOOSE);
    h := CarryColumns(t0, t1, t2, t3, t4);
  }

  /** Doubled square: the doubling costs a bit, so the limbs must stay below 2^53. */
  method FeSq2(f: Fe) returns (h: Fe)
    requires Below(f, MEDIUM)
    ensures Mod(Val(h)) == Mod(2 * (Val(f) * Val(f)))
    ensures Below(h, TIGHT)
  {
    hide Mod, Val, Below;
    var t0, t1, t2, t3, t4 := SquareColumns(f, MEDIUM);
    var t := Columns(t0, t1, t2, t3, t4);
    ModAdd(t, Val(f) * Val(f), t, Val(f) * Val(f));
    h := CarryColumns(2 * t0, 2 * t1, 2 * t2, 2 * t3, 2 * t4);
    assert Columns(2 * t0, 2 * t1, 2 * t2, 2 * t3, 2 * t4) == t + t;
  }

  /** On limbs that fe_mul and fe_sq accept, the folded carry 19 * (t4 >> 51) of fe_sq2 can exceed 64 bits. */
  lemma Sq2OverflowsOnLooseLimbs()
    ensures exists f: Fe ::
              Below(f, LOOSE) && 19 * (2 * SqCol4(f, 2 * f.l0, 2 * f.l1) / R) >= 0x1_0000_0000_0000_0000
  {
    var m: u64 := LOOSE - 1;
    var f := Fe(m, m, m, m, m);
    assert SqCol4(f, 2 * m, 2 * m) == 5 * (m * m);
    assert Below(f, LOOSE) && 19 * (2 * SqCol4(f, 2 * f.l0, 2 * f.l1) / R) >= 0x1_0000_0000_0000_0000;
  }
}
