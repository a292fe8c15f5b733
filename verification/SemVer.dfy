/** Version precedence and ranges (cookbook_semver.c). */
module SemVer {

  /** The parsed fields; build metadata takes no part in precedence. */
  datatype Version = Version(major: int, minor: int, patch: int, pre: string, build: string)

  function Sign(x: int): int {
    if x < 0 then -1 else if x > 0 then 1 else 0
  }

  // ---- pre-release identifiers ----

  predicate IsDigit(c: char) {
    '0' <= c <= '9'
  }

  function Digit(c: char): nat
    requires IsDigit(c)
  {
    c as int - '0' as int
  }

  /** The first dot at or after i, or the end. */
  function IdEnd(s: string, i: nat): (k: nat)
    requires i <= |s|
    ensures i <= k <= |s| && (k < |s| ==> s[k] == '.') && forall j :: i <= j < k ==> s[j] != '.'
    decreases |s| - i
  {
    if i == |s| || s[i] == '.' then i else IdEnd(s, i + 1)
  }

  /** The dot-separated identifiers; a trailing dot adds none. */
  function Ids(s: string): seq<string> {
    if s == "" then []
    else
      var k := IdEnd(s, 0);
      [s[..k]] + (if k < |s| then Ids(s[k + 1..]) else [])
  }

  predicate Numeric(id: string) {
    forall c :: c in id ==> IsDigit(c)
  }

  const LONG_MAX: int := 0x7fff_ffff_ffff_ffff

  /** The decimal value of a digit string. */
  function Decimal(id: string): nat
    requires Numeric(id)
  {
    if id == "" then 0 else 10 * Decimal(id[..|id| - 1]) + Digit(id[|id| - 1])
  }

  /** strtol saturates. */
  function Strtol(id: string): nat
    requires Numeric(id)
  {
    if Decimal(id) > LONG_MAX then LONG_MAX else Decimal(id)
  }

  /** memcmp on the common length, then the shorter first. */
  function CompareText(x: string, y: string): int {
    if x == "" && y == "" then 0
    else if x == "" then -1
    else if y == "" then 1
    else if x[0] != y[0] then (if x[0] < y[0] then -1 else 1)
    else CompareText(x[1..], y[1..])
  }

  function CompareId(x: string, y: string): int {
    if Numeric(x) && Numeric(y) then Sign(Strtol(x) - Strtol(y))
    else if Numeric(x) then -1
    else if Numeric(y) then 1
    else CompareText(x, y)
  }

  function CompareIds(xs: seq<string>, ys: seq<string>): int {
    if xs == [] && ys == [] then 0
    else if xs == [] then -1
    else if ys == [] then 1
    else if CompareId(xs[0], ys[0]) != 0 then CompareId(xs[0], ys[0])
    else CompareIds(xs[1..], ys[1..])
  }

  /** A version without pre-release comes after all its pre-releases. */
  function PreOrder(a: string, b: string): int {
    if a == "" && b == "" then 0
    else if a == "" then 1
    else if b == "" then -1
    else CompareIds(Ids(a), Ids(b))
  }

  /** cookbook_semver_compare; only its sign is meaningful. */
  function Compare(a: Version, b: Version): int {
    if a.major != b.major then a.major - b.major
    else if a.minor != b.minor then a.minor - b.minor
    else if a.patch != b.patch then a.patch - b.patch
    else PreOrder(a.pre, b.pre)
  }

  // ---- the comparison is a total preorder ----

  /** What makes a three-way comparison a total preorder on one triple. */
  ghost predicate Ordered(ab: int, ba: int, bc: int, ac: int) {
    && Sign(ab) == -Sign(ba)
    && (ab <= 0 && bc <= 0 ==> ac <= 0 && (ac == 0 ==> ab == 0 && bc == 0))
  }

  lemma {:induction false} TextOrdered(x: string, y: string, z: string)
    ensures Ordered(CompareText(x, y), CompareText(y, x), CompareText(y, z), CompareText(x, z))
  {
    if x != "" && y != "" {
      if z != "" {
        TextOrdered(x[1..], y[1..], z[1..]);
      } else {
        TextOrdered(x[1..], y[1..], z);
      }
    }
  }

  lemma IdOrdered(x: string, y: string, z: string)
    ensures Ordered(CompareId(x, y), CompareId(y, x), CompareId(y, z), CompareId(x, z))
  {
    hide Numeric, CompareText, Strtol;
    TextOrdered(x, y, z);
  }

  lemma {:induction false} IdsOrdered(xs: seq<string>, ys: seq<string>, zs: seq<string>)
    ensures Ordered(CompareIds(xs, ys), CompareIds(ys, xs), CompareIds(ys, zs), CompareIds(xs, zs))
  {
    hide CompareId;
    if xs != [] && ys != [] {
      if zs != [] {
        IdOrdered(xs[0], ys[0], zs[0]);
        IdOrdered(ys[0], zs[0], xs[0]);
        IdOrdered(zs[0], xs[0], ys[0]);
        IdsOrdered(xs[1..], ys[1..], zs[1..]);
      } else {
        IdOrdered(xs[0], ys[0], xs[0]);
        IdsOrdered(xs[1..], ys[1..], zs);
      }
    }
  }

  /** Precedence is total, antisymmetric in sign and transitive, and build metadata does not matter. */
  lemma CompareOrdered(a: Version, b: Version, c: Version, meta: string)
    ensures Ordered(Compare(a, b), Compare(b, a), Compare(b, c), Compare(a, c))
    ensures Compare(a.(build := meta), b) == Compare(a, b) && Compare(a, a) == 0
  {
    hide CompareIds, Ids;
    IdsOrdered(Ids(a.pre), Ids(b.pre), Ids(c.pre));
    IdsOrdered(Ids(a.pre), Ids(a.pre), Ids(a.pre));
  }

  // ---- the pointer-walking comparison ----

  /** The scan for the end of one identifier. */
  method ScanId(s: string, start: nat) returns (k: nat)
    requires start <= |s|
    ensures k == IdEnd(s, start)
  {
    k := start;
    while k < |s| && s[k] != '.'
      invariant start <= k <= |s|
      invariant IdEnd(s, start) == IdEnd(s, k)
    {
      k := k + 1;
    }
  }

  /** The scan that classifies an identifier. */
  method AllDigits(id: string) returns (num: bool)
    ensures num == Numeric(id)
  {
    var i := 0;
    while i < |id|
      invariant i <= |id|
      invariant forall j :: 0 <= j < i ==> IsDigit(id[j])
    {
      if !IsDigit(id[i]) {
        return false;
      }
      i := i + 1;
    }
    num := true;
  }

  /** memcmp on the common length, then the lengths. */
  method TextOrder(x: string, y: string) returns (r: int)
    ensures r == CompareText(x, y)
  {
    var i := 0;
    while i < |x| && i < |y| && x[i] == y[i]
      invariant i <= |x| && i <= |y|
      invariant CompareText(x, y) == CompareText(x[i..], y[i..])
    {
      i := i + 1;
    }
    if i < |x| && i < |y| {
      r := if x[i] < y[i] then -1 else 1;
    } else {
      r := Sign(|x| - |y|);
    }
  }

  method IdOrder(x: string, y: string) returns (r: int)
    ensures r == CompareId(x, y)
  {
    hide Numeric, CompareText, Decimal;
    var xNum := AllDigits(x);
    var yNum := AllDigits(y);
    if xNum && yNum {
      r := Sign(Strtol(x) - Strtol(y));
    } else if xNum != yNum {
      r := if xNum then -1 else 1;
    } else {
      r := TextOrder(x, y);
    }
  }

  lemma {:induction false} IdEndShift(s: string, i: nat, j: nat)
    requires i <= j <= |s|
    ensures IdEnd(s[i..], j - i) == IdEnd(s, j) - i
    decreases |s| - j
  {
    if j < |s| && s[j] != '.' {
      IdEndShift(s, i, j + 1);
    }
  }

  lemma IdsHead(t: string, e: nat, rest: string)
    requires t != "" && e == IdEnd(t, 0) && rest == t[if e < |t| then e + 1 else e..]
    ensures Ids(t) == [t[..e]] + Ids(rest)
  {
    hide IdEnd;
    if e == |t| {
      assert Ids(rest) == [];
    }
  }

  /** The identifiers from an identifier start on. */
  lemma IdsFrom(s: string, i: nat)
    requires i < |s|
    ensures var k := IdEnd(s, i);
      Ids(s[i..]) == [s[i..k]] + Ids(s[if k < |s| then k + 1 else k..])
  {
    hide IdEnd, Ids;
    var k, t := IdEnd(s, i), s[i..];
    IdEndShift(s, i, i);
    var e := k - i;
    var next := if k < |s| then k + 1 else k;
    assert t[..e] == s[i..k] && t[next - i..] == s[next..];
    IdsHead(t, e, s[next..]);
  }

  method ComparePre(a: string, b: string) returns (r: int)
    ensures r == PreOrder(a, b)
  {
    hide CompareId, Ids;
    if a == "" && b == "" {
      return 0;
    }
    if a == "" {
      return 1;
    }
    if b == "" {
      return -1;
    }
    var i, j := 0, 0;
    assert a[i..] == a && b[j..] == b;
    while i < |a| && j < |b|
      invariant i <= |a| && j <= |b|
      invariant CompareIds(Ids(a), Ids(b)) == CompareIds(Ids(a[i..]), Ids(b[j..]))
      decreases |a| - i
    {
      IdsFrom(a, i);
      IdsFrom(b, j);
      var ka := ScanId(a, i);
      var kb := ScanId(b, j);
      r := IdOrder(a[i..ka], b[j..kb]);
      if r != 0 {
        return;
      }
      StepIds(a[i..ka], b[j..kb], Ids(a[if ka < |a| then ka + 1 else ka..]), Ids(b[if kb < |b| then kb + 1 else kb..]));
      assert ka > i || ka < |a|;
      i := if ka < |a| then ka + 1 else ka;
      j := if kb < |b| then kb + 1 else kb;
    }
    IdsEmpty(a[i..]);
    IdsEmpty(b[j..]);
    r := if i < |a| then 1 else if j < |b| then -1 else 0;
  }

  lemma IdsEmpty(s: string)
    ensures Ids(s) == [] <==> s == ""
  {
  }

  lemma StepIds(x: string, y: string, xs: seq<string>, ys: seq<string>)
    requires CompareId(x, y) == 0
    ensures CompareIds([x] + xs, [y] + ys) == CompareIds(xs, ys)
  {
    hide CompareId;
    assert ([x] + xs)[1..] == xs && ([y] + ys)[1..] == ys;
  }

  // ---- section 11 of SemVer 2.0.0 ----

  /** The text of a list of identifiers. */
  function Join(xs: seq<string>): string {
    if xs == [] then "" else if |xs| == 1 then xs[0] else xs[0] + "." + Join(xs[1..])
  }

  /** An identifier the standard admits: not empty, and a number has no leading zero. */
  ghost predicate WellFormed(id: string) {
    id != "" && '.' !in id && (Numeric(id) && |id| > 1 ==> id[0] != '0')
  }

  /** strtol does not saturate on it. */
  ghost predicate Held(id: string) {
    Numeric(id) ==> Decimal(id) <= LONG_MAX
  }

  /** The decimal digits of a number. */
  function Numeral(n: nat): string {
    (if n < 10 then "" else Numeral(n / 10)) + ['0' + (n % 10) as char]
  }

  /** The identifier the comparison takes a number for. */
  ghost function Clip(id: string): string {
    if Held(id) then id else Numeral(LONG_MAX)
  }

  ghost function ClipAll(xs: seq<string>): (r: seq<string>)
    ensures |r| == |xs|
  {
    seq(|xs|, i requires 0 <= i < |xs| => Clip(xs[i]))
  }

  /** Some character decides, or one is a proper prefix of the other. */
  ghost predicate TextBefore(x: string, y: string) {
    exists k :: TextBeforeAt(x, y, k)
  }

  ghost predicate TextBeforeAt(x: string, y: string, k: int) {
    && 0 <= k <= |x| && k < |y|
    && (forall j :: 0 <= j < k ==> x[j] == y[j])
    && (k < |x| ==> x[k] < y[k])
  }

  /** Numbers by value, numbers before text, text in ASCII order. */
  ghost predicate IdBefore(x: string, y: string) {
    if Numeric(x) && Numeric(y) then Decimal(x) < Decimal(y)
    else if Numeric(x) || Numeric(y) then Numeric(x)
    else TextBefore(x, y)
  }

  /** The first differing identifier decides; failing that, the longer list is later. */
  ghost predicate Before(xs: seq<string>, ys: seq<string>) {
    exists k :: BeforeAt(xs, ys, k)
  }

  ghost predicate BeforeAt(xs: seq<string>, ys: seq<string>, k: int) {
    && 0 <= k <= |xs| && k < |ys|
    && (forall j :: 0 <= j < k ==> xs[j] == ys[j])
    && (k < |xs| ==> xs[k] != ys[k] && IdBefore(xs[k], ys[k]))
  }

  lemma {:induction false} TextDecided(x: string, y: string)
    ensures CompareText(x, y) == 0 <==> x == y
    ensures CompareText(x, y) < 0 <==> TextBefore(x, y)
  {
    if x != "" && y != "" && x[0] == y[0] {
      TextDecided(x[1..], y[1..]);
      TextShift(x, y);
    } else {
      assert TextBefore(x, y) <==> TextBeforeAt(x, y, 0);
    }
  }

  /** A shared first character does not matter. */
  lemma TextShift(x: string, y: string)
    requires x != "" && y != "" && x[0] == y[0]
    ensures TextBefore(x, y) <==> TextBefore(x[1..], y[1..])
    ensures x == y <==> x[1..] == y[1..]
  {
    var u, v := x[1..], y[1..];
    assert x == [x[0]] + u && y == [y[0]] + v;
    if TextBefore(x, y) {
      var k :| TextBeforeAt(x, y, k);
      assert TextBeforeAt(u, v, k - 1);
    }
    if TextBefore(u, v) {
      var k :| TextBeforeAt(u, v, k);
      assert TextBeforeAt(x, y, k + 1);
    }
  }

  /** Digit strings that do not start with 0 are told apart by their value. */
  lemma {:induction false} DecimalInjective(x: string, y: string)
    requires Numeric(x) && Numeric(y)
    requires (x != "" ==> x[0] != '0') && (y != "" ==> y[0] != '0')
    ensures Decimal(x) == Decimal(y) <==> x == y
  {
    DecimalPositive(x);
    DecimalPositive(y);
    if x != "" && y != "" {
      var u, v := x[..|x| - 1], y[..|y| - 1];
      assert x == u + [x[|x| - 1]] && y == v + [y[|y| - 1]];
      DecimalInjective(u, v);
      LastDigit(Decimal(u), Decimal(v), Digit(x[|x| - 1]), Digit(y[|y| - 1]));
    }
  }

  lemma LastDigit(m: nat, n: nat, c: nat, d: nat)
    requires c < 10 && d < 10
    ensures 10 * m + c == 10 * n + d <==> m == n && c == d
  {
  }

  lemma {:induction false} DecimalPositive(x: string)
    requires Numeric(x) && (x != "" ==> x[0] != '0')
    ensures Decimal(x) == 0 <==> x == ""
  {
    if |x| > 1 {
      DecimalPositive(x[..|x| - 1]);
    }
  }

  lemma IdDecided(x: string, y: string)
    requires WellFormed(x) && WellFormed(y) && Held(x) && Held(y)
    ensures CompareId(x, y) == 0 <==> x == y
    ensures CompareId(x, y) < 0 <==> IdBefore(x, y)
  {
    hide CompareText, TextBefore;
    TextDecided(x, y);
    if Numeric(x) && Numeric(y) {
      NumbersDecided(x, y);
    }
  }

  lemma NumbersDecided(x: string, y: string)
    requires Numeric(x) && Numeric(y) && WellFormed(x) && WellFormed(y)
    ensures Decimal(x) == Decimal(y) <==> x == y
  {
    hide CompareText, TextBefore;
    if x[0] == '0' || y[0] == '0' {
      if x[0] == '0' {
        assert x == "0";
        if y[0] != '0' {
          DecimalPositive(y);
        }
      } else {
        assert y == "0";
        DecimalPositive(x);
      }
    } else {
      DecimalInjective(x, y);
    }
  }

  lemma {:induction false} HeldDecided(xs: seq<string>, ys: seq<string>)
    requires forall x :: x in xs + ys ==> WellFormed(x) && Held(x)
    ensures CompareIds(xs, ys) == 0 <==> xs == ys
    ensures CompareIds(xs, ys) < 0 <==> Before(xs, ys)
  {
    hide WellFormed, Held, CompareId, IdBefore;
    if xs != [] && ys != [] {
      assert xs[0] in xs + ys && ys[0] in xs + ys;
      IdDecided(xs[0], ys[0]);
      if xs[0] == ys[0] {
        assert forall x :: x in xs[1..] + ys[1..] ==> x in xs + ys;
        HeldDecided(xs[1..], ys[1..]);
        ListShift(xs, ys);
      } else {
        HeadDecides(xs, ys);
      }
    } else if xs == [] && ys != [] {
      assert BeforeAt(xs, ys, 0);
    }
  }

  lemma HeadDecides(xs: seq<string>, ys: seq<string>)
    requires xs != [] && ys != [] && xs[0] != ys[0]
    ensures Before(xs, ys) <==> IdBefore(xs[0], ys[0])
  {
    hide IdBefore;
    assert Before(xs, ys) <==> BeforeAt(xs, ys, 0);
  }

  lemma ListShift(xs: seq<string>, ys: seq<string>)
    requires xs != [] && ys != [] && xs[0] == ys[0]
    ensures Before(xs, ys) <==> Before(xs[1..], ys[1..])
    ensures xs == ys <==> xs[1..] == ys[1..]
  {
    hide IdBefore;
    var us, vs := xs[1..], ys[1..];
    assert xs == [xs[0]] + us && ys == [ys[0]] + vs;
    if Before(xs, ys) {
      var k :| BeforeAt(xs, ys, k);
      assert BeforeAt(us, vs, k - 1);
    }
    if Before(us, vs) {
      var k :| BeforeAt(us, vs, k);
      assert BeforeAt(xs, ys, k + 1);
    }
  }

  // ---- the rules one by one ----

  /** Behind a common beginning the first different character decides, and an end comes before more. */
  lemma {:induction false} TextRules(p: string, x: string, y: string)
    ensures x != "" && y != "" && x[0] < y[0] ==> CompareText(p + x, p + y) < 0 < CompareText(p + y, p + x)
    ensures y != "" ==> CompareText(p, p + y) < 0 < CompareText(p + y, p)
  {
    if p == "" {
      assert p + x == x && p + y == y;
    } else {
      TextRules(p[1..], x, y);
      assert (p + x)[1..] == p[1..] + x && (p + y)[1..] == p[1..] + y;
    }
  }

  /** Section 11.4.1 to 11.4.3: numbers by value, text by characters, numbers before text. */
  lemma IdRules(x: string, y: string, p: string, s: string, t: string)
    ensures Numeric(x) && Numeric(y) && Decimal(x) < Decimal(y) <= LONG_MAX ==> CompareId(x, y) < 0 < CompareId(y, x)
    ensures Numeric(x) && !Numeric(y) ==> CompareId(x, y) < 0 < CompareId(y, x)
    ensures !Numeric(p + s) && !Numeric(p + t) && s != "" && t != "" && s[0] < t[0] ==>
      CompareId(p + s, p + t) < 0 < CompareId(p + t, p + s)
    ensures !Numeric(p) && !Numeric(p + t) && t != "" ==> CompareId(p, p + t) < 0 < CompareId(p + t, p)
  {
    hide Numeric, Decimal, CompareText;
    TextRules(p, s, t);
  }

  /** Section 11.4.4: behind equal identifiers the first different one decides, and fewer come before more. */
  lemma {:induction false} ListRules(common: seq<string>, xs: seq<string>, ys: seq<string>)
    ensures xs != [] && ys != [] && CompareId(xs[0], ys[0]) != 0 ==>
      CompareIds(common + xs, common + ys) == CompareId(xs[0], ys[0])
    ensures ys != [] ==> CompareIds(common, common + ys) < 0 < CompareIds(common + ys, common)
  {
    hide CompareId;
    if common == [] {
      assert common + xs == xs && common + ys == ys;
    } else {
      SameId(common[0]);
      ListRules(common[1..], xs, ys);
      assert (common + xs)[1..] == common[1..] + xs && (common + ys)[1..] == common[1..] + ys;
    }
  }

  /** Section 11.2 and 11.3: the first different core number decides, then a pre-release comes before its release. */
  lemma VersionRules(a: Version, b: Version)
    ensures a.major < b.major ==> Compare(a, b) < 0 < Compare(b, a)
    ensures a.major == b.major && a.minor < b.minor ==> Compare(a, b) < 0 < Compare(b, a)
    ensures a.major == b.major && a.minor == b.minor && a.patch < b.patch ==> Compare(a, b) < 0 < Compare(b, a)
    ensures a.major == b.major && a.minor == b.minor && a.patch == b.patch ==>
      && (a.pre == "" && b.pre == "" ==> Compare(a, b) == 0)
      && (a.pre != "" && b.pre == "" ==> Compare(a, b) < 0 < Compare(b, a))
      && (a.pre != "" && b.pre != "" ==> Compare(a, b) == CompareIds(Ids(a.pre), Ids(b.pre)))
  {
    hide CompareIds, Ids;
  }

  // ---- numbers beyond a long ----

  lemma {:induction false} NumeralValue(n: nat)
    ensures Numeric(Numeral(n)) && Decimal(Numeral(n)) == n && WellFormed(Numeral(n))
    ensures n > 0 ==> Numeral(n)[0] != '0'
  {
    var c := '0' + (n % 10) as char;
    if n < 10 {
      assert Numeral(n) == [] + [c] && Decimal([]) == 0;
    } else {
      NumeralValue(n / 10);
      assert Numeral(n)[..|Numeral(n)| - 1] == Numeral(n / 10);
    }
  }

  lemma ClipSame(x: string, y: string)
    ensures CompareId(Clip(x), Clip(y)) == CompareId(x, y)
    ensures Held(Clip(x)) && (WellFormed(x) ==> WellFormed(Clip(x)))
  {
    hide CompareText, Numeral;
    NumeralValue(LONG_MAX);
    hide Numeric, Decimal;
  }

  lemma {:induction false} ClipIds(xs: seq<string>, ys: seq<string>)
    ensures CompareIds(ClipAll(xs), ClipAll(ys)) == CompareIds(xs, ys)
  {
    hide CompareId, Clip;
    if xs != [] && ys != [] {
      ClipSame(xs[0], ys[0]);
      ClipIds(xs[1..], ys[1..]);
      ClipTail(xs);
      ClipTail(ys);
    }
  }

  lemma ClipTail(xs: seq<string>)
    requires xs != []
    ensures ClipAll(xs)[0] == Clip(xs[0]) && ClipAll(xs)[1..] == ClipAll(xs[1..])
  {
    hide Clip;
  }

  /** compare_pre is the order of the standard on the clipped identifiers. */
  lemma IdsDecided(xs: seq<string>, ys: seq<string>)
    requires forall x :: x in xs + ys ==> WellFormed(x)
    ensures CompareIds(xs, ys) == 0 <==> ClipAll(xs) == ClipAll(ys)
    ensures CompareIds(xs, ys) < 0 <==> Before(ClipAll(xs), ClipAll(ys))
  {
    hide CompareIds, Before, WellFormed, Held, Clip;
    ClipIds(xs, ys);
    var us, vs := ClipAll(xs), ClipAll(ys);
    forall u | u in us + vs
      ensures WellFormed(u) && Held(u)
    {
      var x :| x in xs + ys && u == Clip(x);
      ClipSame(x, x);
    }
    HeldDecided(us, vs);
  }

  /** Two numbers that strtol takes for the same one. */
  ghost predicate Merged(x: string, y: string) {
    x != y && Numeric(x) && Numeric(y) && Decimal(x) >= LONG_MAX && Decimal(y) >= LONG_MAX
  }

  /** The first difference is no merged pair, or what follows happens to be ordered as the pair is. */
  ghost predicate TellsApart(xs: seq<string>, ys: seq<string>) {
    if xs == [] || ys == [] then true
    else if xs[0] == ys[0] then TellsApart(xs[1..], ys[1..])
    else if !Merged(xs[0], ys[0]) then true
    else
      var us, vs := ClipAll(xs[1..]), ClipAll(ys[1..]);
      us != vs && (Before(us, vs) <==> Decimal(xs[0]) < Decimal(ys[0]))
  }

  /** The comparison of the lists is the order of the standard. */
  ghost predicate Agrees(xs: seq<string>, ys: seq<string>) {
    (CompareIds(xs, ys) == 0 <==> xs == ys) && (CompareIds(xs, ys) < 0 <==> Before(xs, ys))
  }

  lemma IdApart(x: string, y: string)
    requires WellFormed(x) && WellFormed(y) && x != y
    ensures CompareId(x, y) == 0 <==> Merged(x, y)
    ensures !Merged(x, y) ==> (CompareId(x, y) < 0 <==> IdBefore(x, y))
    ensures Merged(x, y) ==> (IdBefore(x, y) <==> Decimal(x) < Decimal(y))
  {
    hide CompareText, TextBefore, Numeric, Decimal;
    TextDecided(x, y);
    if Numeric(x) && Numeric(y) {
      NumbersDecided(x, y);
    }
  }

  lemma {:induction false} AgreesIff(xs: seq<string>, ys: seq<string>)
    requires forall x :: x in xs + ys ==> WellFormed(x)
    ensures Agrees(xs, ys) <==> TellsApart(xs, ys)
  {
    hide WellFormed, CompareId, IdBefore, Merged, ClipAll;
    if xs == [] || ys == [] {
      hide Before;
      HeldEnds(xs, ys);
    } else {
      assert xs[0] in xs + ys && ys[0] in xs + ys;
      assert forall x :: x in xs[1..] + ys[1..] ==> x in xs + ys;
      if xs[0] == ys[0] {
        hide Before;
        SameId(xs[0]);
        AgreesIff(xs[1..], ys[1..]);
        ListShift(xs, ys);
      } else {
        IdApart(xs[0], ys[0]);
        IdsDecided(xs[1..], ys[1..]);
        HeadDecides(xs, ys);
        hide Before;
      }
    }
  }

  lemma SameId(x: string)
    ensures CompareId(x, x) == 0
  {
    hide Numeric;
    TextDecided(x, x);
  }

  lemma HeldEnds(xs: seq<string>, ys: seq<string>)
    requires xs == [] || ys == []
    ensures Agrees(xs, ys)
  {
    if xs == [] && ys != [] {
      assert BeforeAt(xs, ys, 0);
    }
  }

  /** Without a number beyond a long nothing is merged. */
  lemma {:induction false} HeldApart(xs: seq<string>, ys: seq<string>)
    requires forall x :: x in xs + ys ==> WellFormed(x) && Held(x)
    ensures TellsApart(xs, ys)
  {
    hide WellFormed, Held, CompareIds, Before;
    assert forall x :: x in xs + ys ==> WellFormed(x);
    HeldDecided(xs, ys);
    AgreesIff(xs, ys);
  }

  /** LONG_MAX and the number after it compare as equal. */
  lemma MergedPair()
    ensures var x, y := Numeral(LONG_MAX), Numeral(LONG_MAX + 1);
      && WellFormed(x) && WellFormed(y) && CompareIds([x], [y]) == 0 && Before([x], [y]) && !TellsApart([x], [y])
  {
    hide Numeral, Numeric, Decimal, WellFormed, CompareId, CompareText, TextBefore, Clip;
    var x, y := Numeral(LONG_MAX), Numeral(LONG_MAX + 1);
    NumeralValue(LONG_MAX);
    NumeralValue(LONG_MAX + 1);
    IdApart(x, y);
    assert BeforeAt([x], [y], 0);
    assert [x][1..] == [] && [y][1..] == [] && ClipAll([]) == [];
  }

  /** Splitting undoes joining. */
  lemma {:induction false} IdsJoin(xs: seq<string>)
    requires forall x :: x in xs ==> x != "" && '.' !in x
    ensures Ids(Join(xs)) == xs
    ensures Join(xs) == "" <==> xs == []
  {
    if |xs| == 1 {
      assert xs[0] in xs;
      assert IdEnd(xs[0], 0) == |xs[0]| && xs[0][..|xs[0]|] == xs[0];
      assert xs == [xs[0]];
    } else if |xs| > 1 {
      assert xs[0] in xs && forall x :: x in xs[1..] ==> x in xs;
      IdsJoin(xs[1..]);
      FirstId(xs[0], Join(xs[1..]));
      assert xs == [xs[0]] + xs[1..];
    }
  }

  lemma FirstId(x: string, rest: string)
    requires '.' !in x
    ensures Ids(x + "." + rest) == [x] + Ids(rest)
  {
    var s, k := x + "." + rest, |x|;
    assert s[k] == '.' && forall j :: 0 <= j < k ==> s[j] == x[j] && s[j] in x;
    assert IdEnd(s, 0) == k;
    assert s[..k] == x && s[k + 1..] == rest;
  }

  /** Section 11.4 on the texts themselves. */
  lemma PrereleaseOrder(xs: seq<string>, ys: seq<string>)
    requires xs != [] && ys != [] && forall x :: x in xs + ys ==> WellFormed(x)
    ensures PreOrder(Join(xs), Join(ys)) == CompareIds(xs, ys)
    ensures PreOrder(Join(xs), Join(ys)) == 0 <==> ClipAll(xs) == ClipAll(ys)
    ensures PreOrder(Join(xs), Join(ys)) < 0 <==> Before(ClipAll(xs), ClipAll(ys))
    ensures PreOrder(Join(xs), "") < 0 < PreOrder("", Join(xs))
  {
    hide CompareIds, Ids, Join, Before, ClipAll;
    assert forall x :: x in xs ==> x in xs + ys;
    assert forall x :: x in ys ==> x in xs + ys;
    hide Numeric, Decimal;
    IdsJoin(xs);
    IdsJoin(ys);
    IdsDecided(xs, ys);
  }

  // ---- ranges ----

  /** A wildcard has major -1 for "*" and minor -1 for "1.*". */
  datatype Range =
    | Exact(lower: Version)
    | Caret(lower: Version)
    | Tilde(lower: Version)
    | Wildcard(lower: Version)
    | Bounded(lower: Version, lowerInclusive: bool, upper: Version, upperInclusive: bool)

  predicate SameCore(a: Version, b: Version) {
    a.major == b.major && a.minor == b.minor && a.patch == b.patch
  }

  predicate IsPre(v: Version) {
    v.pre != ""
  }

  /** cookbook_range_satisfies */
  predicate Satisfies(range: Range, v: Version) {
    var low := range.lower;
    match range
    case Exact(_) => Compare(low, v) == 0
    case Caret(_) =>
      && Compare(v, low) >= 0
      && (IsPre(v) ==> SameCore(v, low))
      && (if low.major != 0 then v.major == low.major
          else if low.minor != 0 then v.major == 0 && v.minor == low.minor
          else v.major == 0 && v.minor == 0 && v.patch == low.patch)
    case Tilde(_) =>
      && Compare(v, low) >= 0
      && (IsPre(v) ==> SameCore(v, low))
      && v.major == low.major && v.minor == low.minor
    case Wildcard(_) =>
      && !IsPre(v)
      && (low.major == -1 || (v.major == low.major && (low.minor == -1 || v.minor == low.minor)))
    case Bounded(_, loIn, high, hiIn) =>
      && (if loIn then Compare(v, low) >= 0 else Compare(v, low) > 0)
      && (if hiIn then Compare(v, high) <= 0 else Compare(v, high) < 0)
  }

  /** What cookbook_semver_parse produces when the numbers fit an int. */
  predicate Parsed(v: Version) {
    0 <= v.major < 0x8000_0000 && 0 <= v.minor < 0x8000_0000 && 0 <= v.patch < 0x8000_0000
  }

  function Release(major: int, minor: int, patch: int): Version {
    Version(major, minor, patch, "", "")
  }

  /** No int subtraction of the comparison overflows. */
  lemma CompareFits(a: Version, b: Version)
    requires Parsed(a) && Parsed(b)
    ensures -0x8000_0000 <= Compare(a, b) < 0x8000_0000
  {
    hide CompareId, Ids;
    IdsUnit(Ids(a.pre), Ids(b.pre));
  }

  lemma {:induction false} IdsUnit(xs: seq<string>, ys: seq<string>)
    ensures -1 <= CompareIds(xs, ys) <= 1
  {
    if xs != [] && ys != [] {
      IdUnit(xs[0], ys[0]);
      IdsUnit(xs[1..], ys[1..]);
    }
  }

  lemma {:induction false} IdUnit(x: string, y: string)
    ensures -1 <= CompareId(x, y) <= 1
  {
    hide Numeric;
    TextUnit(x, y);
  }

  lemma {:induction false} TextUnit(x: string, y: string)
    ensures -1 <= CompareText(x, y) <= 1
  {
    if x != "" && y != "" {
      TextUnit(x[1..], y[1..]);
    }
  }

  /**
   * On releases caret is the half-open interval of the comments: ^1.3.0 is below 2.0.0, ^0.3.0 below 0.4.0, ^0.0.3
   * below 0.0.4. Of pre-releases it holds those of its own major.minor.patch that are not before it.
   */
  lemma CaretInterval(low: Version, v: Version)
    requires Parsed(low) && Parsed(v)
    ensures v.pre == "" ==> (Satisfies(Caret(low), v) <==>
      && Compare(low, v) <= 0
      && Compare(v, if low.major != 0 then Version(low.major + 1, 0, 0, "", "")
                    else if low.minor != 0 then Version(0, low.minor + 1, 0, "", "")
                    else Version(0, 0, low.patch + 1, "", "")) < 0)
    ensures v.pre != "" ==> (Satisfies(Caret(low), v) <==>
      Compare(low, v) <= 0 && v.major == low.major && v.minor == low.minor && v.patch == low.patch)
  {
    hide CompareIds, Ids;
    CompareOrdered(low, v, v, "");
  }

  /** The same for tilde: ~1.3.0 is below 1.4.0. */
  lemma TildeInterval(low: Version, v: Version)
    requires Parsed(low) && Parsed(v)
    ensures v.pre == "" ==> (Satisfies(Tilde(low), v) <==>
      Compare(low, v) <= 0 && Compare(v, Version(low.major, low.minor + 1, 0, "", "")) < 0)
    ensures v.pre != "" ==> (Satisfies(Tilde(low), v) <==>
      Compare(low, v) <= 0 && v.major == low.major && v.minor == low.minor && v.patch == low.patch)
  {
    hide CompareIds, Ids;
    CompareOrdered(low, v, v, "");
  }

  function Core(v: Version): seq<int> {
    [v.major, v.minor, v.patch]
  }

  /** Section 11.2: the first difference from left to right among major, minor and patch. */
  ghost predicate CoreFirst(a: Version, b: Version) {
    exists k :: CoreFirstAt(a, b, k)
  }

  ghost predicate CoreFirstAt(a: Version, b: Version, k: int) {
    0 <= k < 3 && Core(a)[..k] == Core(b)[..k] && Core(a)[k] < Core(b)[k]
  }

  /** Section 11 for versions whose pre-releases have the identifiers xs and ys, none meaning a release. */
  ghost predicate Precedes(a: Version, xs: seq<string>, b: Version, ys: seq<string>) {
    || CoreFirst(a, b)
    || (Core(a) == Core(b) && xs != [] && (ys == [] || Before(xs, ys)))
  }

  /** The comparison is section 11 of SemVer 2.0.0 on the clipped identifiers, with build metadata left out. */
  lemma Section11(a: Version, xs: seq<string>, b: Version, ys: seq<string>)
    requires a.pre == Join(xs) && b.pre == Join(ys) && forall x :: x in xs + ys ==> WellFormed(x)
    ensures Compare(a, b) < 0 <==> Precedes(a, ClipAll(xs), b, ClipAll(ys))
    ensures Compare(a, b) == 0 <==> Core(a) == Core(b) && ClipAll(xs) == ClipAll(ys)
  {
    hide CompareIds, Ids, WellFormed, Before, Join;
    JoinEmpty(xs, xs + ys);
    JoinEmpty(ys, xs + ys);
    if xs != [] && ys != [] {
      PrereleaseOrder(xs, ys);
    }
    CoreDecided(a, b);
    PrecedenceOrder(a, b);
  }

  /** The comparison of the versions is the precedence of the standard. */
  ghost predicate Conforms(a: Version, xs: seq<string>, b: Version, ys: seq<string>) {
    && (Compare(a, b) < 0 <==> Precedes(a, xs, b, ys))
    && (Compare(a, b) == 0 <==> Core(a) == Core(b) && xs == ys)
  }

  /** It is, exactly when the cores differ or the identifiers are told apart: no merged pair decides wrongly. */
  lemma Section11Iff(a: Version, xs: seq<string>, b: Version, ys: seq<string>)
    requires a.pre == Join(xs) && b.pre == Join(ys) && forall x :: x in xs + ys ==> WellFormed(x)
    ensures Conforms(a, xs, b, ys) <==> Core(a) != Core(b) || TellsApart(xs, ys)
  {
    hide CompareIds, Ids, WellFormed, Before, Join, TellsApart, ClipAll;
    JoinEmpty(xs, xs + ys);
    JoinEmpty(ys, xs + ys);
    CoreDecided(a, b);
    CoreApart(a, b);
    PrecedenceOrder(a, b);
    AgreesIff(xs, ys);
    if xs != [] && ys != [] {
      PrereleaseOrder(xs, ys);
    } else {
      HeldEnds(xs, ys);
    }
  }

  lemma CoreApart(a: Version, b: Version)
    ensures CoreFirst(a, b) ==> Core(a) != Core(b)
  {
  }

  lemma CoreDecided(a: Version, b: Version)
    ensures CoreFirst(a, b) <==> CoreBefore(a, b)
    ensures Core(a) == Core(b) <==> SameCore(a, b)
  {
    var x, y := Core(a), Core(b);
    assert x[..0] == y[..0] == [] && x[..1] == [a.major] && y[..1] == [b.major];
    assert x[..2] == [a.major, a.minor] && y[..2] == [b.major, b.minor];
    assert CoreFirst(a, b) <==> CoreFirstAt(a, b, 0) || CoreFirstAt(a, b, 1) || CoreFirstAt(a, b, 2);
  }

  lemma PrecedenceOrder(a: Version, b: Version)
    ensures Compare(a, b) < 0 <==> CoreBefore(a, b) || (SameCore(a, b) && PreOrder(a.pre, b.pre) < 0)
    ensures Compare(a, b) == 0 <==> SameCore(a, b) && PreOrder(a.pre, b.pre) == 0
  {
  }

  /** An exact range holds the versions that differ at most in build metadata and in numbers beyond a long. */
  lemma ExactMatches(low: Version, v: Version, xs: seq<string>, ys: seq<string>)
    requires low.pre == Join(xs) && v.pre == Join(ys) && forall x :: x in xs + ys ==> WellFormed(x)
    ensures Satisfies(Exact(low), v) <==> SameCore(low, v) && ClipAll(xs) == ClipAll(ys)
  {
    hide CompareIds, Ids, WellFormed, Before, Join;
    PrecedenceOrder(low, v);
    JoinEmpty(xs, xs + ys);
    JoinEmpty(ys, xs + ys);
    if xs != [] && ys != [] {
      PrereleaseOrder(xs, ys);
    }
  }

  lemma JoinEmpty(xs: seq<string>, all: seq<string>)
    requires (forall x :: x in xs ==> x in all) && forall x :: x in all ==> WellFormed(x)
    ensures Join(xs) == "" <==> xs == []
  {
    hide Numeric, Decimal, Ids;
    IdsJoin(xs);
  }

  /** On releases a wildcard is everything, one major or one minor line; it holds no pre-release. */
  lemma WildcardInterval(low: Version, v: Version)
    requires Parsed(v) && low.major >= -1 && low.minor >= -1
    ensures v.pre != "" ==> !Satisfies(Wildcard(low), v)
    ensures v.pre == "" ==> (Satisfies(Wildcard(low), v) <==>
      || low.major == -1
      || (low.minor == -1 && Compare(Version(low.major, 0, 0, "", ""), v) <= 0
          && Compare(v, Version(low.major + 1, 0, 0, "", "")) < 0)
      || (low.minor >= 0 && Compare(Version(low.major, low.minor, 0, "", ""), v) <= 0
          && Compare(v, Version(low.major, low.minor + 1, 0, "", "")) < 0))
  {
    hide CompareIds, Ids;
  }

  /** A bounded range is the interval between its bounds, each of which belongs when it is inclusive. */
  lemma BoundedInterval(low: Version, loIn: bool, high: Version, hiIn: bool, v: Version)
    ensures Satisfies(Bounded(low, loIn, high, hiIn), v) <==>
      && (Compare(low, v) < 0 || (loIn && Compare(low, v) == 0))
      && (Compare(v, high) < 0 || (hiIn && Compare(v, high) == 0))
  {
    hide CompareIds, Ids;
    CompareOrdered(low, v, v, "");
  }

  /** The pre-release convention: such a version matches only a bound of its own major.minor.patch. */
  ghost predicate Conventional(range: Range) {
    forall v :: Parsed(v) && IsPre(v) && Satisfies(range, v) ==> Targets(range, v)
  }

  predicate Targets(range: Range, v: Version) {
    SameCore(v, range.lower) || (range.Bounded? && SameCore(v, range.upper))
  }

  lemma PrereleaseNeedsCore(range: Range, v: Version)
    requires IsPre(v) && Satisfies(range, v) && !range.Bounded?
    ensures SameCore(v, range.lower)
  {
  }

  /** Before in the lexicographic order of major, minor, patch. */
  predicate CoreBefore(a: Version, b: Version) {
    || a.major < b.major
    || (a.major == b.major && a.minor < b.minor)
    || (a.major == b.major && a.minor == b.minor && a.patch < b.patch)
  }

  /** A version the code lets into a bounded range and the convention keeps out. */
  lemma BoundedAdmitsForeignPrerelease()
    ensures
      var range := Bounded(Release(1, 0, 0), true, Release(2, 0, 0), false);
      var v := Version(1, 5, 0, "alpha", "");
      Satisfies(range, v) && !SameCore(v, range.lower) && !SameCore(v, range.upper)
  {
  }

  /** The pre-release right above the releases of low's core. */
  function NextCore(low: Version): Version {
    if low.patch < 0x7fff_ffff then Version(low.major, low.minor, low.patch + 1, "a", "")
    else if low.minor < 0x7fff_ffff then Version(low.major, low.minor + 1, 0, "a", "")
    else Version(low.major + 1, 0, 0, "a", "")
  }

  /** The code meets its stated convention exactly when no core lies strictly between the bounds. */
  lemma ConventionIffNoGap(range: Range)
    requires Parsed(range.lower) && (range.Bounded? ==> Parsed(range.upper))
    ensures Conventional(range) <==> !(range.Bounded? && CoreBefore(NextCore(range.lower), range.upper))
  {
    hide CompareIds, Ids;
    if range.Bounded? && CoreBefore(NextCore(range.lower), range.upper) {
      var v := NextCore(range.lower);
      assert Satisfies(range, v) && IsPre(v) && Parsed(v) && !Targets(range, v);
    }
  }
}
