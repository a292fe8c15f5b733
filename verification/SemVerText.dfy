/** Reading a version from text (cookbook_semver_parse in cookbook_semver.c). */
module SemVerText {
  import opened Wrappers
  import opened Text
  import opened SemVer
  import opened Words

  const FIELD: nat := 64

  /** The length of the leading run of digits. */
  function Run(s: string): (k: nat)
    ensures k <= |s| && Numeric(s[..k]) && (k < |s| ==> !IsDigit(s[k]))
  {
    if s != "" && IsDigit(s[0]) then
      assert s[..1 + Run(s[1..])] == [s[0]] + s[1..][..Run(s[1..])];
      1 + Run(s[1..])
    else 0
  }

  function Number(digits: string): int
    requires Numeric(digits)
  {
    Int32(Strtol(digits))
  }

  // ---- the grammar ----

  /** The optional parts: `-` and a pre-release, `+` and build metadata, each shorter than its field. */
  predicate Tail(t: string, pre: string, build: string) {
    && t == (if pre == "" then "" else "-" + pre) + (if build == "" then "" else "+" + build)
    && '+' !in pre && |pre| < FIELD && |build| < FIELD
  }

  /** s is n1.n2.n3 and the optional parts. */
  predicate Text3(s: string, n1: string, n2: string, n3: string, t: string) {
    && n1 != "" && n2 != "" && n3 != "" && Numeric(n1) && Numeric(n2) && Numeric(n3)
    && s == n1 + "." + (n2 + "." + (n3 + t))
  }

  /** s is the text of version v. */
  ghost predicate Reads(s: string, v: Version) {
    exists n1, n2, n3, t ::
      && Text3(s, n1, n2, n3, t) && Tail(t, v.pre, v.build)
      && v.major == Number(n1) && v.minor == Number(n2) && v.patch == Number(n3)
  }

  // ---- the parser ----

  /** The text after the third number. */
  function ParseTail(t: string): Option<(string, string)> {
    var k := if t != "" && t[0] == '-' then Find(t, '+') else 0;
    var pre := if t != "" && t[0] == '-' then t[1..k] else "";
    var rest := t[k..];
    if t != "" && t[0] == '-' && (pre == "" || |pre| >= FIELD) then None
    else if rest == "" then Some((pre, ""))
    else if rest[0] != '+' || |rest| == 1 || |rest| > FIELD then None
    else Some((pre, rest[1..]))
  }

  /** From the third number on. */
  function ParsePatch(major: int, minor: int, u: string): Option<Version> {
    var c := Run(u);
    if c == 0 then None
    else
      match ParseTail(u[c..])
      case None => None
      case Some(p) => Some(Version(major, minor, Number(u[..c]), p.0, p.1))
  }

  /** From the second number on. */
  function ParseMinor(major: int, t: string): Option<Version> {
    var b := Run(t);
    if b == 0 || b == |t| || t[b] != '.' then None else ParsePatch(major, Number(t[..b]), t[b + 1..])
  }

  function Parse(s: string): Option<Version> {
    var a := Run(s);
    if a == 0 || a == |s| || s[a] != '.' then None else ParseMinor(Number(s[..a]), s[a + 1..])
  }

  lemma TailExact(t: string, pre: string, build: string)
    ensures ParseTail(t) == Some((pre, build)) <==> Tail(t, pre, build)
  {
    if Tail(t, pre, build) {
      TailComplete(t, pre, build);
    }
    if ParseTail(t) == Some((pre, build)) {
      TailSound(t, pre, build);
    }
  }

  lemma TailComplete(t: string, pre: string, build: string)
    requires Tail(t, pre, build)
    ensures ParseTail(t) == Some((pre, build))
  {
    hide ParseTail;
    if pre == "" {
      assert t == if build == "" then "" else "+" + build;
      BuildOnly(build);
    } else if build == "" {
      assert t == "-" + pre;
      PreOnly(pre);
    } else {
      assert t == "-" + pre + "+" + build;
      BothParts(pre, build);
    }
  }

  lemma BuildOnly(build: string)
    requires |build| < FIELD
    ensures ParseTail("") == Some(("", "")) && (build != "" ==> ParseTail("+" + build) == Some(("", build)))
  {
    hide Find;
    var t := "+" + build;
    assert t[0..] == t && t[1..] == build;
  }

  lemma PreOnly(pre: string)
    requires pre != "" && '+' !in pre && |pre| < FIELD
    ensures ParseTail("-" + pre) == Some((pre, ""))
  {
    hide Find;
    var t := "-" + pre;
    FindUnique(t, '+', |t|);
    assert t[1..|t|] == pre;
  }

  lemma BothParts(pre: string, build: string)
    requires pre != "" && '+' !in pre && |pre| < FIELD && build != "" && |build| < FIELD
    ensures ParseTail("-" + pre + "+" + build) == Some((pre, build))
  {
    hide Find;
    var head := "-" + pre;
    var t := head + "+" + build;
    FindAt(head, '+', build);
    assert t[1..|head|] == pre;
    assert t[|head|..] == "+" + build && t[|head|..][1..] == build;
  }

  lemma TailSound(t: string, pre: string, build: string)
    requires ParseTail(t) == Some((pre, build))
    ensures Tail(t, pre, build)
  {
    if t != "" && t[0] == '-' {
      var k := Find(t, '+');
      hide Find;
      assert t == "-" + t[1..k] + t[k..];
      assert pre == t[1..k] && '+' !in pre;
      if k < |t| {
        assert t[k..] == "+" + t[k..][1..];
      }
    } else {
      assert t[0..] == t;
      if t != "" {
        assert t == "+" + t[1..];
      }
    }
  }

  lemma {:induction false} RunAt(n: string, t: string)
    requires Numeric(n) && (t != "" ==> !IsDigit(t[0]))
    ensures Run(n + t) == |n| && (n + t)[..|n|] == n && (n + t)[|n|..] == t
  {
    if n == "" {
      assert n + t == t;
    } else {
      assert n[0] in n;
      assert Numeric(n[1..]) by { assert forall c :: c in n[1..] ==> c in n; }
      RunAt(n[1..], t);
      assert (n + t)[1..] == n[1..] + t;
    }
  }

  lemma TailStart(t: string, pre: string, build: string)
    requires Tail(t, pre, build)
    ensures t != "" ==> !IsDigit(t[0])
  {
  }

  lemma ParseComplete(s: string, v: Version)
    requires Reads(s, v)
    ensures Parse(s) == Some(v)
  {
    hide Run, ParseTail, Tail, Number, Numeric;
    var n1, n2, n3, t :|
      && Text3(s, n1, n2, n3, t) && Tail(t, v.pre, v.build)
      && v.major == Number(n1) && v.minor == Number(n2) && v.patch == Number(n3);
    TailStart(t, v.pre, v.build);
    TailExact(t, v.pre, v.build);
    var u := n3 + t;
    RunAt(n3, t);
    RunDot(n2, u);
    RunDot(n1, n2 + "." + u);
  }

  lemma RunDot(n: string, rest: string)
    requires Numeric(n)
    ensures var s := n + "." + rest; Run(s) == |n| && s[..|n|] == n && s[|n|] == '.' && s[|n| + 1..] == rest
  {
    hide Run, Numeric;
    var s := n + "." + rest;
    RunAt(n, "." + rest);
    assert s == n + ("." + rest);
  }

  lemma ParseSound(s: string, v: Version)
    requires Parse(s) == Some(v)
    ensures Reads(s, v)
  {
    hide Run, ParsePatch, ParseMinor, Tail, Number, Numeric;
    var a := Run(s);
    var t := s[a + 1..];
    CutDot(s, a);
    var n2, u := MinorSound(Number(s[..a]), t, v);
    var n3, rest := PatchSound(Number(s[..a]), Number(n2), u, v);
    assert Text3(s, s[..a], n2, n3, rest);
  }

  lemma MinorSound(major: int, t: string, v: Version) returns (n2: string, u: string)
    requires ParseMinor(major, t) == Some(v)
    ensures n2 != "" && Numeric(n2) && t == n2 + "." + u && ParsePatch(major, Number(n2), u) == Some(v)
  {
    hide Run, ParsePatch, Number, Numeric;
    n2, u := t[..Run(t)], t[Run(t) + 1..];
    CutDot(t, Run(t));
  }

  lemma PatchSound(major: int, minor: int, u: string, v: Version) returns (n3: string, rest: string)
    requires ParsePatch(major, minor, u) == Some(v)
    ensures n3 != "" && Numeric(n3) && u == n3 + rest && Tail(rest, v.pre, v.build)
    ensures v.major == major && v.minor == minor && v.patch == Number(n3)
  {
    hide Run, ParseTail, Tail, Number, Numeric;
    n3, rest := u[..Run(u)], u[Run(u)..];
    TailExact(rest, v.pre, v.build);
  }

  lemma CutDot(s: string, k: nat)
    requires k < |s| && s[k] == '.'
    ensures s == s[..k] + "." + s[k + 1..]
  {
  }

  /** The parser accepts exactly the texts of the grammar and reads each one way. */
  lemma ParseExact(s: string, v: Version)
    ensures Parse(s) == Some(v) <==> Reads(s, v)
  {
    hide Parse, Reads;
    if Parse(s) == Some(v) {
      ParseSound(s, v);
    }
    if Reads(s, v) {
      ParseComplete(s, v);
    }
  }

  lemma ReadParts(s: string, v: Version) returns (n1: string, n2: string, n3: string, t: string)
    requires Reads(s, v)
    ensures Text3(s, n1, n2, n3, t) && Tail(t, v.pre, v.build)
    ensures v.major == Number(n1) && v.minor == Number(n2) && v.patch == Number(n3)
  {
    hide Tail, Number, Numeric;
    n1, n2, n3, t :|
      && Text3(s, n1, n2, n3, t) && Tail(t, v.pre, v.build)
      && v.major == Number(n1) && v.minor == Number(n2) && v.patch == Number(n3);
  }

  /** The parts of a text that parses, and what they are read as. */
  lemma ParseParts(s: string, v: Version) returns (n1: string, n2: string, n3: string)
    requires Parse(s) == Some(v)
    ensures s == n1 + "." + n2 + "." + n3 + (if v.pre == "" then "" else "-" + v.pre)
                 + (if v.build == "" then "" else "+" + v.build)
    ensures n1 != "" && n2 != "" && n3 != "" && Numeric(n1) && Numeric(n2) && Numeric(n3)
    ensures '+' !in v.pre && |v.pre| < 64 && |v.build| < 64
    ensures v.major == Number(n1) && v.minor == Number(n2) && v.patch == Number(n3)
  {
    hide Number, Parse, Reads, Numeric;
    ParseSound(s, v);
    var t;
    n1, n2, n3, t := ReadParts(s, v);
    Flat(n1, n2, n3, if v.pre == "" then "" else "-" + v.pre, if v.build == "" then "" else "+" + v.build);
  }

  lemma Flat(n1: string, n2: string, n3: string, p: string, b: string)
    ensures n1 + "." + (n2 + "." + (n3 + (p + b))) == n1 + "." + n2 + "." + n3 + p + b
  {
  }

  /** A version written in the usual way is read back, whatever its numbers up to the largest int. */
  lemma ParseWritten(v: Version)
    requires 0 <= v.major < 0x8000_0000 && 0 <= v.minor < 0x8000_0000 && 0 <= v.patch < 0x8000_0000
    requires '+' !in v.pre && |v.pre| < 64 && |v.build| < 64
    ensures Parse(Numeral(v.major) + "." + Numeral(v.minor) + "." + Numeral(v.patch)
                  + (if v.pre == "" then "" else "-" + v.pre) + (if v.build == "" then "" else "+" + v.build))
         == Some(v)
  {
    hide Parse, Numeral, Decimal, Numeric;
    var n1, n2, n3 := Numeral(v.major), Numeral(v.minor), Numeral(v.patch);
    NumeralValue(v.major);
    NumeralValue(v.minor);
    NumeralValue(v.patch);
    var p, b := if v.pre == "" then "" else "-" + v.pre, if v.build == "" then "" else "+" + v.build;
    var s := n1 + "." + n2 + "." + n3 + p + b;
    Flat(n1, n2, n3, p, b);
    assert Text3(s, n1, n2, n3, p + b) && Tail(p + b, v.pre, v.build);
    assert Reads(s, v);
    ParseExact(s, v);
  }

  /** A number is its decimal value; beyond a long it is LONG_MAX, of which an int keeps the low bits, -1. */
  lemma NumberValue(n: string)
    requires Numeric(n)
    ensures forall c :: c in n ==> '0' <= c <= '9'
    ensures Decimal(n) < 0x8000_0000 ==> Number(n) == Decimal(n)
    ensures Decimal(n) >= 0x7fff_ffff_ffff_ffff ==> Number(n) == -1
    ensures Number("0" + n) == Number(n)
  {
    hide Decimal;
    LeadingZero(n);
  }

  lemma {:induction false} LeadingZero(n: string)
    requires Numeric(n)
    ensures Numeric("0" + n) && Decimal("0" + n) == Decimal(n)
  {
    if n == "" {
      assert ("0" + n)[..0] == "" && Decimal("") == 0;
    } else {
      var init := n[..|n| - 1];
      LeadingZero(init);
      assert ("0" + n)[..|n|] == "0" + init;
    }
  }

  // ---- the pointer loops ----

  /** strtol's scan over the digits. */
  method ScanDigits(s: string, i: nat) returns (k: nat)
    requires i <= |s|
    ensures i <= k <= |s| && k - i == Run(s[i..])
  {
    k := i;
    while k < |s| && IsDigit(s[k])
      invariant i <= k <= |s|
      invariant Run(s[i..]) == k - i + Run(s[k..])
    {
      assert s[k..][1..] == s[k + 1..];
      k := k + 1;
    }
  }

  method ReadTail(s: string, i: nat) returns (r: Option<(string, string)>)
    requires i <= |s|
    ensures r == ParseTail(s[i..])
  {
    hide Find;
    var p, pre := i, "";
    if p < |s| && s[p] == '-' {
      var k := Seek(s, p, '+');
      assert s[i..][..k - i] == s[i..k];
      pre := s[p + 1..k];
      assert pre == s[i..][1..k - i];
      if pre == "" || |pre| >= FIELD {
        return None;
      }
      p := k;
    }
    assert s[p..] == s[i..][p - i..];
    if p < |s| && s[p] == '+' {
      var build := s[p + 1..];
      assert build == s[p..][1..];
      if build == "" || |build| >= FIELD {
        return None;
      }
      return Some((pre, build));
    }
    return if p == |s| then Some((pre, "")) else None;
  }

  method ReadPatch(s: string, i: nat, major: int, minor: int) returns (r: Option<Version>)
    requires i <= |s|
    ensures r == ParsePatch(major, minor, s[i..])
  {
    hide Run, ParseTail, Number, Numeric;
    var c := ScanDigits(s, i);
    Suffix(s, i, c - i);
    if c == i {
      return None;
    }
    var p := ReadTail(s, c);
    if p.None? {
      return None;
    }
    return Some(Version(major, minor, Number(s[i..c]), p.value.0, p.value.1));
  }

  method ReadMinor(s: string, i: nat, major: int) returns (r: Option<Version>)
    requires i <= |s|
    ensures r == ParseMinor(major, s[i..])
  {
    hide Run, ParsePatch, Number, Numeric;
    var b := ScanDigits(s, i);
    Suffix(s, i, b - i);
    if b == i || b == |s| || s[b] != '.' {
      return None;
    }
    Suffix(s, i, b - i + 1);
    r := ReadPatch(s, b + 1, major, Number(s[i..b]));
  }

  /** cookbook_semver_parse */
  method ReadVersion(s: string) returns (r: Option<Version>)
    ensures r == Parse(s)
    ensures forall v :: r == Some(v) <==> Reads(s, v)
  {
    hide Run, ParseMinor, Number, Numeric, Reads;
    forall v
      ensures Parse(s) == Some(v) <==> Reads(s, v)
    {
      ParseExact(s, v);
    }
    assert s[0..] == s;
    var a := ScanDigits(s, 0);
    if a == 0 || a == |s| || s[a] != '.' {
      return None;
    }
    r := ReadMinor(s, a + 1, Number(s[..a]));
  }
}
