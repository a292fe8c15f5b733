/** Permission checking over printed policies (cookbook_policy.c). */
module Policy {
  import opened Wrappers
  import opened Text
  import opened JsonText
  import opened Buffer

  // ---- what a policy means ----

  /** A key covers its own group and every group below it. */
  predicate Covers(key: string, group: string) {
    && |key| <= |group| && group[..|key|] == key
    && (|key| < |group| ==> group[|key|] == '.')
  }

  /** The parts of a dotted name. */
  function Segments(s: string): (r: seq<string>)
    ensures r != [] && |r[0]| <= |s|
    decreases |s|
  {
    var k := Find(s, '.');
    if k == |s| then [s] else [s[..k]] + Segments(s[k + 1..])
  }

  /** The parts with dots between them. */
  function Dotted(parts: seq<string>): string {
    if parts == [] then "" else if |parts| == 1 then parts[0] else parts[0] + "." + Dotted(parts[1..])
  }

  lemma OneSegment(s: string)
    requires '.' !in s
    ensures Segments(s) == [s]
  {
    FindUnique(s, '.', |s|);
  }

  lemma FirstSegment(a: string, rest: string)
    requires '.' !in a
    ensures Segments(a + "." + rest) == [a] + Segments(rest)
  {
    FindAt(a, '.', rest);
  }

  /** Splitting and joining undo each other. */
  lemma {:induction false} SplitUndone(s: string)
    ensures Dotted(Segments(s)) == s && forall p :: p in Segments(s) ==> '.' !in p
    decreases |s|
  {
    var k := Find(s, '.');
    if k < |s| {
      SplitUndone(s[k + 1..]);
      var tail := Segments(s[k + 1..]);
      assert Segments(s)[1..] == tail && s == s[..k] + "." + s[k + 1..];
    }
  }

  lemma {:induction false} JoinUndone(parts: seq<string>)
    requires parts != [] && forall p :: p in parts ==> '.' !in p
    ensures Segments(Dotted(parts)) == parts
  {
    hide Segments, Dotted;
    assert parts[0] in parts;
    DottedFront(parts);
    if |parts| == 1 {
      OneSegment(parts[0]);
      assert parts == [parts[0]];
    } else {
      assert forall p :: p in parts[1..] ==> p in parts;
      JoinUndone(parts[1..]);
      FirstSegment(parts[0], Dotted(parts[1..]));
      assert parts == [parts[0]] + parts[1..];
    }
  }

  lemma DottedFront(parts: seq<string>)
    requires parts != []
    ensures Dotted(parts) == if |parts| == 1 then parts[0] else parts[0] + "." + Dotted(parts[1..])
  {
  }

  lemma CutAtDot(s: string) returns (a: string, b: string)
    requires '.' in s
    ensures s == a + "." + b && '.' !in a
  {
    var k := Find(s, '.');
    a, b := s[..k], s[k + 1..];
  }

  lemma {:induction false} SegmentsAppend(s: string, rest: string)
    ensures Segments(s + "." + rest) == Segments(s) + Segments(rest)
    decreases |s|
  {
    hide Segments;
    if '.' !in s {
      OneSegment(s);
      FirstSegment(s, rest);
    } else {
      var a, b := CutAtDot(s);
      SegmentsAppend(b, rest);
      FirstSegment(a, b);
      FirstSegment(a, b + "." + rest);
      DotsAssociate(a, b, rest);
    }
  }

  lemma DotsAssociate(a: string, b: string, c: string)
    ensures a + "." + b + "." + c == a + "." + (b + "." + c)
  {
  }

  lemma CoversBelow(key: string, rest: string)
    ensures Covers(key, key + "." + rest)
  {
    assert (key + "." + rest)[..|key|] == key;
  }

  lemma {:induction false} DottedAppend(xs: seq<string>, ys: seq<string>)
    requires xs != [] && ys != []
    ensures Dotted(xs + ys) == Dotted(xs) + "." + Dotted(ys)
  {
    if |xs| == 1 {
      assert (xs + ys)[1..] == ys;
    } else {
      DottedAppend(xs[1..], ys);
      assert (xs + ys)[1..] == xs[1..] + ys;
    }
  }

  /** The callbacks' test is the prefix order on the parts: com.foo covers com.foo.bar, and not com.foobar. */
  lemma CoversSegments(key: string, group: string)
    ensures Covers(key, group) <==> Segments(key) <= Segments(group)
  {
    hide Segments, Dotted;
    if Covers(key, group) {
      if |key| < |group| {
        assert group == key + "." + group[|key| + 1..];
        SegmentsAppend(key, group[|key| + 1..]);
      } else {
        assert key == group;
      }
    }
    if Segments(key) <= Segments(group) {
      PrefixCovers(key, group);
    }
  }

  lemma PrefixCovers(key: string, group: string)
    requires Segments(key) <= Segments(group)
    ensures Covers(key, group)
  {
    hide Segments, Dotted, Covers;
    SplitUndone(key);
    SplitUndone(group);
    var xs, ys := Segments(key), Segments(group);
    var more := ys[|xs|..];
    assert ys == xs + more;
    if more == [] {
      assert ys == xs;
      CoversItself(key);
    } else {
      DottedAppend(xs, more);
      CoversBelow(key, Dotted(more));
    }
  }

  lemma CoversItself(key: string)
    ensures Covers(key, key)
  {
  }

  /** A grant that names the group or one above it. */
  predicate Specific(e: Entry, group: string) {
    e.key != "*" && Covers(e.key, group)
  }

  /** The longest specific grant decides; the wildcard only when there is no specific one. */
  ghost predicate Decides(es: seq<Entry>, e: Entry, group: string) {
    && e in es
    && if e.key == "*" then forall f :: f in es ==> !Specific(f, group)
       else Specific(e, group) && forall f :: f in es && Specific(f, group) ==> |f.key| <= |e.key|
  }

  ghost predicate Granted(es: seq<Entry>, group: string, op: char) {
    exists e :: Decides(es, e, group) && op in e.val
  }

  ghost predicate Excluded(keys: seq<string>, group: string) {
    exists k :: k in keys && Covers(k, group)
  }

  ghost predicate Allows(es: seq<Entry>, keys: seq<string>, group: string, op: char) {
    Granted(es, group, op) && !Excluded(keys, group)
  }

  /** Map keys are distinct; here also non-empty. */
  ghost predicate Keyed(es: seq<Entry>) {
    && (forall i, j :: 0 <= i < j < |es| ==> es[i].key != es[j].key)
    && (forall e :: e in es ==> e.key != "")
  }

  /** Some group is granted and excluded, so that the excludes make a difference. */
  ghost predicate Bites(es: seq<Entry>, keys: seq<string>) {
    exists group, op :: Granted(es, group, op) && Excluded(keys, group)
  }

  /** The finite form: something is granted at the excluded key itself, or by an entry below it. */
  ghost predicate BitesAt(es: seq<Entry>, key: string) {
    || (exists e :: Decides(es, e, key) && e.val != "")
    || (exists e :: e in es && e.key != "*" && Covers(key, e.key) && e.val != "")
  }

  lemma BitesExactly(es: seq<Entry>, keys: seq<string>)
    ensures Bites(es, keys) <==> exists k :: k in keys && BitesAt(es, k)
  {
    hide Decides, Covers;
    if Bites(es, keys) {
      var group, op :| Granted(es, group, op) && Excluded(keys, group);
      var e :| Decides(es, e, group) && op in e.val;
      var k :| k in keys && Covers(k, group);
      BittenAt(es, e, k, group);
      assert BitesAt(es, k);
    }
    if exists k :: k in keys && BitesAt(es, k) {
      var k :| k in keys && BitesAt(es, k);
      BitesBelow(es, k);
      var group, op :| Granted(es, group, op) && Covers(k, group);
      assert Excluded(keys, group);
    }
  }

  lemma BitesBelow(es: seq<Entry>, k: string)
    requires BitesAt(es, k)
    ensures exists group, op :: Granted(es, group, op) && Covers(k, group)
  {
    if exists e :: Decides(es, e, k) && e.val != "" {
      var e :| Decides(es, e, k) && e.val != "";
      assert Granted(es, k, e.val[0]) && Covers(k, k);
    } else {
      var e :| e in es && e.key != "*" && Covers(k, e.key) && e.val != "";
      assert Decides(es, e, e.key);
      assert Granted(es, e.key, e.val[0]);
    }
  }

  /** Of two keys that cover a group, the shorter covers the longer. */
  lemma CoversNested(j: string, k: string, group: string)
    requires Covers(j, group) && Covers(k, group) && |j| <= |k|
    ensures Covers(j, k)
  {
    assert k[..|j|] == group[..|k|][..|j|] == group[..|j|];
  }

  lemma CoversThrough(j: string, k: string, group: string)
    requires Covers(j, k) && Covers(k, group)
    ensures Covers(j, group)
  {
    assert group[..|j|] == group[..|k|][..|j|];
  }

  lemma BittenAt(es: seq<Entry>, e: Entry, k: string, group: string)
    requires Decides(es, e, group) && Covers(k, group) && e.val != ""
    ensures BitesAt(es, k)
  {
    hide Covers;
    if e.key != "*" && |k| <= |e.key| {
      CoversNested(k, e.key, group);
    } else {
      if e.key != "*" {
        CoversNested(e.key, k, group);
      }
      forall f | f in es && Specific(f, k)
        ensures Specific(f, group)
      {
        CoversThrough(f.key, k, group);
      }
      assert Decides(es, e, k);
    }
  }

  // ---- the match loop ----

  datatype Best = Best(val: Option<string>, len: nat)

  /** grant_match_cb */
  function GrantStep(b: Best, e: Entry, group: string): Best {
    if e.key == "*" then (if b.len == 0 then Best(Some(e.val), 0) else b)
    else if Covers(e.key, group) && |e.key| > b.len then Best(Some(e.val), |e.key|)
    else b
  }

  function Match(es: seq<Entry>, group: string): Best {
    if es == [] then Best(None, 0) else GrantStep(Match(es[..|es| - 1], group), es[|es| - 1], group)
  }

  /** What the running best says about the entries seen so far. */
  ghost predicate Matched(es: seq<Entry>, b: Best, group: string) {
    match b.val
    case None => b.len == 0 && forall f :: f in es ==> f.key != "*" && !Specific(f, group)
    case Some(v) =>
      if b.len == 0 then Entry("*", v) in es && forall f :: f in es ==> !Specific(f, group)
      else
        && b.len <= |group| && Entry(group[..b.len], v) in es && Specific(Entry(group[..b.len], v), group)
        && forall f :: f in es && Specific(f, group) ==> |f.key| <= b.len
  }

  lemma {:induction false} MatchHolds(es: seq<Entry>, group: string)
    requires Keyed(es)
    ensures Matched(es, Match(es, group), group)
  {
    if es != [] {
      var init, last := es[..|es| - 1], es[|es| - 1];
      assert es == init + [last] && last in es;
      assert Keyed(init) by {
        assert forall e :: e in init ==> e in es;
      }
      MatchHolds(init, group);
      MatchStep(init, last, Match(init, group), group);
    }
  }

  lemma MatchStep(init: seq<Entry>, last: Entry, b: Best, group: string)
    requires Matched(init, b, group) && last.key != "" && Keyed(init + [last])
    ensures Matched(init + [last], GrantStep(b, last, group), group)
  {
    var es := init + [last];
    assert es[|init|] == last;
    if last.key == "*" {
      assert last == Entry("*", last.val);
    } else if Covers(last.key, group) && |last.key| > b.len {
      assert last == Entry(group[..|last.key|], last.val);
    }
  }

  /** The loop's answer is the policy's. */
  lemma MatchGrants(es: seq<Entry>, group: string, op: char)
    requires Keyed(es)
    ensures var b := Match(es, group); (b.val.Some? && op in b.val.value) <==> Granted(es, group, op)
  {
    hide Match, Keyed;
    MatchHolds(es, group);
    var b := Match(es, group);
    if b.val.Some? {
      var e := Entry(if b.len == 0 then "*" else group[..b.len], b.val.value);
      assert Decides(es, e, group);
      OneDecides(es, e, group);
    }
  }

  /** At most one entry decides. */
  lemma OneDecides(es: seq<Entry>, e: Entry, group: string)
    requires Keyed(es) && Decides(es, e, group)
    ensures forall f :: Decides(es, f, group) ==> f == e
  {
    forall f | Decides(es, f, group)
      ensures f == e
    {
      assert f.key == e.key;
      SameEntry(es, e, f);
    }
  }

  lemma SameEntry(es: seq<Entry>, e: Entry, f: Entry)
    requires Keyed(es) && e in es && f in es && e.key == f.key
    ensures e == f
  {
    var i :| 0 <= i < |es| && es[i] == e;
    var j :| 0 <= j < |es| && es[j] == f;
    assert !(i < j) && !(j < i);
  }

  lemma {:induction false} AppendMatch(es: seq<Entry>, e: Entry, group: string)
    ensures Match(es + [e], group) == GrantStep(Match(es, group), e, group)
  {
    assert (es + [e])[..|es|] == es;
  }

  /** walk_json_map with grant_match_cb */
  method WalkGrants(s: string, group: string) returns (b: Best)
    ensures b == Match(Pairs(s), group)
  {
    hide Turn1, Match, GrantStep;
    ghost var done: seq<Entry> := [];
    b := Best(None, 0);
    StartMatch(group);
    var i := 0;
    assert s[0..] == s;
    while i < |s|
      invariant i <= |s| && Pairs(s) == done + Pairs(s[i..]) && b == Match(done, group)
    {
      ghost var todo := Pairs(s[i..]);
      var go, found, e, next := Scan(s, i);
      if !go {
        assert todo == [] && Pairs(s) == done;
        return;
      }
      if found {
        assert todo == [e] + Pairs(s[next..]);
        AppendMatch(done, e, group);
        done := done + [e];
        b := GrantStep(b, e, group);
      }
      i := next;
    }
    PairsEnd(s[i..]);
    assert Pairs(s) == done;
  }

  lemma StartMatch(group: string)
    ensures Match([], group) == Best(None, 0)
  {
  }

  lemma PairsEnd(s: string)
    requires s == ""
    ensures Pairs(s) == []
  {
  }

  ghost predicate AnyCovers(es: seq<Entry>, group: string) {
    exists e :: e in es && Covers(e.key, group)
  }

  /** walk_json_map with exclude_match_cb, which stops at the first hit */
  method WalkExcludes(s: string, group: string) returns (hit: bool)
    ensures hit == AnyCovers(Pairs(s), group)
  {
    hide Turn1, Covers;
    ghost var done: seq<Entry> := [];
    var i := 0;
    assert s[0..] == s;
    while i < |s|
      invariant i <= |s| && Pairs(s) == done + Pairs(s[i..]) && !AnyCovers(done, group)
    {
      ghost var todo := Pairs(s[i..]);
      var go, found, e, next := Scan(s, i);
      if !go {
        assert todo == [];
        return false;
      }
      if found {
        assert todo == [e] + Pairs(s[next..]);
        if Covers(e.key, group) {
          assert e in Pairs(s);
          return true;
        }
        done := done + [e];
      }
      i := next;
    }
    PairsEnd(s[i..]);
    return false;
  }

  // ---- cookbook_auth_check ----

  /** The text before the first closing brace. */
  function BeforeBrace(t: string): Option<string> {
    var e := Find(t, '}');
    if e == |t| then None else Some(t[..e])
  }

  function GrantText(grants: string): Option<string> {
    var at := IndexOf(grants, "\"grants\":{", 0);
    BeforeBrace(if at < 0 then grants else grants[at + 10..])
  }

  function ExcludeText(grants: string, exclude: Option<string>): Option<string> {
    var src := if exclude.Some? then exclude.value else grants;
    var at := IndexOf(src, "\"exclude\":{", 0);
    if at >= 0 then BeforeBrace(src[at + 11..])
    else if exclude.Some? && Find(src, '{') < |src| then BeforeBrace(src[Find(src, '{') + 1..])
    else None
  }

  ghost predicate Permitted(grants: string, exclude: Option<string>, group: string, op: char) {
    && GrantText(grants).Some?
    && var b := Match(Pairs(GrantText(grants).value), group);
    && b.val.Some? && op in b.val.value
    && (ExcludeText(grants, exclude).Some? ==> !AnyCovers(Pairs(ExcludeText(grants, exclude).value), group))
  }

  method AuthCheck(grants: Option<string>, exclude: Option<string>, group: string, op: char) returns (ok: bool)
    ensures ok <==> grants.Some? && Permitted(grants.value, exclude, group, op)
  {
    hide GrantText, ExcludeText, Match, Pairs, AnyCovers;
    if grants.None? {
      return false;
    }
    var g := GrantText(grants.value);
    if g.None? {
      return false;
    }
    var best := WalkGrants(g.value, group);
    if best.val.None? || op !in best.val.value {
      return false;
    }
    var x := ExcludeText(grants.value, exclude);
    if x.Some? {
      var hit := WalkExcludes(x.value, group);
      if hit {
        return false;
      }
    }
    return true;
  }

  // ---- printed policies are decided by their meaning ----

  /** The form a token carries: the grants and exclude objects on their own. */
  function Bare(es: seq<Entry>): string {
    "{" + Members(es) + "}"
  }

  function BareFlags(keys: seq<string>): string {
    "{" + Flags(keys) + "}"
  }

  /** The form serialize_grants_json prints. */
  function Wrapped(es: seq<Entry>, keys: seq<string>): string {
    "{\"grants\":{" + Members(es) + "},\"exclude\":{" + Flags(keys) + "}}"
  }

  /** The texts character by character: the first entry, each further one, and what stands around them. */
  lemma PrintedForm(es: seq<Entry>, e: Entry, keys: seq<string>, k: string)
    ensures Members([]) == Flags([]) == ""
    ensures Members([e]) == "\"" + e.key + "\":\"" + e.val + "\""
    ensures es != [] ==> Members(es + [e]) == Members(es) + "," + ("\"" + e.key + "\":\"" + e.val + "\"")
    ensures Flags([k]) == "\"" + k + "\":true"
    ensures keys != [] ==> Flags(keys + [k]) == Flags(keys) + "," + ("\"" + k + "\":true")
    ensures Bare(es) == "{" + Members(es) + "}" && BareFlags(keys) == "{" + Flags(keys) + "}"
    ensures Wrapped(es, keys) == "{\"grants\":{" + Members(es) + "},\"exclude\":{" + Flags(keys) + "}}"
  {
    assert (es + [e])[..|es|] == es && (keys + [k])[..|keys|] == keys;
  }

  ghost predicate Printable(es: seq<Entry>, keys: seq<string>) {
    Keyed(es) && CleanEntries(es) && CleanKeys(keys)
  }

  lemma CutAtBrace(body: string, rest: string)
    requires '}' !in body
    ensures BeforeBrace(body + "}" + rest) == Some(body)
  {
    hide Find;
    FindAt(body, '}', rest);
  }

  /** A pattern ending in an opening brace does not occur where there is no such brace. */
  lemma NoOccurrence(s: string, pat: string, j: int)
    requires pat != "" && pat[|pat| - 1] == '{' && 0 <= j
    requires j + |pat| <= |s| ==> s[j + |pat| - 1] != '{'
    ensures !OccursAt(s, pat, j)
  {
    if j + |pat| <= |s| {
      assert s[j..j + |pat|][|pat| - 1] == s[j + |pat| - 1];
    }
  }

  /** A bare map has one opening brace, at its start, so the longer patterns are not in it. */
  lemma BareUnwrapped(body: string, pat: string)
    requires '{' !in body && |pat| > 1 && pat[|pat| - 1] == '{'
    ensures IndexOf("{" + body + "}", pat, 0) == -1
  {
    hide IndexOf;
    var s := "{" + body + "}";
    forall j | 0 <= j
      ensures !OccursAt(s, pat, j)
    {
      NoOccurrence(s, pat, j);
    }
    IndexNone(s, pat, 0);
  }

  lemma BareTexts(es: seq<Entry>, keys: seq<string>)
    requires CleanEntries(es) && CleanKeys(keys)
    ensures GrantText(Bare(es)) == Some("{" + Members(es))
    ensures ExcludeText(Bare(es), Some(BareFlags(keys))) == Some(Flags(keys))
    ensures ExcludeText(Bare(es), None) == None
  {
    hide BeforeBrace, IndexOf, Find, Members, Flags;
    MembersNoBrace(es);
    FlagsNoBrace(keys);
    BareUnwrapped(Members(es), "\"grants\":{");
    BareUnwrapped(Members(es), "\"exclude\":{");
    BareUnwrapped(Flags(keys), "\"exclude\":{");
    CutAtBrace("{" + Members(es), "");
    CutAtBrace(Flags(keys), "");
    assert Bare(es) == "{" + Members(es) + "}" + "";
    FindAt("", '{', Flags(keys) + "}");
    assert BareFlags(keys) == "" + "{" + (Flags(keys) + "}");
    assert Flags(keys) + "}" == Flags(keys) + "}" + "";
  }

  lemma AnyFlagged(keys: seq<string>, group: string)
    ensures AnyCovers(Flagged(keys), group) <==> Excluded(keys, group)
  {
    hide Flagged, Covers;
    if AnyCovers(Flagged(keys), group) {
      var e :| e in Flagged(keys) && Covers(e.key, group);
      FlaggedKeys(keys, e.key);
      assert e == Entry(e.key, "true");
    }
    if Excluded(keys, group) {
      var k :| k in keys && Covers(k, group);
      FlaggedKeys(keys, k);
    }
  }

  /** On the two objects of a token the check is exactly the policy. */
  lemma BareDecided(es: seq<Entry>, keys: seq<string>, group: string, op: char)
    requires Printable(es, keys)
    ensures Permitted(Bare(es), Some(BareFlags(keys)), group, op) <==> Allows(es, keys, group, op)
    ensures Permitted(Bare(es), None, group, op) <==> Granted(es, group, op)
  {
    hide Bare, BareFlags, Match, Pairs, Members, Flags, Clean, GrantText, ExcludeText;
    hide AnyCovers, Keyed, Granted, Excluded;
    BareTexts(es, keys);
    PairsMembers("{", es);
    PairsFlags("", keys);
    assert "" + Flags(keys) == Flags(keys);
    MatchGrants(es, group, op);
    AnyFlagged(keys, group);
  }

  /**
   * In terms of the dotted parts of the names: the entry with the most parts among those whose parts are a prefix of
   * the group's decides, and the wildcard only where there is none.
   */
  lemma DecidesMeans(es: seq<Entry>, e: Entry, group: string)
    ensures Decides(es, e, group) <==>
      && e in es
      && (e.key == "*" ==> forall f :: f in es && f.key != "*" ==> !(Segments(f.key) <= Segments(group)))
      && (e.key != "*" ==>
        && Segments(e.key) <= Segments(group)
        && forall f :: f in es && f.key != "*" && Segments(f.key) <= Segments(group) ==>
             |Segments(f.key)| <= |Segments(e.key)|)
  {
    hide Segments, Covers;
    forall f | f in es
      ensures Covers(f.key, group) <==> Segments(f.key) <= Segments(group)
      ensures Covers(f.key, group) && Covers(e.key, group) ==>
        (|f.key| <= |e.key| <==> |Segments(f.key)| <= |Segments(e.key)|)
    {
      CoversSegments(f.key, group);
      if Covers(f.key, group) && Covers(e.key, group) {
        LongerHasMore(f.key, e.key, group);
      }
    }
  }

  /** The check on the two objects: the deciding entry has the letter, and no exclude's parts are a prefix. */
  lemma BareMeans(es: seq<Entry>, keys: seq<string>, group: string, op: char)
    requires Printable(es, keys)
    ensures Permitted(Bare(es), Some(BareFlags(keys)), group, op) <==>
      && (exists e :: Decides(es, e, group) && op in e.val)
      && (forall k :: k in keys ==> !(Segments(k) <= Segments(group)))
  {
    hide Bare, BareFlags, Permitted, Printable, Segments, Covers, Decides;
    BareDecided(es, keys, group, op);
    forall k | k in keys
      ensures Covers(k, group) <==> Segments(k) <= Segments(group)
    {
      CoversSegments(k, group);
    }
  }

  /** Of two keys that cover a group, the longer has the more parts. */
  lemma LongerHasMore(k: string, j: string, group: string)
    requires Covers(k, group) && Covers(j, group)
    ensures |k| <= |j| <==> |Segments(k)| <= |Segments(j)|
  {
    hide Segments, Covers;
    CoversSegments(k, group);
    CoversSegments(j, group);
    CoversSegments(k, j);
    CoversSegments(j, k);
    if |k| <= |j| {
      CoversNested(k, j, group);
    }
    if |Segments(k)| <= |Segments(j)| {
      assert Segments(k) == Segments(group)[..|Segments(k)|] == Segments(j)[..|Segments(k)|];
      CoversLength(k, j);
    }
  }

  lemma CoversLength(k: string, j: string)
    requires Covers(k, j)
    ensures |k| <= |j|
  {
  }

  lemma WrappedTexts(es: seq<Entry>, keys: seq<string>)
    requires CleanEntries(es) && CleanKeys(keys)
    ensures GrantText(Wrapped(es, keys)) == Some(Members(es))
    ensures ExcludeText(Wrapped(es, keys), None) == Some(Flags(keys))
  {
    hide BeforeBrace, IndexOf, Find, Members, Flags, Clean;
    var m, f := Members(es), Flags(keys);
    MembersNoBrace(es);
    FlagsNoBrace(keys);
    WrappedGrants(m, f);
    WrappedExclude(m, f);
    CutAtBrace(m, ",\"exclude\":{" + f + "}}");
    CutAtBrace(f, "}");
  }

  lemma WrappedGrants(m: string, f: string)
    ensures var s := "{\"grants\":{" + m + "},\"exclude\":{" + f + "}}";
      IndexOf(s, "\"grants\":{", 0) == 1 && s[11..] == m + "}" + (",\"exclude\":{" + f + "}}")
  {
    hide IndexOf;
    var s := "{\"grants\":{" + m + "},\"exclude\":{" + f + "}}";
    assert s[1..11] == "\"grants\":{";
    assert !OccursAt(s, "\"grants\":{", 0) by {
      assert s[0..10][0] == '{';
    }
    IndexFirst(s, "\"grants\":{", 0, 1);
  }

  lemma WrappedExclude(m: string, f: string)
    requires '{' !in m
    ensures var s := "{\"grants\":{" + m + "},\"exclude\":{" + f + "}}";
      var at := IndexOf(s, "\"exclude\":{", 0); at == |m| + 13 && s[at + 11..] == f + "}" + "}"
  {
    hide IndexOf;
    var pat := "\"exclude\":{";
    var pre := "{\"grants\":{" + m + "},";
    var s := "{\"grants\":{" + m + "},\"exclude\":{" + f + "}}";
    assert s == pre + pat + (f + "}}");
    ExcludeFirst(pre, pat, f + "}}", m);
    assert f + "}" + "}" == f + "}}";
  }

  lemma ExcludeFirst(pre: string, pat: string, post: string, m: string)
    requires pat == "\"exclude\":{" && pre == "{\"grants\":{" + m + "}," && '{' !in m
    ensures IndexOf(pre + pat + post, pat, 0) == |pre| && (pre + pat + post)[|pre| + |pat|..] == post
  {
    hide IndexOf;
    var s := pre + pat + post;
    assert s[|pre|..|pre| + |pat|] == pat;
    forall j | 0 <= j < |pre|
      ensures !OccursAt(s, pat, j)
    {
      if j == 0 {
        assert s[0..11][0] == '{' && pat[0] == '"';
      } else {
        BraceFree(s, pre, pat, post, m, j + 10);
        NoOccurrence(s, pat, j);
      }
    }
    IndexFirst(s, pat, 0, |pre|);
  }

  lemma BraceFree(s: string, pre: string, pat: string, post: string, m: string, i: nat)
    requires pat == "\"exclude\":{" && pre == "{\"grants\":{" + m + "}," && '{' !in m && s == pre + pat + post
    requires 10 < i < |pre| + 10
    ensures s[i] != '{'
  {
    if i < |pre| {
      assert s[i] == pre[i];
      if i < 11 + |m| {
        assert pre[i] == m[i - 11];
      }
    } else {
      assert s[i] == pat[i - |pre|];
    }
  }

  /** On the text serialize_grants_json prints the check is exactly the policy. */
  lemma WrappedDecided(es: seq<Entry>, keys: seq<string>, group: string, op: char)
    requires Printable(es, keys)
    ensures Permitted(Wrapped(es, keys), None, group, op) <==> Allows(es, keys, group, op)
  {
    hide Wrapped, Match, Pairs, Members, Flags, Clean, GrantText, ExcludeText, AnyCovers, Keyed, Granted, Excluded;
    WrappedTexts(es, keys);
    PairsMembers("", es);
    PairsFlags("", keys);
    assert "" + Members(es) == Members(es) && "" + Flags(keys) == Flags(keys);
    MatchGrants(es, group, op);
    AnyFlagged(keys, group);
  }

  /** The order of the entries does not matter. */
  lemma OrderIrrelevant(es: seq<Entry>, fs: seq<Entry>, ks: seq<string>, ls: seq<string>, group: string, op: char)
    requires Printable(es, ks) && Printable(fs, ls)
    requires (forall e :: e in es <==> e in fs) && (forall k :: k in ks <==> k in ls)
    ensures Permitted(Wrapped(es, ks), None, group, op) == Permitted(Wrapped(fs, ls), None, group, op)
  {
    hide Wrapped, Permitted, Printable;
    WrappedDecided(es, ks, group, op);
    WrappedDecided(fs, ls, group, op);
    assert forall e :: Decides(es, e, group) <==> Decides(fs, e, group);
  }

  // ---- the printer ----

  /** A resolved grant: a string, an array to be merged, or something else. */
  datatype Value = Text(text: string) | Array(parts: seq<Option<string>>) | Other

  datatype Grant = Grant(key: string, value: Value)

  predicate Letter(c: char) {
    c == 'c' || c == 'r' || c == 'w' || c == 'd'
  }

  function AddLetter(perms: string, c: char): string {
    if Letter(c) && c !in perms && |perms| < 15 then perms + [c] else perms
  }

  function AddLetters(perms: string, s: string): string {
    if s == "" then perms else AddLetter(AddLetters(perms, s[..|s| - 1]), s[|s| - 1])
  }

  function Merge(parts: seq<Option<string>>): string {
    if parts == [] then ""
    else
      var init, last := Merge(parts[..|parts| - 1]), parts[|parts| - 1];
      if last.Some? then AddLetters(init, last.value) else init
  }

  /** Permission letters, each once: as many as the different letters that occur. */
  ghost predicate Letters(p: string) {
    && (forall c :: c in p ==> Letter(c))
    && |p| == Once(p, 'c') + Once(p, 'r') + Once(p, 'w') + Once(p, 'd')
  }

  function Once(p: string, c: char): nat {
    if c in p then 1 else 0
  }

  lemma {:induction false} AddLettersUnion(p: string, s: string)
    requires Letters(p)
    ensures Letters(AddLetters(p, s))
    ensures forall c :: c in AddLetters(p, s) <==> c in p || (Letter(c) && c in s)
  {
    if s != "" {
      var init, last := s[..|s| - 1], s[|s| - 1];
      AddLettersUnion(p, init);
      assert s == init + [last];
    }
  }

  /** An array grants exactly the union of its parts' permission letters. */
  lemma {:induction false} MergeUnion(parts: seq<Option<string>>)
    ensures Letters(Merge(parts))
    ensures forall c ::
      c in Merge(parts) <==> c in "crwd" && exists i :: 0 <= i < |parts| && parts[i].Some? && c in parts[i].value
  {
    if parts != [] {
      var n := |parts| - 1;
      var init, last := parts[..n], parts[n];
      MergeUnion(init);
      if last.Some? {
        AddLettersUnion(Merge(init), last.value);
      }
      assert forall i :: 0 <= i < n ==> init[i] == parts[i];
    }
  }

  function Permissions(v: Value): string {
    match v
    case Text(s) => s
    case Array(parts) => Merge(parts)
    case Other => ""
  }

  function Entries(grants: seq<Grant>): seq<Entry> {
    if grants == [] then []
    else
      var last := grants[|grants| - 1];
      Entries(grants[..|grants| - 1]) + [Entry(last.key, Permissions(last.value))]
  }

  /** The two loops that collect an array's letters. */
  method Collect(parts: seq<Option<string>>) returns (perms: string)
    ensures perms == Merge(parts)
  {
    perms := "";
    var j := 0;
    while j < |parts|
      invariant j <= |parts| && perms == Merge(parts[..j])
    {
      assert parts[..j + 1][..j] == parts[..j];
      if parts[j].Some? {
        perms := CollectOne(perms, parts[j].value);
      }
      j := j + 1;
    }
    assert parts[..j] == parts;
  }

  method CollectOne(start: string, s: string) returns (perms: string)
    ensures perms == AddLetters(start, s)
  {
    perms := start;
    var k := 0;
    while k < |s|
      invariant k <= |s| && perms == AddLetters(start, s[..k])
    {
      assert s[..k + 1][..k] == s[..k];
      if Letter(s[k]) && s[k] !in perms && |perms| < 15 {
        perms := perms + [s[k]];
      }
      k := k + 1;
    }
    assert s[..k] == s;
  }

  // ---- the printer's growing buffer ----

  const OPENING := "{\"grants\":{"
  const MIDDLE := "},\"exclude\":{"

  /** Before an entry that would come near the end, the buffer is doubled and made larger by what is needed. */
  function Grown(cap: nat, pos: nat, need: nat): nat {
    if pos + need >= cap then cap * 2 + need else cap
  }

  /** The size of the buffer after the grants loop. */
  function Capacity(es: seq<Entry>): nat {
    if es == [] then 256
    else
      var init, last := es[..|es| - 1], es[|es| - 1];
      Grown(Capacity(init), |OPENING| + |Members(init)|, |last.key| + |last.val| + 16)
  }

  /** What is then left of it. */
  function Room(es: seq<Entry>): int {
    Capacity(es) - |OPENING| - |Members(es)|
  }

  /** The fourteen places the middle part and a terminator take. */
  predicate Roomy(es: seq<Entry>) {
    Room(es) >= 14
  }

  /** The text serialize_grants_json returns: the middle part is printed without a look at the capacity. */
  function Printed(es: seq<Entry>, keys: seq<string>): string {
    if Roomy(es) then Wrapped(es, keys)
    else RoomLeft(es); Wrapped(es, keys)[..Capacity(es) - 1]
  }

  lemma {:induction false} RoomLeft(es: seq<Entry>)
    ensures Room(es) >= 11
    ensures 0 <= Capacity(es) - 1 <= |OPENING| + |Members(es)| + Room(es)
  {
    if es != [] {
      RoomLeft(es[..|es| - 1]);
      MembersLength(es);
    }
  }

  lemma MembersLength(es: seq<Entry>)
    requires es != []
    ensures var last := es[|es| - 1];
      |Members(es)| == |Members(es[..|es| - 1])| + |last.key| + |last.val| + (if |es| == 1 then 5 else 6)
  {
    assert |es| == 1 ==> es[..0] == [];
  }

  /** The printer's text is the whole text exactly when the middle part has room. */
  lemma PrintedWhole(es: seq<Entry>, keys: seq<string>)
    ensures Printed(es, keys) == Wrapped(es, keys) <==> Roomy(es)
  {
    RoomLeft(es);
  }

  /** An empty grant map is printed whole. */
  lemma EmptyGrantsRoomy()
    ensures Roomy([])
  {
  }

  /** Two grants of 221 to 223 characters in all leave too little. */
  lemma TwoGrantsCut(d: Entry, e: Entry)
    requires 221 <= |d.key| + |d.val| + |e.key| + |e.val| <= 223
    ensures !Roomy([d, e])
  {
    var es := [d, e];
    assert es[..1] == [d] && [d][..0] == [];
    MembersLength(es);
    MembersLength([d]);
    assert Capacity([d]) == 256;
  }

  /** The text that is left when the middle part was cut. */
  lemma PrintedCut(es: seq<Entry>, keys: seq<string>)
    requires !Roomy(es)
    ensures 1 <= Room(es) - 1 < |MIDDLE|
    ensures Printed(es, keys) == OPENING + Members(es) + MIDDLE[..Room(es) - 1]
  {
    hide Members, Flags;
    RoomLeft(es);
    var w := Wrapped(es, keys);
    assert w == OPENING + Members(es) + MIDDLE + (Flags(keys) + "}}");
  }

  /** What is cut off is the exclude map: the check sees the grants and no excludes. */
  lemma CutTexts(m: string, k: nat)
    requires '{' !in m && '}' !in m && 1 <= k < |MIDDLE|
    ensures var s := OPENING + m + MIDDLE[..k]; GrantText(s) == Some(m) && ExcludeText(s, None) == None
  {
    hide BeforeBrace, IndexOf, Find;
    var mid := MIDDLE[..k];
    var s := OPENING + m + mid;
    assert mid == "}" + mid[1..];
    GrantsAtOne(s, m, mid);
    CutAtBrace(m, mid[1..]);
    assert s[11..] == m + "}" + mid[1..];
    forall j | 0 <= j
      ensures !OccursAt(s, "\"exclude\":{", j)
    {
      if j == 0 {
        assert s[0] == '{';
      } else {
        CutNoBrace(s, m, mid, k, j + 10);
        NoOccurrence(s, "\"exclude\":{", j);
      }
    }
    IndexNone(s, "\"exclude\":{", 0);
  }

  lemma GrantsAtOne(s: string, m: string, mid: string)
    requires s == OPENING + m + mid
    ensures IndexOf(s, "\"grants\":{", 0) == 1
  {
    hide IndexOf;
    assert s[1..11] == "\"grants\":{";
    assert !OccursAt(s, "\"grants\":{", 0) by {
      assert s[0] == '{';
    }
    IndexFirst(s, "\"grants\":{", 0, 1);
  }

  lemma CutNoBrace(s: string, m: string, mid: string, k: nat, i: nat)
    requires '{' !in m && k < |MIDDLE| && mid == MIDDLE[..k] && s == OPENING + m + mid && i > 10
    ensures i < |s| ==> s[i] != '{'
  {
    if 11 <= i < 11 + |m| {
      assert s[i] == m[i - 11];
    } else if 11 + |m| <= i < |s| {
      assert s[i] == MIDDLE[i - 11 - |m|];
    }
  }

  /** On the printer's own output the check is the policy when there is room, and else the policy without excludes. */
  lemma PrintedDecided(es: seq<Entry>, keys: seq<string>, group: string, op: char)
    requires Printable(es, keys)
    ensures Permitted(Printed(es, keys), None, group, op)
      <==> Granted(es, group, op) && !(Roomy(es) && Excluded(keys, group))
  {
    hide Wrapped, Match, Pairs, Members, Flags, Clean, GrantText, ExcludeText;
    hide AnyCovers, Keyed, Granted, Excluded, Room;
    if Roomy(es) {
      WrappedDecided(es, keys, group, op);
    } else {
      PrintedCut(es, keys);
      MembersNoBrace(es);
      CutTexts(Members(es), Room(es) - 1);
      PairsMembers("", es);
      assert "" + Members(es) == Members(es);
      MatchGrants(es, group, op);
    }
  }

  /** The printed policy means the policy exactly when there is room or the excludes make no difference. */
  ghost predicate PrintedFaithfully(es: seq<Entry>, keys: seq<string>) {
    forall group, op :: Permitted(Printed(es, keys), None, group, op) <==> Allows(es, keys, group, op)
  }

  lemma PrintedFaithfullyIff(es: seq<Entry>, keys: seq<string>)
    requires Printable(es, keys)
    ensures PrintedFaithfully(es, keys) <==> Roomy(es) || !Bites(es, keys)
  {
    hide Printed, Permitted, Roomy, Granted, Excluded, Printable;
    forall group, op
      ensures Permitted(Printed(es, keys), None, group, op)
        <==> Granted(es, group, op) && !(Roomy(es) && Excluded(keys, group))
    {
      PrintedDecided(es, keys, group, op);
    }
    if !Roomy(es) && Bites(es, keys) {
      var group, op :| Granted(es, group, op) && Excluded(keys, group);
      assert Permitted(Printed(es, keys), None, group, op) && !Allows(es, keys, group, op);
    }
  }

  /** Such a policy loses its excludes: the group d.key is excluded, and the printed text grants it. */
  lemma ExcludeLost(d: Entry, e: Entry)
    requires 221 <= |d.key| + |d.val| + |e.key| + |e.val| <= 223
    requires Printable([d, e], [d.key]) && d.key != "*" && d.val != ""
    ensures var es, keys := [d, e], [d.key];
      Permitted(Printed(es, keys), None, d.key, d.val[0]) && !Allows(es, keys, d.key, d.val[0])
  {
    hide Printed, Permitted, Roomy, Printable;
    var es, keys := [d, e], [d.key];
    TwoGrantsCut(d, e);
    PrintedDecided(es, keys, d.key, d.val[0]);
    assert d in es && Decides(es, d, d.key);
    assert d.key in keys && Covers(d.key, d.key);
  }

  // ---- the printer ----

  lemma AppendMember(es: seq<Entry>, e: Entry)
    ensures Members(es + [e]) == if es == [] then Member(e) else Members(es) + "," + Member(e)
  {
    hide Member;
    assert (es + [e])[..|es|] == es;
  }

  /** One entry fits the grown buffer, whatever came before. */
  lemma EntryFits(es: seq<Entry>, e: Entry)
    ensures Capacity(es + [e]) == Grown(Capacity(es), |OPENING| + |Members(es)|, |e.key| + |e.val| + 16)
    ensures |OPENING| + |Members(es + [e])| + 1 < Capacity(es + [e])
    ensures var cap, need := Capacity(es), |e.key| + |e.val| + 16;
      Capacity(es + [e]) == if 11 + |Members(es)| + need >= cap then 2 * cap + need else cap
  {
    assert (es + [e])[..|es|] == es;
    RoomLeft(es + [e]);
  }

  method PrintGrants(grants: seq<Grant>) returns (b: Buf, cap: nat)
    ensures var text := OPENING + Members(Entries(grants)); b == Buf(text, |text|)
    ensures cap == Capacity(Entries(grants))
  {
    hide Entries, Members, Capacity, Print;
    cap := 256;
    b := Print(Empty, cap, OPENING);
    var i := 0;
    NothingPrinted(grants);
    while i < |grants|
      invariant i <= |grants| && cap == Capacity(Entries(grants[..i]))
      invariant var text := OPENING + Members(Entries(grants[..i])); b == Buf(text, |text|)
    {
      b, cap := PrintGrant(b, cap, grants[i], i == 0, grants[..i]);
      assert grants[..i] + [grants[i]] == grants[..i + 1];
      i := i + 1;
    }
    assert grants[..i] == grants;
  }

  lemma NothingPrinted(grants: seq<Grant>)
    ensures Capacity(Entries(grants[..0])) == 256
    ensures var text := OPENING + Members(Entries(grants[..0])); Print(Empty, 256, OPENING) == Buf(text, |text|)
  {
    assert "" + OPENING == OPENING && OPENING + "" == OPENING;
  }

  lemma EntriesSnoc(grants: seq<Grant>, g: Grant)
    ensures |Entries(grants)| == |grants|
    ensures Entries(grants + [g]) == Entries(grants) + [Entry(g.key, Permissions(g.value))]
    ensures Permissions(g.value) == if g.value.Text? then g.value.text
                                    else if g.value.Array? then Merge(g.value.parts)
                                    else ""
  {
    hide Merge;
    assert (grants + [g])[..|grants|] == grants;
    EntriesCount(grants);
  }

  lemma EntriesCount(grants: seq<Grant>)
    ensures |Entries(grants)| == |grants|
  {
    hide Permissions;
  }

  /** The permissions of one value, as the printing loop finds them. */
  method ReadPermissions(v: Value) returns (perms: string)
    ensures perms == Permissions(v)
  {
    match v {
      case Text(s) => perms := s;
      case Array(parts) => perms := Collect(parts);
      case Other => perms := "";
    }
  }

  /** One turn of the grants loop: make room, then print the entry. */
  method PrintGrant(b0: Buf, cap0: nat, g: Grant, first: bool, ghost done: seq<Grant>) returns (b: Buf, cap: nat)
    requires first == (done == []) && cap0 == Capacity(Entries(done))
    requires var text := OPENING + Members(Entries(done)); b0 == Buf(text, |text|)
    ensures cap == Capacity(Entries(done + [g]))
    ensures var text := OPENING + Members(Entries(done + [g])); b == Buf(text, |text|)
  {
    hide Entries, Permissions, Member, Members, Capacity;
    ghost var es := Entries(done);
    EntriesSnoc(done, g);
    var perms := ReadPermissions(g.value);
    var e := Entry(g.key, perms);
    AppendMember(es, e);
    EntryFits(es, e);
    NoMembers();
    cap := Grown(cap0, b0.pos, |e.key| + |e.val| + 16);
    b := PrintEntry(b0, cap, e, first, Members(es));
  }

  lemma NoMembers()
    ensures Members([]) == ""
  {
  }

  lemma MemberLength(e: Entry)
    ensures |Member(e)| == |e.key| + |e.val| + 5
  {
  }

  method PrintEntry(b0: Buf, cap: nat, e: Entry, first: bool, ghost m: string) returns (b: Buf)
    requires b0 == Buf(OPENING + m, |OPENING + m|) && (first ==> m == "")
    requires |OPENING| + |if first then Member(e) else m + "," + Member(e)| < cap
    ensures var text := OPENING + (if first then Member(e) else m + "," + Member(e)); b == Buf(text, |text|)
  {
    hide Member;
    b := b0;
    if !first {
      b := Print(b, cap, ",");
    }
    b := Print(b, cap, Member(e));
    assert b.text == OPENING + (if first then Member(e) else m + "," + Member(e));
  }

  /** How the exclude loop goes on: with the whole text so far, or behind the cut. */
  ghost predicate Going(b: Buf, cap: nat, roomy: bool, full: string, cut: string) {
    if roomy then b == Buf(full, |full|) && |full| < cap else b.text == cut && |cut| < b.pos
  }

  method PrintExcludes(b0: Buf, cap0: nat, keys: seq<string>, ghost roomy: bool, ghost front: string, ghost cut: string)
    returns (b: Buf, cap: nat)
    requires Going(b0, cap0, roomy, front, cut)
    ensures Going(b, cap, roomy, front + Flags(keys), cut)
  {
    hide Flags, Going;
    b, cap := b0, cap0;
    var i := 0;
    NoFlags();
    assert front + "" == front && keys[..0] == [];
    while i < |keys|
      invariant i <= |keys| && Going(b, cap, roomy, front + Flags(keys[..i]), cut)
    {
      b, cap := PrintFlag(b, cap, keys[i], i == 0, roomy, front, keys[..i], cut);
      assert keys[..i + 1] == keys[..i] + [keys[i]];
      i := i + 1;
    }
    assert keys[..i] == keys;
  }

  /** One turn of the excludes loop. */
  method PrintFlag(b0: Buf, cap0: nat, key: string, first: bool, ghost roomy: bool, ghost front: string,
                   ghost done: seq<string>, ghost cut: string)
    returns (b: Buf, cap: nat)
    requires Going(b0, cap0, roomy, front + Flags(done), cut) && first == (done == [])
    ensures Going(b, cap, roomy, front + Flags(done + [key]), cut)
  {
    hide Flag, Flags;
    AppendFlag(done, key);
    FlagLength(key);
    NoFlags();
    GoOn(front, Flags(done), Flag(key));
    cap := Grown(cap0, b0.pos, |key| + 16);
    b := b0;
    if !first {
      b := Print(b, cap, ",");
    }
    b := Print(b, cap, Flag(key));
  }

  lemma GoOn(front: string, f: string, g: string)
    ensures front + f + "," + g == front + (f + "," + g) && (f == "" ==> front + f + g == front + g)
  {
  }

  lemma NoFlags()
    ensures Flags([]) == ""
  {
  }

  lemma FlagLength(key: string)
    ensures |Flag(key)| == |key| + 7
  {
  }

  lemma AppendFlag(keys: seq<string>, key: string)
    ensures Flags(keys + [key]) == if keys == [] then Flag(key) else Flags(keys) + "," + Flag(key)
  {
    hide Flag;
    assert (keys + [key])[..|keys|] == keys;
  }

  /** serialize_grants_json */
  method Serialize(grants: seq<Grant>, exclude: seq<string>) returns (json: string)
    ensures json == Printed(Entries(grants), exclude)
  {
    hide Members, Flags, Entries, Room;
    var b, cap := PrintGrants(grants);
    ghost var es := Entries(grants);
    ghost var front, cut := OPENING + Members(es) + MIDDLE, Printed(es, exclude);
    b := Print(b, cap, MIDDLE);
    MiddlePrinted(es, exclude);
    b, cap := PrintExcludes(b, cap, exclude, Roomy(es), front, cut);
    if b.pos + 4 >= cap {
      cap := cap + 16;
    }
    b := Print(b, cap, "}}");
    json := b.text;
    assert Roomy(es) ==> front + Flags(exclude) + "}}" == Wrapped(es, exclude);
  }

  /** The middle part, printed after the grants. */
  lemma MiddlePrinted(es: seq<Entry>, keys: seq<string>)
    ensures var text := OPENING + Members(es);
      Going(Print(Buf(text, |text|), Capacity(es), MIDDLE), Capacity(es), Roomy(es), text + MIDDLE, Printed(es, keys))
  {
    hide Members, Flags, Capacity;
    RoomLeft(es);
    if !Roomy(es) {
      PrintedCut(es, keys);
    }
  }
}
