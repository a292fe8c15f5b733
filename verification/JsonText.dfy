/** Text searching, and the flat JSON maps that policies are printed as (cookbook_policy.c). */
module JsonText {

  import opened Text

  predicate OccursAt(s: string, pat: string, j: int) {
    0 <= j && j + |pat| <= |s| && s[j..j + |pat|] == pat
  }

  /** The first index of pat at or after i, or -1 (strstr). */
  function IndexOf(s: string, pat: string, i: nat): (k: int)
    requires i <= |s|
    ensures k == -1 || (i <= k && OccursAt(s, pat, k))
    decreases |s| - i
  {
    if OccursAt(s, pat, i) then i else if i == |s| then -1 else IndexOf(s, pat, i + 1)
  }

  lemma {:induction false} IndexFirst(s: string, pat: string, i: nat, k: nat)
    requires i <= k && OccursAt(s, pat, k) && forall j :: i <= j < k ==> !OccursAt(s, pat, j)
    ensures IndexOf(s, pat, i) == k
    decreases k - i
  {
    if i < k {
      IndexFirst(s, pat, i + 1, k);
    }
  }

  lemma {:induction false} IndexNone(s: string, pat: string, i: nat)
    requires i <= |s| && forall j :: i <= j ==> !OccursAt(s, pat, j)
    ensures IndexOf(s, pat, i) == -1
    decreases |s| - i
  {
    if i < |s| {
      IndexNone(s, pat, i + 1);
    }
  }

  /** The number of leading blanks. */
  function Blanks(s: string): (k: nat)
    ensures k <= |s|
  {
    if s != "" && (s[0] == ' ' || s[0] == '\t') then 1 + Blanks(s[1..]) else 0
  }

  /** The first comma or closing brace, or the length. */
  function ValueEnd(s: string): (k: nat)
    ensures k <= |s|
  {
    if s == "" || s[0] == ',' || s[0] == '}' then 0 else 1 + ValueEnd(s[1..])
  }

  // ---- the scanner ----

  datatype Entry = Entry(key: string, val: string)

  /** One turn of walk_json_map's loop: the end, a callback, or a value of another kind passed over. */
  datatype Turn = Stop | Item(entry: Entry, rest: string) | Skip(rest: string)

  /** What follows the opening quote of a value. */
  function QuotedTurn(key: string, t: string): (r: Turn)
    ensures !r.Stop? && |r.rest| <= |t|
  {
    var d := Find(t, '"');
    Item(Entry(key, t[..d]), if d < |t| then t[d + 1..] else "")
  }

  /** What starts with the value. */
  function ValueTurn(key: string, t: string): (r: Turn)
    ensures !r.Stop? && |r.rest| <= |t|
  {
    if t != "" && t[0] == '"' then QuotedTurn(key, t[1..])
    else if t != "" && t[0] == 't' then Item(Entry(key, "true"), t[ValueEnd(t)..])
    else Skip(t[ValueEnd(t)..])
  }

  /** What follows the closing quote of a key. */
  function ColonTurn(key: string, t: string): (r: Turn)
    ensures !r.Stop? ==> |r.rest| < |t|
  {
    var c := Find(t, ':');
    if c == |t| then Stop
    else
      var u := t[c + 1..];
      ValueTurn(key, u[Blanks(u)..])
  }

  /** What follows the opening quote of a key. */
  function KeyTurn(t: string): (r: Turn)
    ensures !r.Stop? ==> |r.rest| < |t|
  {
    var b := Find(t, '"');
    if b == |t| then Stop else ColonTurn(t[..b], t[b + 1..])
  }

  function Turn1(t: string): (r: Turn)
    ensures !r.Stop? ==> |r.rest| < |t|
  {
    var a := Find(t, '"');
    if a == |t| then Stop else KeyTurn(t[a + 1..])
  }

  /** Every key and value the callback is given, in order. */
  function Pairs(t: string): seq<Entry>
    decreases |t|
  {
    match Turn1(t)
    case Stop => []
    case Item(e, rest) => [e] + Pairs(rest)
    case Skip(rest) => Pairs(rest)
  }

  method SeekBlanks(s: string, i: nat) returns (k: nat)
    requires i <= |s|
    ensures i <= k <= |s| && k - i == Blanks(s[i..])
  {
    k := i;
    while k < |s| && (s[k] == ' ' || s[k] == '\t')
      invariant i <= k <= |s|
      invariant Blanks(s[i..]) == k - i + Blanks(s[k..])
    {
      assert s[k..][1..] == s[k + 1..];
      k := k + 1;
    }
  }

  method SeekEnd(s: string, i: nat) returns (k: nat)
    requires i <= |s|
    ensures i <= k <= |s| && k - i == ValueEnd(s[i..])
  {
    k := i;
    while k < |s| && s[k] != ',' && s[k] != '}'
      invariant i <= k <= |s|
      invariant ValueEnd(s[i..]) == k - i + ValueEnd(s[k..])
    {
      assert s[k..][1..] == s[k + 1..];
      k := k + 1;
    }
  }

  /** The turn that ends at index next with what was found. */
  ghost predicate Shows(r: Turn, s: string, found: bool, e: Entry, next: nat) {
    next <= |s| && r == (if found then Item(e, s[next..]) else Skip(s[next..]))
  }

  method ScanQuoted(s: string, i: nat, key: string) returns (e: Entry, next: nat)
    requires i <= |s|
    ensures i <= next <= |s| && Shows(QuotedTurn(key, s[i..]), s, true, e, next)
  {
    hide Find;
    var d := Seek(s, i, '"');
    Suffix(s, i, d - i);
    e := Entry(key, s[i..d]);
    next := d;
    if d < |s| {
      Suffix(s, i, d - i + 1);
      next := d + 1;
    }
  }

  method ScanValue(s: string, i: nat, key: string) returns (found: bool, e: Entry, next: nat)
    requires i <= |s|
    ensures i <= next <= |s| && Shows(ValueTurn(key, s[i..]), s, found, e, next)
  {
    hide ValueEnd, QuotedTurn;
    if i < |s| && s[i] == '"' {
      Suffix(s, i, 1);
      found := true;
      e, next := ScanQuoted(s, i + 1, key);
    } else {
      found := i < |s| && s[i] == 't';
      e := Entry(key, "true");
      next := SeekEnd(s, i);
      Suffix(s, i, next - i);
    }
  }

  method ScanColon(s: string, i: nat, key: string) returns (go: bool, found: bool, e: Entry, next: nat)
    requires i <= |s|
    ensures i <= next <= |s|
    ensures if go then Shows(ColonTurn(key, s[i..]), s, found, e, next) else ColonTurn(key, s[i..]) == Stop
  {
    hide Find, Blanks, ValueTurn, Shows;
    go, found, e, next := false, false, Entry("", ""), i;
    var c := Seek(s, i, ':');
    if c == |s| {
      return;
    }
    Suffix(s, i, c - i + 1);
    var v := SeekBlanks(s, c + 1);
    Suffix(s, c + 1, v - c - 1);
    go := true;
    found, e, next := ScanValue(s, v, key);
  }

  method ScanKey(s: string, i: nat) returns (go: bool, found: bool, e: Entry, next: nat)
    requires i <= |s|
    ensures i <= next <= |s|
    ensures if go then Shows(KeyTurn(s[i..]), s, found, e, next) else KeyTurn(s[i..]) == Stop
  {
    hide Find, ColonTurn, Shows;
    go, found, e, next := false, false, Entry("", ""), i;
    var b := Seek(s, i, '"');
    if b == |s| {
      return;
    }
    Suffix(s, i, b - i);
    Suffix(s, i, b - i + 1);
    go, found, e, next := ScanColon(s, b + 1, s[i..b]);
  }

  /** One turn of the loop of walk_json_map, on indices. */
  method Scan(s: string, i: nat) returns (go: bool, found: bool, e: Entry, next: nat)
    requires i <= |s|
    ensures i <= next <= |s| && (go ==> i < next)
    ensures if go then Shows(Turn1(s[i..]), s, found, e, next) else Turn1(s[i..]) == Stop
  {
    hide Find, KeyTurn, Shows;
    go, found, e, next := false, false, Entry("", ""), i;
    var a := Seek(s, i, '"');
    if a == |s| {
      return;
    }
    Suffix(s, i, a - i + 1);
    go, found, e, next := ScanKey(s, a + 1);
  }

  // ---- the printer ----

  /** `"key":"value"` */
  function Member(e: Entry): string {
    "\"" + e.key + "\":\"" + e.val + "\""
  }

  /** `"key":true` */
  function Flag(key: string): string {
    "\"" + key + "\":true"
  }

  function Members(es: seq<Entry>): string {
    if es == [] then "" else if |es| == 1 then Member(es[0]) else Members(es[..|es| - 1]) + "," + Member(es[|es| - 1])
  }

  function Flags(keys: seq<string>): string {
    if keys == [] then ""
    else if |keys| == 1 then Flag(keys[0])
    else Flags(keys[..|keys| - 1]) + "," + Flag(keys[|keys| - 1])
  }

  /** No quote and no brace. */
  predicate Clean(s: string) {
    '"' !in s && '{' !in s && '}' !in s
  }

  predicate CleanEntries(es: seq<Entry>) {
    forall e :: e in es ==> Clean(e.key) && Clean(e.val)
  }

  predicate CleanKeys(keys: seq<string>) {
    forall k :: k in keys ==> Clean(k)
  }

  /** The printed members seen from the front. */
  lemma {:induction false} MembersFront(es: seq<Entry>)
    requires |es| > 1
    ensures Members(es) == Member(es[0]) + "," + Members(es[1..])
  {
    hide Member;
    var n := |es|;
    if n > 2 {
      MembersFront(es[..n - 1]);
      assert es[1..][..n - 2] == es[..n - 1][1..];
    } else {
      assert es[..1] == [es[0]] && es[1..] == [es[1]];
    }
  }

  lemma {:induction false} FlagsFront(keys: seq<string>)
    requires |keys| > 1
    ensures Flags(keys) == Flag(keys[0]) + "," + Flags(keys[1..])
  {
    hide Flag;
    var n := |keys|;
    if n > 2 {
      FlagsFront(keys[..n - 1]);
      assert keys[1..][..n - 2] == keys[..n - 1][1..];
    } else {
      assert keys[..1] == [keys[0]] && keys[1..] == [keys[1]];
    }
  }

  /** What follows the first printed member. */
  function MoreMembers(es: seq<Entry>): string
    requires es != []
  {
    if |es| == 1 then "" else "," + Members(es[1..])
  }

  function MoreFlags(keys: seq<string>): string
    requires keys != []
  {
    if |keys| == 1 then "" else "," + Flags(keys[1..])
  }

  lemma MembersCons(lead: string, es: seq<Entry>, post: string)
    requires es != []
    ensures lead + Members(es) + post == lead + Member(es[0]) + (MoreMembers(es) + post)
  {
    hide Members, Member;
    MembersSplit(es);
    Regroup(lead, Member(es[0]), MoreMembers(es), post);
  }

  lemma MembersSplit(es: seq<Entry>)
    requires es != []
    ensures Members(es) == Member(es[0]) + MoreMembers(es)
  {
    hide Member;
    if |es| > 1 {
      MembersFront(es);
    } else {
      assert es == [es[0]];
    }
  }

  lemma Regroup(a: string, b: string, c: string, d: string)
    ensures a + (b + c) + d == a + b + (c + d)
  {
  }

  lemma FlagsCons(lead: string, keys: seq<string>, post: string)
    requires keys != []
    ensures lead + Flags(keys) + post == lead + Flag(keys[0]) + (MoreFlags(keys) + post)
  {
    hide Flags, Flag;
    FlagsSplit(keys);
    Regroup(lead, Flag(keys[0]), MoreFlags(keys), post);
  }

  lemma FlagsSplit(keys: seq<string>)
    requires keys != []
    ensures Flags(keys) == Flag(keys[0]) + MoreFlags(keys)
  {
    hide Flag;
    if |keys| > 1 {
      FlagsFront(keys);
    } else {
      assert keys == [keys[0]];
    }
  }

  lemma {:induction false} BlanksAt(blanks: string, value: string)
    requires forall c :: c in blanks ==> c == ' ' || c == '\t'
    requires value != "" ==> value[0] != ' ' && value[0] != '\t'
    ensures Blanks(blanks + value) == |blanks| && (blanks + value)[|blanks|..] == value
  {
    if blanks == "" {
      assert blanks + value == value;
    } else {
      assert blanks[0] in blanks && forall c :: c in blanks[1..] ==> c in blanks;
      BlanksAt(blanks[1..], value);
      assert (blanks + value)[1..] == blanks[1..] + value;
    }
  }

  /**
   * What one turn makes of a key between quotes, anything up to a colon, blanks and tabs, and a value: a text up to
   * the next quote, true for what starts with t, and no entry otherwise; the last two end at a comma or brace.
   */
  lemma TurnForms(lead: string, key: string, gap: string, blanks: string, value: string, rest: string)
    requires '"' !in lead && '"' !in key && ':' !in gap && forall c :: c in blanks ==> c == ' ' || c == '\t'
    requires value != "" && value[0] != ' ' && value[0] != '\t'
    ensures var t := lead + "\"" + (key + "\"" + (gap + ":" + (blanks + (value + rest))));
      && (value[0] != '"' && (forall c :: c in value ==> c != ',' && c != '}')
            && (rest == "" || rest[0] == ',' || rest[0] == '}') ==>
          Turn1(t) == if value[0] == 't' then Item(Entry(key, "true"), rest) else Skip(rest))
      && (|value| > 1 && value[0] == value[|value| - 1] == '"' && '"' !in value[1..|value| - 1] ==>
          Turn1(t) == Item(Entry(key, value[1..|value| - 1]), rest))
  {
    hide Find, ValueTurn, Blanks;
    var text := blanks + (value + rest);
    FindAt(lead, '"', key + "\"" + (gap + ":" + text));
    FindAt(key, '"', gap + ":" + text);
    FindAt(gap, ':', text);
    BlanksAt(blanks, value + rest);
    ValueForms(key, value, rest);
  }

  lemma ValueForms(key: string, value: string, rest: string)
    requires value != ""
    ensures value[0] != '"' && (forall c :: c in value ==> c != ',' && c != '}')
            && (rest == "" || rest[0] == ',' || rest[0] == '}') ==>
      ValueTurn(key, value + rest) == if value[0] == 't' then Item(Entry(key, "true"), rest) else Skip(rest)
    ensures |value| > 1 && value[0] == value[|value| - 1] == '"' && '"' !in value[1..|value| - 1] ==>
      ValueTurn(key, value + rest) == Item(Entry(key, value[1..|value| - 1]), rest)
  {
    hide Find, ValueEnd;
    if value[0] != '"' {
      if (forall c :: c in value ==> c != ',' && c != '}') && (rest == "" || rest[0] == ',' || rest[0] == '}') {
        ValueEndAt(value, rest);
      }
    } else if |value| > 1 && value[|value| - 1] == '"' && '"' !in value[1..|value| - 1] {
      var text := value[1..|value| - 1];
      assert (value + rest)[1..] == text + "\"" + rest;
      FindAt(text, '"', rest);
    }
  }

  /** A key printed between quotes and followed by a colon and a value is found, whatever precedes it. */
  lemma TurnKeyed(lead: string, key: string, value: string)
    requires '"' !in lead && '"' !in key && Blanks(value) == 0
    ensures Turn1(lead + "\"" + (key + "\"" + (":" + value))) == ValueTurn(key, value)
  {
    hide Find, ValueTurn, Blanks;
    FindAt(lead, '"', key + "\"" + (":" + value));
    FindAt(key, '"', ":" + value);
    FindAt("", ':', value);
    assert "" + ":" + value == ":" + value;
  }

  lemma TurnMember(lead: string, e: Entry, rest: string)
    requires '"' !in lead && '"' !in e.key && '"' !in e.val
    ensures Turn1(lead + Member(e) + rest) == Item(e, rest)
  {
    hide Find, Turn1;
    var value := "\"" + (e.val + "\"" + rest);
    assert lead + Member(e) + rest == lead + "\"" + (e.key + "\"" + (":" + value));
    TurnKeyed(lead, e.key, value);
    assert value[1..] == e.val + "\"" + rest;
    FindAt(e.val, '"', rest);
  }

  lemma TurnFlag(lead: string, key: string, rest: string)
    requires '"' !in lead && '"' !in key && (rest == "" || rest[0] == ',')
    ensures Turn1(lead + Flag(key) + rest) == Item(Entry(key, "true"), rest)
  {
    hide Turn1, ValueEnd;
    var value := "true" + rest;
    assert lead + Flag(key) + rest == lead + "\"" + (key + "\"" + (":" + value));
    TurnKeyed(lead, key, value);
    ValueEndAt("true", rest);
    assert value[4..] == rest;
  }

  lemma {:induction false} ValueEndAt(pre: string, rest: string)
    requires ',' !in pre && '}' !in pre && (rest == "" || rest[0] == ',' || rest[0] == '}')
    ensures ValueEnd(pre + rest) == |pre|
  {
    if pre == "" {
      assert pre + rest == rest;
    } else {
      ValueEndAt(pre[1..], rest);
      assert (pre + rest)[1..] == pre[1..] + rest;
      assert (pre + rest)[0] == pre[0] && pre[0] in pre;
    }
  }

  /** Scanning what was printed gives the entries back. */
  lemma {:induction false} PairsMembers(lead: string, es: seq<Entry>)
    requires '"' !in lead && CleanEntries(es)
    ensures Pairs(lead + Members(es)) == es
    decreases |es|
  {
    hide Turn1, Member;
    if es == [] {
      assert lead + Members(es) == lead;
      NoTurn(lead);
    } else {
      hide Members;
      assert es[0] in es;
      var rest := MoreMembers(es);
      MembersCons(lead, es, "");
      assert lead + Members(es) + "" == lead + Members(es) && rest + "" == rest;
      TurnMember(lead, es[0], rest);
      if |es| > 1 {
        assert forall e :: e in es[1..] ==> e in es;
        PairsMembers(",", es[1..]);
      } else {
        NoTurn("");
      }
      assert es == [es[0]] + es[1..];
    }
  }

  function Flagged(keys: seq<string>): seq<Entry> {
    if keys == [] then [] else [Entry(keys[0], "true")] + Flagged(keys[1..])
  }

  lemma {:induction false} FlaggedKeys(keys: seq<string>, k: string)
    ensures Entry(k, "true") in Flagged(keys) <==> k in keys
    ensures forall e :: e in Flagged(keys) ==> e.val == "true"
  {
    if keys != [] {
      FlaggedKeys(keys[1..], k);
    }
  }

  lemma {:induction false} PairsFlags(lead: string, keys: seq<string>)
    requires '"' !in lead && CleanKeys(keys)
    ensures Pairs(lead + Flags(keys)) == Flagged(keys)
    decreases |keys|
  {
    hide Turn1, Flag;
    if keys == [] {
      assert lead + Flags(keys) == lead;
      NoTurn(lead);
    } else {
      hide Flags;
      assert keys[0] in keys;
      var rest := MoreFlags(keys);
      FlagsCons(lead, keys, "");
      assert lead + Flags(keys) + "" == lead + Flags(keys) && rest + "" == rest;
      TurnFlag(lead, keys[0], rest);
      if |keys| > 1 {
        assert forall k :: k in keys[1..] ==> k in keys;
        PairsFlags(",", keys[1..]);
      } else {
        NoTurn("");
      }
    }
  }

  lemma NoTurn(lead: string)
    requires '"' !in lead
    ensures Turn1(lead) == Stop
  {
    assert Find(lead, '"') == |lead|;
  }

  /** Printed maps have no braces inside. */
  lemma {:induction false} MembersNoBrace(es: seq<Entry>)
    requires CleanEntries(es)
    ensures '{' !in Members(es) && '}' !in Members(es)
  {
    if es != [] {
      var init, last := es[..|es| - 1], es[|es| - 1];
      assert last in es && forall e :: e in init ==> e in es;
      MembersNoBrace(init);
      MemberNoBrace(last);
    }
  }

  lemma MemberNoBrace(e: Entry)
    requires Clean(e.key) && Clean(e.val)
    ensures '{' !in Member(e) && '}' !in Member(e)
  {
  }

  lemma {:induction false} FlagsNoBrace(keys: seq<string>)
    requires CleanKeys(keys)
    ensures '{' !in Flags(keys) && '}' !in Flags(keys)
  {
    if keys != [] {
      var init, last := keys[..|keys| - 1], keys[|keys| - 1];
      assert last in keys && forall k :: k in init ==> k in keys;
      FlagsNoBrace(init);
      FlagNoBrace(last);
    }
  }

  lemma FlagNoBrace(key: string)
    requires Clean(key)
    ensures '{' !in Flag(key) && '}' !in Flag(key)
  {
  }
}
