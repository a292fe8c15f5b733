/** Forwarding claims to a peer in request headers (cookbook_server.c). */
module Grid {
  import opened Wrappers
  import opened Text
  import opened JsonText
  import opened Buffer
  import opened Policy

  const BUFFER: nat := 2048

  /** The values of X-Cookbook-Grid-Grants and X-Cookbook-Grid-Exclude. */
  datatype Headers = Headers(grants: string, exclude: Option<string>)

  // ---- building the headers ----

  function Skip(t: string, cs: string): (r: string)
    ensures |r| <= |t| && (r != "" ==> r[0] !in cs)
  {
    if t != "" && t[0] in cs then Skip(t[1..], cs) else t
  }

  /** A key or value between quotes, and what follows. */
  datatype Cell = End | Cell(text: string, rest: string)

  function Quoted(t: string): (r: Cell)
    ensures r.Cell? ==> |r.rest| + 2 <= |t|
  {
    if t == "" || t[0] != '"' then End
    else
      var u := t[1..];
      var k := Find(u, '"');
      if k == |u| then End else Cell(u[..k], u[k + 1..])
  }

  /** The grants the builder reads from the text after the opening brace. */
  function Cells(t: string): seq<Entry>
    decreases |t|
  {
    if t == "" || t[0] == '}' then []
    else
      var key := Quoted(Skip(t, " \n,"));
      if key.End? then []
      else
        var val := Quoted(Skip(key.rest, " :"));
        if val.End? then [] else [Entry(key.text, val.text)] + Cells(val.rest)
  }

  /** The excluded keys the builder reads. */
  function Keys(t: string): seq<string>
    decreases |t|
  {
    if t == "" || t[0] == '}' then []
    else
      var key := Quoted(Skip(t, " \n,"));
      if key.End? then [] else [key.text] + Keys(key.rest[ValueEnd(key.rest)..])
  }

  function Colon(e: Entry): string {
    e.key + ":" + e.val
  }

  function Colons(es: seq<Entry>): seq<string> {
    if es == [] then [] else [Colon(es[0])] + Colons(es[1..])
  }

  /** Comma-separated. */
  function Commas(parts: seq<string>): string {
    if parts == [] then "" else if |parts| == 1 then parts[0] else parts[0] + "," + Commas(parts[1..])
  }

  function AfterBrace(json: string): string {
    var k := Find(json, '{');
    if k == |json| then "" else json[k + 1..]
  }

  function Build(grants: string, exclude: Option<string>): Headers {
    Headers(Commas(Colons(Cells(AfterBrace(grants)))),
            if exclude.Some? then Some(Commas(Keys(AfterBrace(exclude.value)))) else None)
  }

  /** The two header lines. */
  function HeaderText(h: Headers): string {
    GrantsLine(h.grants) + (if h.exclude.Some? then ExcludeLine(h.exclude.value) else "")
  }

  function GrantsLine(v: string): string {
    "X-Cookbook-Grid-Grants: " + v + "\r\n"
  }

  function ExcludeLine(v: string): string {
    "X-Cookbook-Grid-Exclude: " + v + "\r\n"
  }

  // ---- reading them back ----

  /** strtok on commas: empty tokens are passed over. */
  function Tokens(t: string): seq<string>
    decreases |t|
  {
    if t == "" then []
    else
      var k := Find(t, ',');
      if k == 0 then Tokens(t[1..]) else [t[..k]] + Tokens(t[k..])
  }

  /** A token without a colon is dropped. */
  function TokenEntry(tok: string): seq<Entry> {
    var u := Skip(tok, " ");
    var c := Find(u, ':');
    if c == |u| then [] else [Entry(u[..c], u[c + 1..])]
  }

  function TokenEntries(toks: seq<string>): seq<Entry> {
    if toks == [] then [] else TokenEntry(toks[0]) + TokenEntries(toks[1..])
  }

  function TokenKeys(toks: seq<string>): seq<string> {
    if toks == [] then [] else [Skip(toks[0], " ")] + TokenKeys(toks[1..])
  }

  /** parse_grid_grants_header: a missing or empty header gives nothing. */
  function ParseGrants(h: Option<string>): Option<string> {
    if h.None? || h.value == "" then None else Some(Bare(TokenEntries(Tokens(Cut(h.value, BUFFER - 1)))))
  }

  /** What the readers allocate for their text. */
  function ReadCap(h: string): nat {
    3 * |h| + 16
  }

  /** The reader's buffer after the loop over the keys. */
  function FlagBuf(keys: seq<string>, cap: nat): Buf {
    if keys == [] then Store(Empty, cap, '{')
    else
      var b := FlagBuf(keys[..|keys| - 1], cap);
      Print(if |keys| > 1 then Store(b, cap, ',') else b, cap, Flag(keys[|keys| - 1]))
  }

  function FlagText(keys: seq<string>, cap: nat): string {
    Store(FlagBuf(keys, cap), cap, '}').text
  }

  /** parse_grid_exclude_header: what the buffer holds of the rebuilt map. */
  function ParseExclude(h: Option<string>): Option<string> {
    if h.None? || h.value == "" then None
    else Some(FlagText(TokenKeys(Tokens(Cut(h.value, BUFFER - 1))), ReadCap(h.value)))
  }

  // ---- header fields ----

  /** One header of a request, as the web server hands it over. */
  datatype Field = Field(name: string, value: string)

  /** The fields of a header text: each line is a name, a colon, and a value behind blanks. */
  function Fields(text: string): seq<Field>
    decreases |text|
  {
    var k := IndexOf(text, "\r\n", 0);
    if k < 0 then [] else [FieldOf(text[..k])] + Fields(text[k + 2..])
  }

  function FieldOf(line: string): Field {
    var c := Find(line, ':');
    Field(line[..c], if c < |line| then Skip(line[c + 1..], " ") else "")
  }

  function Lower(c: char): char {
    if 'A' <= c <= 'Z' then (c as int + 32) as char else c
  }

  /** strcasecmp gives 0. */
  predicate SameName(x: string, y: string) {
    |x| == |y| && forall i :: 0 <= i < |x| ==> Lower(x[i]) == Lower(y[i])
  }

  /** The value of the first field of that name. */
  function HeaderValue(fields: seq<Field>, name: string): Option<string> {
    if fields == [] then None
    else if SameName(fields[0].name, name) then Some(fields[0].value)
    else HeaderValue(fields[1..], name)
  }

  /** check_grid_auth: without grants the peer is open. */
  ghost predicate GridAllows(fields: seq<Field>, group: string, op: char) {
    var grants := ParseGrants(HeaderValue(fields, "X-Cookbook-Grid-Grants"));
    grants.None? || Permitted(grants.value, ParseExclude(HeaderValue(fields, "X-Cookbook-Grid-Exclude")), group, op)
  }

  /** The fields in which the claims arrive. */
  function Arrived(grants: string, exclude: Option<string>): seq<Field> {
    Fields(HeaderText(Build(grants, exclude)))
  }

  // ---- the loops ----

  method SkipFrom(s: string, i: nat, cs: string) returns (k: nat)
    requires i <= |s|
    ensures i <= k <= |s| && s[k..] == Skip(s[i..], cs)
  {
    k := i;
    while k < |s| && s[k] in cs
      invariant i <= k <= |s| && Skip(s[i..], cs) == Skip(s[k..], cs)
    {
      assert s[k..][1..] == s[k + 1..];
      k := k + 1;
    }
  }

  method ReadQuoted(s: string, i: nat) returns (ok: bool, text: string, next: nat)
    requires i <= |s|
    ensures i <= next <= |s| && (ok ==> i < next)
    ensures Quoted(s[i..]) == if ok then Cell(text, s[next..]) else End
  {
    hide Find;
    ok, text, next := false, "", i;
    if i == |s| || s[i] != '"' {
      return;
    }
    Suffix(s, i, 1);
    var k := Seek(s, i + 1, '"');
    if k == |s| {
      return;
    }
    Suffix(s, i + 1, k - i - 1);
    Suffix(s, i + 1, k - i);
    ok, text, next := true, s[i + 1..k], k + 1;
  }

  lemma {:induction false} CommasSnoc(parts: seq<string>, p: string)
    ensures Commas(parts + [p]) == if parts == [] then p else Commas(parts) + "," + p
  {
    hide Commas;
    if parts == [] {
      OnePart(p);
      assert parts + [p] == [p];
    } else {
      FirstPart(parts + [p]);
      CommasSnoc(parts[1..], p);
      assert (parts + [p])[1..] == parts[1..] + [p];
      if |parts| == 1 {
        OnePart(parts[0]);
        assert parts == [parts[0]];
      } else {
        FirstPart(parts);
      }
    }
  }

  lemma OnePart(p: string)
    ensures Commas([p]) == p
  {
  }

  lemma FirstPart(parts: seq<string>)
    requires |parts| > 1
    ensures Commas(parts) == parts[0] + "," + Commas(parts[1..])
  {
  }

  lemma {:induction false} ColonsSnoc(es: seq<Entry>, e: Entry)
    ensures Colons(es + [e]) == Colons(es) + [Colon(e)]
    ensures Colons(es) == [] <==> es == []
  {
    if es != [] {
      ColonsSnoc(es[1..], e);
      assert (es + [e])[1..] == es[1..] + [e];
    }
  }

  function BraceIndex(json: string): (k: nat)
    ensures k <= |json| && json[k..] == AfterBrace(json)
  {
    var k := Find(json, '{');
    if k == |json| then k else k + 1
  }

  /** The comma before an entry is only stored inside the buffer. */
  function Comma(b: Buf): Buf {
    if b.pos < BUFFER then Store(b, BUFFER, ',') else b
  }

  lemma CommaHolds(b: Buf, full: string)
    requires Holds(b, BUFFER, full)
    ensures Holds(Comma(b), BUFFER, full + ",")
  {
    if |full| < BUFFER {
      StoreHolds(b, BUFFER, full, ',');
    }
  }

  /** One more part after those already written. */
  method WritePart(b0: Buf, first: bool, part: string, ghost pre: string, ghost parts: seq<string>) returns (b: Buf)
    requires Holds(b0, BUFFER, pre + Commas(parts)) && first == (parts == [])
    ensures Holds(b, BUFFER, pre + Commas(parts + [part]))
  {
    hide Commas, Print, Holds, Comma;
    b := b0;
    ghost var full := pre + Commas(parts);
    NextPart(pre, parts, part, full);
    if !first {
      CommaHolds(b, full);
      b := Comma(b);
      full := full + ",";
    }
    PrintHolds(b, BUFFER, full, part);
    b := Print(b, BUFFER, part);
  }

  lemma NextPart(pre: string, parts: seq<string>, part: string, full: string)
    requires full == pre + Commas(parts)
    ensures pre + Commas(parts + [part]) == if parts == [] then full + part else full + "," + part
  {
    hide Commas;
    CommasSnoc(parts, part);
    EmptyStart(part);
    if parts == [] {
      NoParts();
      assert full == pre;
    } else {
      assert pre + (Commas(parts) + "," + part) == full + "," + part;
    }
  }

  lemma NoParts()
    ensures Commas([]) == ""
  {
  }

  /** The grants part of build_grid_grant_headers. */
  method WriteGrants(b0: Buf, json: string, ghost pre: string) returns (b: Buf)
    requires Holds(b0, BUFFER, pre)
    ensures Holds(b, BUFFER, pre + Commas(Colons(Cells(AfterBrace(json)))))
  {
    hide Skip, Quoted, Commas, Colons, AfterBrace, Find, Colon, Holds;
    b := b0;
    var p, first := BraceIndex(json), true;
    ghost var done: seq<Entry>, all := [], Cells(json[p..]);
    NothingYet();
    assert pre + "" == pre;
    while p < |json| && json[p] != '}'
      invariant p <= |json| && all == done + Cells(json[p..])
      invariant Holds(b, BUFFER, pre + Commas(Colons(done))) && first == (done == [])
    {
      ghost var todo := Cells(json[p..]);
      var q := SkipFrom(json, p, " \n,");
      var ok, key, r := ReadQuoted(json, q);
      if !ok {
        assert todo == [] && all == done;
        return;
      }
      r := SkipFrom(json, r, " :");
      var okv, val, next := ReadQuoted(json, r);
      if !okv {
        assert todo == [] && all == done;
        return;
      }
      var e := Entry(key, val);
      assert todo == [e] + Cells(json[next..]);
      ColonsSnoc(done, e);
      b := WritePart(b, first, Colon(e), pre, Colons(done));
      done := done + [e];
      first := false;
      p := next;
    }
    assert Cells(json[p..]) == [] && all == done;
  }

  lemma NothingYet()
    ensures Commas(Colons([])) == "" && Commas([]) == ""
  {
  }

  lemma EmptyStart(t: string)
    ensures "" + t == t && Commas(Colons([])) == "" && Commas([]) == ""
  {
  }

  /** The exclude part. */
  method WriteExclude(b0: Buf, json: string, ghost pre: string) returns (b: Buf)
    requires Holds(b0, BUFFER, pre)
    ensures Holds(b, BUFFER, pre + Commas(Keys(AfterBrace(json))))
  {
    hide Skip, Quoted, Commas, AfterBrace, Find, ValueEnd, Holds;
    b := b0;
    var p, first := BraceIndex(json), true;
    ghost var done: seq<string>, all := [], Keys(json[p..]);
    NothingYet();
    assert pre + "" == pre;
    while p < |json| && json[p] != '}'
      invariant p <= |json| && all == done + Keys(json[p..])
      invariant Holds(b, BUFFER, pre + Commas(done)) && first == (done == [])
    {
      ghost var todo := Keys(json[p..]);
      var q := SkipFrom(json, p, " \n,");
      var ok, key, r := ReadQuoted(json, q);
      if !ok {
        assert todo == [] && all == done;
        return;
      }
      var next := SeekEnd(json, r);
      Suffix(json, r, next - r);
      assert todo == [key] + Keys(json[next..]);
      b := WritePart(b, first, key, pre, done);
      done := done + [key];
      first := false;
      p := next;
    }
    assert Keys(json[p..]) == [] && all == done;
  }

  /** What a buffer of this size shows of a text: all of it, or too little. */
  predicate Shown(text: string, full: string) {
    if |full| < BUFFER then text == full else text <= full && |text| < |full|
  }

  /** build_grid_grant_headers: for version 2 claims with grants the two lines, whole exactly when they fit. */
  method BuildHeaders(version: int, grants: Option<string>, exclude: Option<string>) returns (text: Option<string>)
    ensures text.Some? <==> version == 2 && grants.Some?
    ensures text.Some? ==>
      var full := HeaderText(Build(grants.value, exclude));
      if |full| < 2048 then text.value == full else text.value <= full && |text.value| < |full|
  {
    hide Cells, Keys, Commas, Colons, AfterBrace, Print, Holds;
    if version != 2 || grants.None? {
      return None;
    }
    EmptyHolds(BUFFER);
    var b := WriteLine(Empty, "X-Cookbook-Grid-Grants: ", "");
    b := WriteGrants(b, grants.value, "" + "X-Cookbook-Grid-Grants: ");
    ghost var g, x := Commas(Colons(Cells(AfterBrace(grants.value)))), "";
    b := WriteLine(b, "\r\n", "" + "X-Cookbook-Grid-Grants: " + g);
    ghost var full := "" + "X-Cookbook-Grid-Grants: " + g + "\r\n";
    assert full == GrantsLine(g);
    if exclude.Some? {
      x := Commas(Keys(AfterBrace(exclude.value)));
      b := WriteLine(b, "X-Cookbook-Grid-Exclude: ", full);
      b := WriteExclude(b, exclude.value, full + "X-Cookbook-Grid-Exclude: ");
      b := WriteLine(b, "\r\n", full + "X-Cookbook-Grid-Exclude: " + x);
      assert full + "X-Cookbook-Grid-Exclude: " + x + "\r\n" == full + ExcludeLine(x);
    }
    return Some(b.text);
  }

  method WriteLine(b0: Buf, s: string, ghost full: string) returns (b: Buf)
    requires Holds(b0, BUFFER, full) && s != ""
    ensures Holds(b, BUFFER, full + s) && Shown(b.text, full + s)
  {
    PrintHolds(b0, BUFFER, full, s);
    b := Print(b0, BUFFER, s);
  }

  method SkipCommas(s: string, i: nat) returns (k: nat)
    requires i <= |s|
    ensures i <= k <= |s| && Tokens(s[i..]) == Tokens(s[k..]) && (k < |s| ==> s[k] != ',')
  {
    k := i;
    while k < |s| && s[k] == ','
      invariant i <= k <= |s| && Tokens(s[i..]) == Tokens(s[k..])
    {
      assert s[k..][1..] == s[k + 1..];
      k := k + 1;
    }
  }

  /** strtok_r's next token from index i, if any. */
  method NextToken(s: string, i: nat) returns (ok: bool, tok: string, next: nat)
    requires i <= |s|
    ensures i <= next <= |s| && (ok ==> 0 < |tok| <= next - i && (next < |s| ==> s[next] == ','))
    ensures ok && s[i] == ',' ==> |tok| < next - i
    ensures Tokens(s[i..]) == if ok then [tok] + Tokens(s[next..]) else []
  {
    hide Find;
    ok, tok, next := false, "", i;
    next := SkipCommas(s, i);
    if next == |s| {
      return;
    }
    var k := Seek(s, next, ',');
    Suffix(s, next, k - next);
    ok, tok, next := true, s[next..k], k;
  }

  lemma {:induction false} EntriesSnoc(toks: seq<string>, tok: string)
    ensures TokenEntries(toks + [tok]) == TokenEntries(toks) + TokenEntry(tok)
  {
    hide TokenEntry;
    if toks == [] {
      assert toks + [tok] == [tok] && [tok][1..] == [];
    } else {
      EntriesSnoc(toks[1..], tok);
      assert (toks + [tok])[1..] == toks[1..] + [tok];
    }
  }

  lemma {:induction false} KeysSnoc(toks: seq<string>, tok: string)
    ensures TokenKeys(toks + [tok]) == TokenKeys(toks) + [Skip(tok, " ")]
    ensures TokenKeys(toks) == [] <==> toks == []
  {
    hide Skip;
    if toks != [] {
      KeysSnoc(toks[1..], tok);
      assert (toks + [tok])[1..] == toks[1..] + [tok];
    }
  }

  /** One more member in the reader's buffer, which never gets near its end. */
  method ReadMember(b0: Buf, cap: nat, e: Entry, first: bool, ghost es: seq<Entry>) returns (b: Buf)
    requires first == (es == [])
    requires b0 == Buf("{" + Members(es), 1 + |Members(es)|) && 2 + |Members(es)| + |e.key| + |e.val| + 6 < cap
    ensures b == Buf("{" + Members(es + [e]), 1 + |Members(es + [e])|)
    ensures |Members(es + [e])| <= |Members(es)| + |e.key| + |e.val| + 6
    ensures es == [] ==> |Members(es + [e])| == |e.key| + |e.val| + 5
  {
    AppendMember(es, e);
    FrontText(Member(e));
    MemberLength(e);
    NoMembers();
    hide Members, Member;
    b := b0;
    if !first {
      b := Store(b, cap, ',');
    }
    b := Print(b, cap, Member(e));
    assert b.text == "{" + Members(es + [e]);
  }

  /** How much the members can have grown over i characters of header. */
  ghost predicate Slack(n: nat, i: nat) {
    n <= 3 * i + 2
  }

  /** parse_grid_grants_header: the rebuilt map always fits its buffer. */
  method ReadGrants(h: Option<string>) returns (json: Option<string>)
    ensures json == ParseGrants(h)
  {
    hide Tokens, TokenEntries, Members, Find, Skip, Member;
    if h.None? || h.value == "" {
      return None;
    }
    var buf, cap := Cut(h.value, BUFFER - 1), ReadCap(h.value);
    var b, i, first := Store(Empty, cap, '{'), 0, true;
    ghost var seen: seq<string>, es: seq<Entry> := [], [];
    StartTokens();
    assert buf[0..] == buf;
    assert b == Buf("{" + Members(es), 1 + |Members(es)|);
    while true
      invariant i <= |buf| && Tokens(buf) == seen + Tokens(buf[i..]) && (0 < i < |buf| ==> buf[i] == ',')
      invariant es == TokenEntries(seen) && b == Buf("{" + Members(es), 1 + |Members(es)|)
      invariant Slack(|Members(es)|, i) && (i == 0 ==> es == []) && first == (es == [])
      decreases |buf| - i
    {
      ghost var todo := Tokens(buf[i..]);
      var ok, tok, next := NextToken(buf, i);
      if !ok {
        assert Tokens(buf) == seen;
        b := Store(b, cap, '}');
        return Some(b.text);
      }
      EntriesSnoc(seen, tok);
      var e := TokenMember(tok);
      if e.Some? {
        b := ReadMember(b, cap, e.value, first, es);
        es, first := es + [e.value], false;
      }
      assert Tokens(buf) == seen + [tok] + Tokens(buf[next..]);
      seen := seen + [tok];
      i := next;
    }
  }

  /** Splits a token at its first colon. */
  method TokenMember(tok: string) returns (e: Option<Entry>)
    ensures TokenEntry(tok) == if e.Some? then [e.value] else []
    ensures e.Some? ==> |e.value.key| + |e.value.val| + 1 <= |tok|
  {
    hide Find, Skip;
    var t := SkipFrom(tok, 0, " ");
    assert tok[0..] == tok;
    var c := Seek(tok, t, ':');
    Suffix(tok, t, c - t);
    if c == |tok| {
      return None;
    }
    Suffix(tok, t, c - t + 1);
    return Some(Entry(tok[t..c], tok[c + 1..]));
  }

  lemma StartTokens()
    ensures TokenEntries([]) == [] && TokenKeys([]) == [] && Members([]) == "" && Flags([]) == ""
  {
  }

  lemma FrontText(t: string)
    ensures "" + t == t && Members([]) == "" && Flags([]) == ""
  {
  }

  lemma FlagBufSnoc(keys: seq<string>, key: string, cap: nat)
    ensures FlagBuf(keys + [key], cap)
      == Print(if keys != [] then Store(FlagBuf(keys, cap), cap, ',') else FlagBuf(keys, cap), cap, Flag(key))
  {
    hide Flag;
    assert (keys + [key])[..|keys|] == keys;
  }

  /** The map the exclude reader sets out to build. */
  function Rebuilt(h: string): string {
    BareFlags(TokenKeys(Tokens(Cut(h, BUFFER - 1))))
  }

  /** parse_grid_exclude_header: the rebuilt map, or less of it when it is longer than the buffer. */
  method ReadExclude(h: Option<string>) returns (json: Option<string>)
    ensures json == ParseExclude(h)
    ensures json.Some? <==> h.Some? && h.value != ""
    ensures json.Some? && |Rebuilt(h.value)| <= ReadCap(h.value) ==> json.value == Rebuilt(h.value)
    ensures json.Some? && |Rebuilt(h.value)| > ReadCap(h.value) ==> json.value < Rebuilt(h.value)
  {
    hide Tokens, TokenKeys, FlagBuf, Skip, Flag, BareFlags;
    if h.None? || h.value == "" {
      return None;
    }
    var buf, cap := Cut(h.value, BUFFER - 1), ReadCap(h.value);
    var b, i, first := Store(Empty, cap, '{'), 0, true;
    ghost var seen: seq<string> := [];
    StartTokens();
    StartFlags(cap);
    assert buf[0..] == buf;
    while true
      invariant i <= |buf| && Tokens(buf) == seen + Tokens(buf[i..])
      invariant b == FlagBuf(TokenKeys(seen), cap) && first == (seen == [])
      decreases |buf| - i
    {
      ghost var todo := Tokens(buf[i..]);
      var ok, tok, next := NextToken(buf, i);
      if !ok {
        assert Tokens(buf) == seen;
        FlagTextExact(TokenKeys(seen), cap);
        b := Store(b, cap, '}');
        return Some(b.text);
      }
      KeysSnoc(seen, tok);
      var t := SkipFrom(tok, 0, " ");
      assert tok[0..] == tok;
      FlagBufSnoc(TokenKeys(seen), tok[t..], cap);
      if !first {
        b := Store(b, cap, ',');
      }
      b := Print(b, cap, Flag(tok[t..]));
      assert Tokens(buf) == seen + [tok] + Tokens(buf[next..]);
      seen, first := seen + [tok], false;
      i := next;
    }
  }

  lemma StartFlags(cap: nat)
    ensures FlagBuf([], cap) == Store(Empty, cap, '{')
  {
  }

  lemma {:induction false} FlagBufHolds(keys: seq<string>, cap: nat)
    requires cap > 1
    ensures Holds(FlagBuf(keys, cap), cap, "{" + Flags(keys)) && "{" <= FlagBuf(keys, cap).text
  {
    hide Flag, Flags, Print, Store, Holds, FlagBuf;
    if keys == [] {
      StartFlags(cap);
      BraceHolds(cap);
    } else {
      var init, last := keys[..|keys| - 1], keys[|keys| - 1];
      FlagBufHolds(init, cap);
      FlagBufSnoc(init, last, cap);
      FlagStep(FlagBuf(init, cap), cap, "{" + Flags(init), init == [], Flag(last));
      assert keys == init + [last];
      AppendFlag(init, last);
      BraceFront(Flags(init), Flag(last), init == []);
    }
  }

  lemma BraceHolds(cap: nat)
    requires cap > 1
    ensures Holds(Store(Empty, cap, '{'), cap, "{" + Flags([])) && "{" <= Store(Empty, cap, '{').text
  {
    assert "{" + Flags([]) == "{";
  }

  lemma BraceFront(f: string, g: string, first: bool)
    requires first ==> f == Flags([])
    ensures (if first then "{" + f else "{" + f + ",") + g == "{" + (if first then g else f + "," + g)
  {
    if first {
      assert "{" + f == "{";
    }
  }

  lemma FlagStep(b: Buf, cap: nat, full: string, first: bool, flag: string)
    requires Holds(b, cap, full) && "{" <= b.text
    ensures var c := Print(if first then b else Store(b, cap, ','), cap, flag);
      Holds(c, cap, (if first then full else full + ",") + flag) && "{" <= c.text
  {
    StoreHolds(b, cap, full, ',');
    var d, f := if first then b else Store(b, cap, ','), if first then full else full + ",";
    PrintHolds(d, cap, f, flag);
  }

  /** The reader's text is the whole map exactly when it is no longer than the buffer; else its end is missing. */
  lemma FlagTextExact(keys: seq<string>, cap: nat)
    requires cap > 1
    ensures |BareFlags(keys)| <= cap ==> FlagText(keys, cap) == BareFlags(keys)
    ensures |BareFlags(keys)| > cap ==>
      "{" <= FlagText(keys, cap) <= "{" + Flags(keys) && FlagText(keys, cap) < BareFlags(keys)
  {
    hide FlagBuf, Flags;
    FlagBufHolds(keys, cap);
    var full := "{" + Flags(keys);
    StoreHolds(FlagBuf(keys, cap), cap, full, '}');
  }

  /** The loop over the request's headers. */
  method FindHeader(fields: seq<Field>, name: string) returns (value: Option<string>)
    ensures value == HeaderValue(fields, name)
    ensures value.None? ==> forall f :: f in fields ==> !SameName(f.name, name)
    ensures value.Some? ==> exists i ::
      && 0 <= i < |fields| && SameName(fields[i].name, name) && value.value == fields[i].value
      && forall j :: 0 <= j < i ==> !SameName(fields[j].name, name)
  {
    hide SameName;
    assert fields[0..] == fields;
    for i := 0 to |fields|
      invariant HeaderValue(fields, name) == HeaderValue(fields[i..], name)
      invariant forall j :: 0 <= j < i ==> !SameName(fields[j].name, name)
    {
      var same := CompareNames(fields[i].name, name);
      if same {
        return Some(fields[i].value);
      }
      assert fields[i..][1..] == fields[i + 1..];
    }
    return None;
  }

  /** strcasecmp */
  method CompareNames(x: string, y: string) returns (same: bool)
    ensures same == SameName(x, y)
  {
    if |x| != |y| {
      return false;
    }
    for i := 0 to |x|
      invariant forall j :: 0 <= j < i ==> Lower(x[j]) == Lower(y[j])
    {
      if Lower(x[i]) != Lower(y[i]) {
        return false;
      }
    }
    return true;
  }

  /** check_grid_auth */
  method CheckGridAuth(fields: seq<Field>, group: string, op: char) returns (ok: bool)
    ensures ok <==> GridAllows(fields, group, op)
  {
    hide ParseGrants, ParseExclude, Permitted, HeaderValue;
    var value := FindHeader(fields, "X-Cookbook-Grid-Grants");
    var grants := ReadGrants(value);
    if grants.None? {
      return true;
    }
    value := FindHeader(fields, "X-Cookbook-Grid-Exclude");
    var exclude := ReadExclude(value);
    ok := AuthCheck(grants, exclude, group, op);
  }

  // ---- the fields arrive ----

  lemma FirstField(line: string, rest: string)
    requires '\n' !in line
    ensures Fields(line + "\r\n" + rest) == [FieldOf(line)] + Fields(rest)
  {
    hide FieldOf;
    var t, k := line + "\r\n" + rest, |line|;
    assert t[k..k + 2] == "\r\n" && t[..k] == line && t[k + 2..] == rest;
    forall j | 0 <= j < k
      ensures !OccursAt(t, "\r\n", j)
    {
      assert t[j + 1] == if j + 1 < k then line[j + 1] else '\r';
      assert t[j..j + 2][1] == t[j + 1] != '\n';
    }
    IndexFirst(t, "\r\n", 0, k);
    hide IndexOf;
  }

  lemma NoFields()
    ensures Fields("") == []
  {
  }

  /** A value that does not start with a blank stands behind its name. */
  lemma NamedField(name: string, v: string)
    requires ':' !in name && (v != "" ==> v[0] != ' ')
    ensures FieldOf(name + ": " + v) == Field(name, v)
  {
    hide Find;
    assert name + ": " + v == name + ":" + (" " + v);
    FindAt(name, ':', " " + v);
    SkipOne(' ', v, " ");
  }

  /** What a header can carry: no line end, and no blank in front. */
  predicate Carried(v: string) {
    '\n' !in v && (v != "" ==> v[0] != ' ')
  }

  /** One printed line. */
  lemma LineField(name: string, start: string, v: string, rest: string)
    requires ':' !in name && '\n' !in name && start == name + ": " && Carried(v)
    ensures Fields(start + v + "\r\n" + rest) == [Field(name, v)] + Fields(rest)
  {
    hide Fields, FieldOf;
    NamedField(name, v);
    FirstField(start + v, rest);
  }

  lemma GrantsField(g: string, rest: string)
    requires Carried(g)
    ensures Fields(GrantsLine(g) + rest) == [Field("X-Cookbook-Grid-Grants", g)] + Fields(rest)
  {
    hide Fields;
    LineField("X-Cookbook-Grid-Grants", "X-Cookbook-Grid-Grants: ", g, rest);
  }

  lemma ExcludeField(x: string, rest: string)
    requires Carried(x)
    ensures Fields(ExcludeLine(x) + rest) == [Field("X-Cookbook-Grid-Exclude", x)] + Fields(rest)
  {
    hide Fields;
    LineField("X-Cookbook-Grid-Exclude", "X-Cookbook-Grid-Exclude: ", x, rest);
  }

  /** The peer's lookups find the two values in the header text, whatever case the names are asked for in. */
  lemma HeadersFound(h: Headers, name: string)
    requires Carried(h.grants) && (h.exclude.Some? ==> Carried(h.exclude.value))
    ensures SameName("x-cookbook-grid-grants", name) ==> HeaderValue(Fields(HeaderText(h)), name) == Some(h.grants)
    ensures SameName("x-cookbook-grid-exclude", name) ==> HeaderValue(Fields(HeaderText(h)), name) == h.exclude
  {
    hide Fields, GrantsLine, ExcludeLine, Carried;
    NoFields();
    var e := if h.exclude.Some? then ExcludeLine(h.exclude.value) else "";
    GrantsField(h.grants, e);
    if h.exclude.Some? {
      ExcludeField(h.exclude.value, "");
      assert e + "" == e;
    }
    TwoNames(name);
    hide SameName;
    TwoFields(h, name);
  }

  lemma TwoNames(name: string)
    ensures SameName("x-cookbook-grid-grants", name) <==> SameName("X-Cookbook-Grid-Grants", name)
    ensures SameName("x-cookbook-grid-exclude", name) <==> SameName("X-Cookbook-Grid-Exclude", name)
    ensures !(SameName("X-Cookbook-Grid-Grants", name) && SameName("X-Cookbook-Grid-Exclude", name))
  {
    LowerNames();
  }

  lemma LowerNames()
    ensures SameName("x-cookbook-grid-grants", "X-Cookbook-Grid-Grants")
    ensures SameName("x-cookbook-grid-exclude", "X-Cookbook-Grid-Exclude")
  {
    hide SameName;
    GrantsName();
    ExcludeName();
  }

  lemma GrantsName()
    ensures SameName("x-cookbook-grid-grants", "X-Cookbook-Grid-Grants")
  {
  }

  lemma ExcludeName()
    ensures SameName("x-cookbook-grid-exclude", "X-Cookbook-Grid-Exclude")
  {
  }

  lemma TwoFields(h: Headers, name: string)
    requires Fields(HeaderText(h)) == [Field("X-Cookbook-Grid-Grants", h.grants)]
      + if h.exclude.Some? then [Field("X-Cookbook-Grid-Exclude", h.exclude.value)] else []
    requires !(SameName("X-Cookbook-Grid-Grants", name) && SameName("X-Cookbook-Grid-Exclude", name))
    ensures SameName("X-Cookbook-Grid-Grants", name) ==> HeaderValue(Fields(HeaderText(h)), name) == Some(h.grants)
    ensures SameName("X-Cookbook-Grid-Exclude", name) ==> HeaderValue(Fields(HeaderText(h)), name) == h.exclude
  {
    hide Fields, HeaderText, SameName;
    var f := Fields(HeaderText(h));
    assert f[0] == Field("X-Cookbook-Grid-Grants", h.grants);
    if h.exclude.Some? {
      assert f[1..] == [Field("X-Cookbook-Grid-Exclude", h.exclude.value)];
    } else {
      assert f[1..] == [];
    }
  }

  lemma {:induction false} CommasCarried(parts: seq<string>)
    requires forall p :: p in parts ==> ' ' !in p && '\n' !in p
    ensures ' ' !in Commas(parts) && '\n' !in Commas(parts)
  {
    if parts != [] {
      assert parts[0] in parts && forall p :: p in parts[1..] ==> p in parts;
      CommasCarried(parts[1..]);
    }
  }

  lemma {:induction false} ColonsPlain(es: seq<Entry>)
    requires forall e :: e in es ==> Plain(e.key) && Plain(e.val)
    ensures forall p :: p in Colons(es) ==> ' ' !in p && '\n' !in p
  {
    if es != [] {
      assert es[0] in es && forall e :: e in es[1..] ==> e in es;
      ColonsPlain(es[1..]);
    }
  }

  /** The printed claims arrive as their two values. */
  lemma HeadersArrive(es: seq<Entry>, keys: seq<string>)
    requires PlainEntries(es) && PlainKeys(keys)
    ensures var f := Arrived(Bare(es), Some(BareFlags(keys)));
      && HeaderValue(f, "X-Cookbook-Grid-Grants") == Some(GrantHeader(es))
      && HeaderValue(f, "X-Cookbook-Grid-Exclude") == Some(Commas(keys))
    ensures var f := Arrived(Bare(es), None);
      && HeaderValue(f, "X-Cookbook-Grid-Grants") == Some(GrantHeader(es))
      && HeaderValue(f, "X-Cookbook-Grid-Exclude") == None
  {
    hide Bare, BareFlags, Build, Commas, Colons, Clean, Fields, HeaderText, HeaderValue, Keyed, SameName;
    PlainPrintable(es, keys);
    CleanParts(es, keys);
    BuildPrinted(es, keys);
    ColonsPlain(es);
    CommasCarried(Colons(es));
    CommasCarried(keys);
    LowerNames();
    var g, x := GrantHeader(es), Commas(keys);
    HeadersFound(Headers(g, Some(x)), "X-Cookbook-Grid-Grants");
    HeadersFound(Headers(g, Some(x)), "X-Cookbook-Grid-Exclude");
    HeadersFound(Headers(g, None), "X-Cookbook-Grid-Grants");
    HeadersFound(Headers(g, None), "X-Cookbook-Grid-Exclude");
  }

  // ---- the hop keeps the texts ----

  /** None of the characters the two formats give a meaning to. */
  predicate Plain(s: string) {
    Clean(s) && ',' !in s && ':' !in s && ' ' !in s && '\n' !in s
  }

  ghost predicate PlainEntries(es: seq<Entry>) {
    Keyed(es) && forall e :: e in es ==> Plain(e.key) && Plain(e.val)
  }

  ghost predicate PlainKeys(keys: seq<string>) {
    forall k :: k in keys ==> Plain(k) && k != ""
  }

  lemma QuotedText(text: string, rest: string)
    requires '"' !in text
    ensures Quoted("\"" + text + "\"" + rest) == Cell(text, rest)
  {
    hide Find;
    var t := "\"" + text + "\"" + rest;
    assert t[1..] == text + "\"" + rest;
    FindAt(text, '"', rest);
  }

  lemma SkipNone(t: string, cs: string)
    requires t != "" && t[0] !in cs
    ensures Skip(t, cs) == t
  {
  }

  lemma SkipOne(c: char, t: string, cs: string)
    requires c in cs && (t == "" || t[0] !in cs)
    ensures Skip([c] + t, cs) == t
  {
    assert ([c] + t)[1..] == t;
  }

  lemma {:induction false} SkipAll(pre: string, t: string, cs: string)
    requires (forall c :: c in pre ==> c in cs) && (t == "" || t[0] !in cs)
    ensures Skip(pre + t, cs) == t
  {
    if pre == "" {
      assert pre + t == t;
    } else {
      assert pre[0] in pre && forall c :: c in pre[1..] ==> c in pre;
      SkipAll(pre[1..], t, cs);
      assert (pre + t)[1..] == pre[1..] + t;
    }
  }

  /** The builder's reading of an entry: blanks, line ends and commas before it, blanks and colons inside it. */
  lemma CellForm(pre: string, e: Entry, mid: string, rest: string)
    requires (forall c :: c in pre ==> c in " \n,") && (forall c :: c in mid ==> c in " :")
    requires '"' !in e.key && '"' !in e.val
    ensures Cells(pre + ("\"" + e.key + "\"" + (mid + ("\"" + e.val + "\"" + rest)))) == [e] + Cells(rest)
  {
    hide Quoted, Skip;
    var value := "\"" + e.val + "\"" + rest;
    var keyed := "\"" + e.key + "\"" + (mid + value);
    var t := pre + keyed;
    SkipAll(pre, keyed, " \n,");
    QuotedText(e.key, mid + value);
    SkipAll(mid, value, " :");
    QuotedText(e.val, rest);
    assert pre != "" ==> t[0] == pre[0] && pre[0] in pre;
    assert t[0] != '}';
  }

  /** The reading of an excluded key: what follows it up to the next comma or brace is passed over. */
  lemma KeyForm(pre: string, key: string, value: string, rest: string)
    requires (forall c :: c in pre ==> c in " \n,") && '"' !in key
    requires (forall c :: c in value ==> c != ',' && c != '}') && (rest == "" || rest[0] == ',' || rest[0] == '}')
    ensures Keys(pre + ("\"" + key + "\"" + (value + rest))) == [key] + Keys(rest)
  {
    hide Quoted, Skip, ValueEnd;
    var keyed := "\"" + key + "\"" + (value + rest);
    var t := pre + keyed;
    SkipAll(pre, keyed, " \n,");
    QuotedText(key, value + rest);
    ValueEndAt(value, rest);
    assert (value + rest)[|value|..] == rest;
    assert pre != "" ==> t[0] == pre[0] && pre[0] in pre;
    assert t[0] != '}';
  }

  /** The peer's reading of a token: blanks in front, a key up to the colon, and the rest; nothing without a colon. */
  lemma TokenForm(blanks: string, e: Entry, bare: string)
    requires (forall c :: c in blanks ==> c == ' ') && ':' !in e.key && (e.key != "" ==> e.key[0] != ' ')
    requires ':' !in bare
    ensures TokenEntry(blanks + (e.key + ":" + e.val)) == [e] && TokenEntry(bare) == []
  {
    hide Find, Skip;
    var t := e.key + ":" + e.val;
    assert t[0] == if e.key == "" then ':' else e.key[0];
    SkipAll(blanks, t, " ");
    FindAt(e.key, ':', e.val);
    NoColonLeft(bare);
  }

  lemma {:induction false} NoColonLeft(bare: string)
    requires ':' !in bare
    ensures TokenEntry(bare) == []
  {
    if bare != "" && bare[0] == ' ' {
      assert forall c :: c in bare[1..] ==> c in bare;
      NoColonLeft(bare[1..]);
    }
  }

  /** A leading separator as the printer leaves it. */
  predicate Lead(lead: string) {
    lead == "" || lead == ","
  }

  lemma SkipLead(lead: string, t: string)
    requires Lead(lead) && t != "" && t[0] == '"'
    ensures Skip(lead + t, " \n,") == t
  {
    if lead == "" {
      assert lead + t == t;
    } else {
      SkipOne(',', t, " \n,");
    }
  }

  lemma CellMember(lead: string, e: Entry, rest: string)
    requires Lead(lead) && '"' !in e.key && '"' !in e.val
    ensures Cells(lead + Member(e) + rest) == [e] + Cells(rest)
  {
    hide Quoted, Skip;
    var value := "\"" + e.val + "\"" + rest;
    var keyed := "\"" + e.key + "\"" + (":" + value);
    var t := lead + Member(e) + rest;
    assert t == lead + keyed;
    SkipLead(lead, keyed);
    QuotedText(e.key, ":" + value);
    SkipOne(':', value, " :");
    QuotedText(e.val, rest);
    assert t[0] != '}';
  }

  /** The builder reads the printed grants back. */
  lemma {:induction false} CellsMembers(lead: string, es: seq<Entry>)
    requires Lead(lead) && CleanEntries(es) && (es == [] ==> lead == "")
    ensures Cells(lead + Members(es) + "}") == es
    decreases |es|
  {
    hide Member, Clean;
    if es == [] {
      CellsEnd();
      assert lead + Members(es) + "}" == "}";
    } else {
      hide Cells, Members;
      FirstCell(lead, es);
      if |es| > 1 {
        assert forall e :: e in es[1..] ==> e in es;
        CellsMembers(",", es[1..]);
      } else {
        CellsEnd();
      }
    }
  }

  lemma FirstCell(lead: string, es: seq<Entry>)
    requires Lead(lead) && CleanEntries(es) && es != []
    ensures Cells(lead + Members(es) + "}") == [es[0]] + Cells(MoreMembers(es) + "}")
    ensures es == [es[0]] + es[1..]
  {
    hide Cells, Members, Member, Clean;
    assert es[0] in es && Clean(es[0].key) && Clean(es[0].val);
    NoQuote(es[0]);
    MembersCons(lead, es, "}");
    CellMember(lead, es[0], MoreMembers(es) + "}");
  }

  lemma NoQuote(e: Entry)
    requires Clean(e.key) && Clean(e.val)
    ensures '"' !in e.key && '"' !in e.val
  {
  }

  lemma CellsEnd()
    ensures Cells("" + "}") == [] && Cells("}") == [] && Keys("" + "}") == [] && Keys("}") == []
  {
    assert "" + "}" == "}";
  }

  lemma KeyFlag(lead: string, key: string, rest: string)
    requires Lead(lead) && '"' !in key && (rest == "" || rest[0] == ',' || rest[0] == '}')
    ensures Keys(lead + Flag(key) + rest) == [key] + Keys(rest)
  {
    hide Quoted, Skip, ValueEnd;
    var keyed := "\"" + key + "\"" + (":true" + rest);
    var t := lead + Flag(key) + rest;
    assert t == lead + keyed;
    SkipLead(lead, keyed);
    QuotedText(key, ":true" + rest);
    ValueEndAt(":true", rest);
    assert (":true" + rest)[5..] == rest && t[0] != '}';
  }

  lemma {:induction false} KeysFlags(lead: string, keys: seq<string>)
    requires Lead(lead) && CleanKeys(keys) && (keys == [] ==> lead == "")
    ensures Keys(lead + Flags(keys) + "}") == keys
    decreases |keys|
  {
    hide Flag;
    if keys == [] {
      CellsEnd();
      assert lead + Flags(keys) + "}" == "}";
    } else {
      hide Keys, Flags;
      FirstKey(lead, keys);
      if |keys| > 1 {
        assert forall k :: k in keys[1..] ==> k in keys;
        KeysFlags(",", keys[1..]);
      } else {
        CellsEnd();
      }
    }
  }

  lemma FirstKey(lead: string, keys: seq<string>)
    requires Lead(lead) && CleanKeys(keys) && keys != []
    ensures Keys(lead + Flags(keys) + "}") == [keys[0]] + Keys(MoreFlags(keys) + "}")
    ensures keys == [keys[0]] + keys[1..]
  {
    hide Keys, Flags, Flag;
    assert keys[0] in keys;
    FlagsCons(lead, keys, "}");
    KeyFlag(lead, keys[0], MoreFlags(keys) + "}");
  }

  /** Splitting at commas undoes joining with them. */
  lemma {:induction false} TokensCommas(parts: seq<string>)
    requires forall p :: p in parts ==> p != "" && ',' !in p
    ensures Tokens(Commas(parts)) == parts
  {
    if |parts| == 1 {
      assert parts[0] in parts;
      LastToken(parts[0]);
      assert parts == [parts[0]];
    } else if |parts| > 1 {
      assert parts[0] in parts && forall p :: p in parts[1..] ==> p in parts;
      TokensCommas(parts[1..]);
      FirstToken(parts[0], Commas(parts[1..]));
      assert parts == [parts[0]] + parts[1..];
    }
  }

  lemma LastToken(p: string)
    requires p != "" && ',' !in p
    ensures Tokens(p) == [p]
  {
    FindUnique(p, ',', |p|);
    assert p[..|p|] == p && p[|p|..] == "";
  }

  lemma FirstToken(p: string, rest: string)
    requires p != "" && ',' !in p
    ensures Tokens(p + "," + rest) == [p] + Tokens(rest)
  {
    hide Find;
    var t := p + "," + rest;
    FindAt(p, ',', rest);
    FindAt("", ',', rest);
    assert t[|p|..] == "" + "," + rest && ("" + "," + rest)[1..] == rest;
  }

  lemma TokenColon(e: Entry)
    requires Plain(e.key) && e.key != ""
    ensures TokenEntry(Colon(e)) == [e]
  {
    hide Find;
    assert Colon(e)[0] == e.key[0];
    SkipNone(Colon(e), " ");
    FindAt(e.key, ':', e.val);
  }

  lemma ColonToken(e: Entry)
    requires Plain(e.key) && Plain(e.val)
    ensures Colon(e) != "" && ',' !in Colon(e)
  {
  }

  lemma {:induction false} TokensBack(es: seq<Entry>)
    requires forall e :: e in es ==> Plain(e.key) && Plain(e.val) && e.key != ""
    ensures TokenEntries(Colons(es)) == es
    ensures forall p :: p in Colons(es) ==> p != "" && ',' !in p
  {
    hide TokenEntry, Colon, Plain;
    if es != [] {
      assert es[0] in es && forall e :: e in es[1..] ==> e in es;
      TokensBack(es[1..]);
      TokenColon(es[0]);
      ColonToken(es[0]);
      assert Colons(es)[1..] == Colons(es[1..]);
      assert es == [es[0]] + es[1..];
    }
  }

  lemma {:induction false} KeysBack(keys: seq<string>)
    requires PlainKeys(keys)
    ensures TokenKeys(keys) == keys
  {
    if keys != [] {
      assert keys[0] in keys && forall k :: k in keys[1..] ==> k in keys;
      KeysBack(keys[1..]);
      SkipNone(keys[0], " ");
      assert keys == [keys[0]] + keys[1..];
    }
  }

  lemma {:induction false} CommasEmpty(parts: seq<string>)
    requires forall p :: p in parts ==> p != ""
    ensures Commas(parts) == "" <==> parts == []
  {
    if parts != [] {
      assert parts[0] in parts;
    }
  }

  lemma OpenBrace(body: string)
    ensures AfterBrace("{" + body) == body
  {
    FindAt("", '{', body);
    assert "" + "{" + body == "{" + body;
  }

  /** The header text of the claims. */
  function GrantHeader(es: seq<Entry>): string {
    Commas(Colons(es))
  }

  /** Both header lines, with their names and line ends, fit the sender's buffer. */
  predicate Fits(es: seq<Entry>, keys: seq<string>) {
    |HeaderText(Headers(GrantHeader(es), Some(Commas(keys))))| < BUFFER
  }

  lemma BuildPrinted(es: seq<Entry>, keys: seq<string>)
    requires CleanEntries(es) && CleanKeys(keys)
    ensures Build(Bare(es), Some(BareFlags(keys))) == Headers(GrantHeader(es), Some(Commas(keys)))
    ensures Build(Bare(es), None) == Headers(GrantHeader(es), None)
  {
    hide Cells, Keys, Commas, Colons, Members, Flags, AfterBrace, Clean;
    var m, f := Members(es), Flags(keys);
    OpenBrace(m + "}");
    OpenBrace(f + "}");
    assert Bare(es) == "{" + (m + "}") && BareFlags(keys) == "{" + (f + "}");
    CellsMembers("", es);
    KeysFlags("", keys);
    assert "" + m + "}" == m + "}" && "" + f + "}" == f + "}";
  }

  function Total(keys: seq<string>): nat {
    if keys == [] then 0 else Total(keys[..|keys| - 1]) + |keys[|keys| - 1]|
  }

  /**
   * The exclude map the peer rebuilds is no longer than the buffer it allocates: with n keys of S characters in
   * all the map takes S + 8n + 1 of its 3(S + n - 1) + 16 places. With 11 in place of 12 the terminator
   * fits as well.
   */
  predicate Rebuildable(keys: seq<string>) {
    5 * |keys| <= 2 * Total(keys) + 12
  }

  lemma {:induction false} FlagsLength(keys: seq<string>)
    requires keys != []
    ensures |Flags(keys)| == Total(keys) + 8 * |keys| - 1
  {
    var init, last := keys[..|keys| - 1], keys[|keys| - 1];
    FlagLength(last);
    hide Flag;
    if |keys| > 1 {
      FlagsLength(init);
    } else {
      assert init == [] && keys == [last];
    }
  }

  lemma {:induction false} CommasLength(keys: seq<string>)
    requires keys != []
    ensures |Commas(keys)| == Total(keys) + |keys| - 1
  {
    var init, last := keys[..|keys| - 1], keys[|keys| - 1];
    assert keys == init + [last];
    CommasSnoc(init, last);
    hide Commas;
    if |keys| > 1 {
      CommasLength(init);
    }
  }

  /** The reader's buffer decides exactly by that bound. */
  lemma RebuildableFits(keys: seq<string>)
    requires keys != []
    ensures |BareFlags(keys)| <= ReadCap(Commas(keys)) <==> Rebuildable(keys)
  {
    hide Flags, Commas, Total;
    FlagsLength(keys);
    CommasLength(keys);
  }

  /** Reading the headers gives the original texts back, as long as they are not empty, and the excludes fit. */
  lemma ParsePrinted(es: seq<Entry>, keys: seq<string>)
    requires PlainEntries(es) && PlainKeys(keys)
    requires Fits(es, keys)
    ensures ParseGrants(Some(GrantHeader(es))) == if es == [] then None else Some(Bare(es))
    ensures keys == [] ==> ParseExclude(Some(Commas(keys))) == None
    ensures keys != [] ==> ParseExclude(Some(Commas(keys))) == Some(FlagText(keys, ReadCap(Commas(keys))))
    ensures keys != [] && Rebuildable(keys) ==> ParseExclude(Some(Commas(keys))) == Some(BareFlags(keys))
  {
    hide Commas, Tokens, TokenEntries, TokenKeys, Bare, BareFlags, Plain, Colons, Keyed, FlagText, Rebuildable;
    assert |GrantHeader(es)| < BUFFER && |Commas(keys)| < BUFFER;
    assert forall e :: e in es ==> e.key != "" by { KeyedNonempty(es); }
    TokensBack(es);
    TokensCommas(Colons(es));
    CommasEmpty(Colons(es));
    ColonsEmpty(es);
    PlainCommaFree(keys);
    TokensCommas(keys);
    KeysBack(keys);
    CommasEmpty(keys);
    if keys != [] {
      RebuildableFits(keys);
      FlagTextExact(keys, ReadCap(Commas(keys)));
    }
  }

  lemma KeyedNonempty(es: seq<Entry>)
    requires Keyed(es)
    ensures forall e :: e in es ==> e.key != ""
  {
  }

  lemma ColonsEmpty(es: seq<Entry>)
    ensures Colons(es) == [] <==> es == []
  {
  }

  lemma PlainCommaFree(keys: seq<string>)
    requires PlainKeys(keys)
    ensures forall p :: p in keys ==> p != "" && ',' !in p
  {
  }

  lemma PlainPrintable(es: seq<Entry>, keys: seq<string>)
    requires PlainEntries(es) && PlainKeys(keys)
    ensures Printable(es, keys)
  {
  }

  /** The peer decides as the sender would, for every group and operation. */
  ghost predicate SameDecisions(es: seq<Entry>, keys: Option<seq<string>>) {
    forall group, op :: SameDecision(es, keys, group, op)
  }

  ghost predicate SameDecision(es: seq<Entry>, keys: Option<seq<string>>, group: string, op: char) {
    var exclude := if keys.Some? then Some(BareFlags(keys.value)) else None;
    GridAllows(Arrived(Bare(es), exclude), group, op) <==> Permitted(Bare(es), exclude, group, op)
  }

  lemma HopKeepsDecision(es: seq<Entry>, keys: seq<string>, group: string, op: char)
    requires PlainEntries(es) && PlainKeys(keys) && es != [] && Rebuildable(keys)
    requires Fits(es, keys)
    ensures SameDecision(es, Some(keys), group, op) && SameDecision(es, None, group, op)
  {
    hide Bare, BareFlags, Permitted, ParseGrants, ParseExclude, GrantHeader, Commas, PlainEntries, PlainKeys,
      Allows, Granted, Fits, Rebuildable, FlagText, Arrived, HeaderValue;
    PlainPrintable(es, keys);
    HeadersArrive(es, keys);
    ParsePrinted(es, keys);
    ParseNothing();
    if keys == [] {
      BareDecided(es, keys, group, op);
      NothingExcluded(es, group, op);
    }
  }

  /** An exclude text without its closing brace is passed over. */
  lemma CutExcludeText(grants: string, x: string, f: string)
    requires "{" <= x <= "{" + f && '{' !in f && '}' !in f
    ensures ExcludeText(grants, Some(x)) == None
  {
    hide IndexOf, Find;
    var pat := "\"exclude\":{";
    assert x == "{" + x[1..] && x[1..] == f[..|x| - 1];
    assert '{' !in x[1..] && '}' !in x[1..];
    forall j | 0 <= j
      ensures !OccursAt(x, pat, j)
    {
      NoOccurrence(x, pat, j);
    }
    IndexNone(x, pat, 0);
    FindAt("", '{', x[1..]);
    assert "" + "{" + x[1..] == x;
    FindUnique(x[1..], '}', |x| - 1);
  }

  /** When the peer cannot rebuild the exclude map, it decides by the grants alone. */
  lemma HopDropsExcludes(es: seq<Entry>, keys: seq<string>, group: string, op: char)
    requires PlainEntries(es) && PlainKeys(keys) && es != [] && keys != [] && !Rebuildable(keys)
    requires Fits(es, keys)
    ensures GridAllows(Arrived(Bare(es), Some(BareFlags(keys))), group, op) <==> Granted(es, group, op)
  {
    hide Bare, BareFlags, ParseGrants, ParseExclude, GrantHeader, Commas, PlainEntries, PlainKeys,
      Allows, Granted, Fits, Rebuildable, FlagText, Permitted, Arrived, HeaderValue;
    PlainPrintable(es, keys);
    CleanParts(es, keys);
    HeadersArrive(es, keys);
    ParsePrinted(es, keys);
    var x := FlagText(keys, ReadCap(Commas(keys)));
    DroppedText(es, keys, x);
    SameExcludes(Bare(es), Some(x), None, group, op);
    BareDecided(es, keys, group, op);
  }

  lemma DroppedText(es: seq<Entry>, keys: seq<string>, x: string)
    requires CleanEntries(es) && CleanKeys(keys) && keys != [] && !Rebuildable(keys)
    requires x == FlagText(keys, ReadCap(Commas(keys)))
    ensures ExcludeText(Bare(es), Some(x)) == None == ExcludeText(Bare(es), None)
  {
    hide Bare, BareFlags, Commas, Rebuildable, FlagText, Flags, ExcludeText, Clean;
    RebuildableFits(keys);
    FlagTextExact(keys, ReadCap(Commas(keys)));
    FlagsNoBrace(keys);
    CutExcludeText(Bare(es), x, Flags(keys));
    BareTexts(es, keys);
  }

  lemma SameExcludes(grants: string, x: Option<string>, y: Option<string>, group: string, op: char)
    requires ExcludeText(grants, x) == ExcludeText(grants, y)
    ensures Permitted(grants, x, group, op) <==> Permitted(grants, y, group, op)
  {
    hide ExcludeText, GrantText, Match, Pairs, AnyCovers;
  }

  lemma CleanParts(es: seq<Entry>, keys: seq<string>)
    requires Printable(es, keys)
    ensures CleanEntries(es) && CleanKeys(keys)
  {
  }

  lemma ParseNothing()
    ensures ParseExclude(None) == None && ParseGrants(None) == None
  {
  }

  lemma NothingExcluded(es: seq<Entry>, group: string, op: char)
    ensures Allows(es, [], group, op) <==> Granted(es, group, op)
  {
    hide Granted;
  }

  /** An empty grant map is sent as an empty header, which the peer takes for open access. */
  lemma EmptyGrantsOpen(keys: seq<string>, group: string, op: char)
    requires PlainKeys(keys)
    ensures !SameDecision([], Some(keys), group, op)
  {
    hide Bare, BareFlags, Permitted, ParseGrants, ParseExclude, Commas, PlainKeys, Granted, Arrived, HeaderValue;
    PlainPrintable([], keys);
    HeadersArrive([], keys);
    EmptyHeader();
    BareDecided([], keys, group, op);
    NoneGranted(group, op);
  }

  lemma EmptyHeader()
    ensures GrantHeader([]) == "" && ParseGrants(Some("")) == None
  {
  }

  lemma NoneGranted(group: string, op: char)
    ensures !Granted([], group, op)
  {
  }

  /**
   * The hop preserves meaning exactly for the non-empty grant maps whose exclude map the peer can rebuild, or
   * whose excludes make no difference.
   */
  lemma HopPreservesIff(es: seq<Entry>, keys: seq<string>)
    requires PlainEntries(es) && PlainKeys(keys)
    requires Fits(es, keys)
    ensures SameDecisions(es, Some(keys)) <==> es != [] && (Rebuildable(keys) || !Bites(es, keys))
  {
    hide SameDecision, PlainEntries, PlainKeys, Fits, Rebuildable, Bites;
    if es == [] {
      EmptyGrantsOpen(keys, "g", 'r');
    } else if Rebuildable(keys) {
      forall group, op
        ensures SameDecision(es, Some(keys), group, op)
      {
        HopKeepsDecision(es, keys, group, op);
      }
    } else {
      NoKeysRebuildable();
      DroppedIffBites(es, keys);
    }
  }

  lemma NoKeysRebuildable()
    ensures Rebuildable([])
  {
  }

  lemma DroppedIffBites(es: seq<Entry>, keys: seq<string>)
    requires PlainEntries(es) && PlainKeys(keys) && es != [] && keys != [] && !Rebuildable(keys) && Fits(es, keys)
    ensures SameDecisions(es, Some(keys)) <==> !Bites(es, keys)
  {
    hide PlainEntries, PlainKeys, Fits, Rebuildable, Granted, Excluded, Permitted, GridAllows, Arrived, Bare, BareFlags;
    PlainPrintable(es, keys);
    forall group, op
      ensures SameDecision(es, Some(keys), group, op) <==> !(Granted(es, group, op) && Excluded(keys, group))
    {
      HopDropsExcludes(es, keys, group, op);
      BareDecided(es, keys, group, op);
    }
    hide SameDecision;
    if Bites(es, keys) {
      var group, op :| Granted(es, group, op) && Excluded(keys, group);
      assert !SameDecision(es, Some(keys), group, op);
    }
  }

  /** Five one-letter keys are too many: the sender denies the group, and the peer lets it through. */
  lemma FiveKeysDropped()
    ensures var es, keys := [Entry("a", "r")], ["a", "b", "c", "d", "e"];
      && Fits(es, keys) && Rebuildable(keys[..4]) && !Rebuildable(keys)
      && !Permitted(Bare(es), Some(BareFlags(keys)), "a", 'r')
      && GridAllows(Arrived(Bare(es), Some(BareFlags(keys))), "a", 'r')
  {
    hide Bare, BareFlags, Arrived, Permitted, GridAllows;
    var es, keys := [Entry("a", "r")], ["a", "b", "c", "d", "e"];
    FiveTotals(keys);
    FiveHeader(es, keys);
    PlainPrintable(es, keys);
    FiveDenied(es, keys);
    hide Fits, Printable, PlainEntries, PlainKeys, Granted, Excluded;
    HopDropsExcludes(es, keys, "a", 'r');
    BareDecided(es, keys, "a", 'r');
  }

  lemma FiveDenied(es: seq<Entry>, keys: seq<string>)
    requires es == [Entry("a", "r")] && keys == ["a", "b", "c", "d", "e"]
    ensures Granted(es, "a", 'r') && Excluded(keys, "a")
  {
    assert es[0].key == "a" && Decides(es, es[0], "a") && 'r' in es[0].val;
    assert keys[0] in keys && Covers(keys[0], "a");
  }

  lemma FiveTotals(keys: seq<string>)
    requires keys == ["a", "b", "c", "d", "e"]
    ensures Total(keys) == 5 && Total(keys[..4]) == 4
  {
    assert keys[..5] == keys && keys[..4][..3] == keys[..3];
    assert keys[..3][..2] == keys[..2] && keys[..2][..1] == keys[..1];
    assert keys[..1][..0] == [] && Total(keys[..1]) == 1 && Total(keys[..2]) == 2 && Total(keys[..3]) == 3;
    assert Total(keys[..4]) == 4;
  }

  lemma FiveHeader(es: seq<Entry>, keys: seq<string>)
    requires es == [Entry("a", "r")] && keys == ["a", "b", "c", "d", "e"]
    ensures Fits(es, keys) && PlainEntries(es) && PlainKeys(keys)
  {
    FiveTotals(keys);
    CommasLength(keys);
    hide Commas;
    assert GrantHeader(es) == "a:r" by {
      OneColon(es[0]);
    }
  }

  lemma OneColon(e: Entry)
    ensures GrantHeader([e]) == Colon(e)
  {
    assert [e][1..] == [] && Colons([]) == [];
  }
}
