/**
 * Token revocation: the bounded list in memory (cookbook_auth.c), the table behind it,
 * and the reload on restart (cookbook_server.c).
 */
module Revocation {

  const CAPACITY: nat := 4096

  datatype Entry = Entry(jti: string, exp: int)

  /** The claims of a token whose signature verified. */
  datatype Token = Token(jti: string, exp: int)

  // ---- the list in memory ----

  /** What pruning keeps, in order. */
  function Live(s: seq<Entry>, now: int): seq<Entry> {
    if s == [] then []
    else
      var init, last := Live(s[..|s| - 1], now), s[|s| - 1];
      if last.exp > now then init + [last] else init
  }

  predicate Listed(s: seq<Entry>, jti: string) {
    exists i :: 0 <= i < |s| && s[i].jti == jti
  }

  /** cookbook_revocation_add: refused only when the jti is new and the pruned list is full. */
  predicate AddFails(s: seq<Entry>, jti: string, now: int) {
    !Listed(Live(s, now), jti) && |Live(s, now)| >= CAPACITY
  }

  function Added(s: seq<Entry>, jti: string, exp: int, now: int): seq<Entry> {
    var live := Live(s, now);
    if Listed(live, jti) || |live| >= CAPACITY then live else live + [Entry(jti, exp)]
  }

  ghost predicate Distinct(s: seq<Entry>) {
    forall i, j :: 0 <= i < j < |s| ==> s[i].jti != s[j].jti
  }

  lemma {:induction false} LiveMembers(s: seq<Entry>, now: int)
    ensures |Live(s, now)| <= |s|
    ensures forall e :: e in Live(s, now) <==> e in s && e.exp > now
  {
    if s != [] {
      LiveMembers(s[..|s| - 1], now);
      assert s == s[..|s| - 1] + [s[|s| - 1]];
    }
  }

  lemma {:induction false} LiveDistinct(s: seq<Entry>, now: int)
    requires Distinct(s)
    ensures Distinct(Live(s, now))
  {
    if s != [] {
      var init, last := s[..|s| - 1], s[|s| - 1];
      LiveDistinct(init, now);
      LiveMembers(init, now);
      forall e | e in Live(init, now)
        ensures e.jti != last.jti
      {
        var i :| 0 <= i < |init| && init[i] == e;
      }
    }
  }

  lemma LiveStart(s: seq<Entry>, now: int)
    ensures Live(s[..0], now) == []
  {
  }

  lemma LiveNext(s: seq<Entry>, i: nat, now: int)
    requires i < |s|
    ensures Live(s[..i + 1], now) == if s[i].exp > now then Live(s[..i], now) + [s[i]] else Live(s[..i], now)
  {
    assert s[..i + 1][..i] == s[..i];
  }

  lemma ListedMember(s: seq<Entry>, jti: string)
    ensures Listed(s, jti) <==> exists e :: e in s && e.jti == jti
  {
    if Listed(s, jti) {
      var i :| 0 <= i < |s| && s[i].jti == jti;
      assert s[i] in s;
    }
  }

  /** The list object of the server. */
  class List {
    const entries: array<Entry>
    var count: nat

    ghost predicate Valid()
      reads this
    {
      entries.Length == CAPACITY && count <= CAPACITY
    }

    ghost function Contents(): (s: seq<Entry>)
      requires Valid()
      reads this, entries
      ensures |s| == count
    {
      entries[..count]
    }

    constructor ()
      ensures Valid() && Contents() == [] && fresh(entries)
    {
      entries := new Entry[CAPACITY](_ => Entry("", 0));
      count := 0;
    }

    /** revocation_prune: compaction in place. */
    method Prune(now: int)
      requires Valid()
      modifies this, entries
      ensures Valid() && Contents() == Live(old(Contents()), now)
    {
      hide Live;
      ghost var was := Contents();
      var write, i := 0, 0;
      LiveStart(was, now);
      while i < count
        invariant write <= i <= count == |was|
        invariant forall k :: i <= k < count ==> entries[k] == was[k]
        invariant entries[..write] == Live(was[..i], now)
      {
        LiveNext(was, i, now);
        if entries[i].exp > now {
          Shift(write, i);
          write := write + 1;
        }
        i := i + 1;
      }
      assert was[..i] == was;
      count := write;
    }

    method Shift(write: nat, i: nat)
      requires Valid() && write <= i < count
      modifies entries
      ensures entries[..write + 1] == old(entries[..write]) + [old(entries[i])]
      ensures forall k :: i < k < count ==> entries[k] == old(entries[k])
    {
      if write != i {
        entries[write] := entries[i];
      }
    }

    /** cookbook_revocation_check */
    method Check(jti: string) returns (found: bool)
      requires Valid()
      ensures found == Listed(Contents(), jti)
      ensures found <==> exists e :: e in Contents() && e.jti == jti
    {
      ListedMember(Contents(), jti);
      var i := 0;
      while i < count
        invariant i <= count
        invariant forall j :: 0 <= j < i ==> entries[j].jti != jti
      {
        if entries[i].jti == jti {
          assert Contents()[i].jti == jti;
          return true;
        }
        i := i + 1;
      }
      return false;
    }

    /** cookbook_revocation_add */
    method Add(jti: string, exp: int, now: int) returns (ok: bool)
      requires Valid()
      modifies this, entries
      ensures Valid() && Contents() == Added(old(Contents()), jti, exp, now)
      ensures ok == !AddFails(old(Contents()), jti, now)
      ensures var live := Live(old(Contents()), now);
        if exists e :: e in live && e.jti == jti then ok && Contents() == live
        else ok == (|live| < 4096) && Contents() == if ok then live + [Entry(jti, exp)] else live
    {
      hide Live, Listed;
      ListedMember(Live(Contents(), now), jti);
      Prune(now);
      var found := Check(jti);
      if found {
        return true;
      }
      if count >= CAPACITY {
        return false;
      }
      Append(Entry(jti, exp));
      return true;
    }

    method Append(e: Entry)
      requires Valid() && count < CAPACITY
      modifies this, entries
      ensures Valid() && Contents() == old(Contents()) + [e]
    {
      entries[count] := e;
      count := count + 1;
    }
  }

  // ---- the server as a state machine ----

  /** The revocations table keyed by jti, and which jtis a client was told are revoked. */
  datatype State = State(list: seq<Entry>, db: map<string, int>, clock: int, revoked: set<string>)

  datatype Event =
    | Revoke(token: Token, now: int)
    | Restart(rows: seq<string>, now: int)
    | Tick(now: int)

  /** cookbook_jwt_verify's expiry test. */
  predicate Unexpired(token: Token, now: int) {
    !(token.exp > 0 && now > token.exp)
  }

  /** handle_auth_revoke reports success. */
  predicate Succeeds(s: State, token: Token, now: int) {
    Unexpired(token, now) && token.jti != "" && !AddFails(s.list, token.jti, now)
  }

  /** INSERT OR IGNORE. */
  function Inserted(db: map<string, int>, jti: string, exp: int): map<string, int> {
    if jti in db then db else db[jti := exp]
  }

  /** The list after the load callback saw the rows, in the order the query returned them. */
  function Reload(rows: seq<string>, db: map<string, int>, now: int): seq<Entry>
    requires forall j :: j in rows ==> j in db
  {
    if rows == [] then []
    else
      var init, last := Reload(rows[..|rows| - 1], db, now), rows[|rows| - 1];
      if db[last] > now then Added(init, last, db[last], now) else init
  }

  /** DELETE FROM revocations WHERE expires_at <= now. */
  function Swept(db: map<string, int>, now: int): map<string, int> {
    map j | j in db && db[j] > now :: db[j]
  }

  /** The rows name each key of the table once. */
  ghost predicate Enumerates(rows: seq<string>, db: map<string, int>) {
    && (forall i, j :: 0 <= i < j < |rows| ==> rows[i] != rows[j])
    && (forall j :: j in rows <==> j in db)
  }

  /** The clock is monotone and a jti always comes with the same expiry. */
  ghost predicate Legal(s: State, e: Event, expOf: string -> int) {
    && s.clock <= e.now
    && (e.Revoke? ==> e.token.exp == expOf(e.token.jti))
    && (e.Restart? ==> Enumerates(e.rows, s.db))
  }

  function Step(s: State, e: Event): State
    requires e.Restart? ==> forall j :: j in e.rows ==> j in s.db
  {
    match e
    case Tick(now) => s.(clock := now)
    case Revoke(token, now) =>
      if !Unexpired(token, now) || token.jti == "" then s.(clock := now)
      else if AddFails(s.list, token.jti, now) then s.(list := Live(s.list, now), clock := now)
      else State(Added(s.list, token.jti, token.exp, now), Inserted(s.db, token.jti, token.exp),
                 now, s.revoked + {token.jti})
    case Restart(rows, now) => State(Reload(rows, s.db, now), Swept(s.db, now), now, s.revoked)
  }

  /** Every unexpired row is in memory, and every unexpired revocation has a row. */
  ghost predicate Inv(s: State, expOf: string -> int) {
    && |s.list| <= CAPACITY && Distinct(s.list)
    && (forall j :: j in s.db ==> s.db[j] == expOf(j))
    && (forall j :: j in s.db && s.db[j] > s.clock ==> Entry(j, s.db[j]) in s.list)
    && (forall e :: e in s.list ==> e.exp == expOf(e.jti))
    && (forall j :: j in s.revoked && expOf(j) > s.clock ==> j in s.db)
    && (forall e :: e in s.list ==> e.jti in s.db)
    && (forall j :: j in s.db ==> j in s.revoked)
  }

  lemma RevokeKeeps(s: State, token: Token, now: int, expOf: string -> int)
    requires Inv(s, expOf) && s.clock <= now && token.exp == expOf(token.jti)
    ensures Inv(Step(s, Revoke(token, now)), expOf)
  {
    hide Live, AddFails, Listed;
    LiveMembers(s.list, now);
    LiveDistinct(s.list, now);
    AddedMembers(s.list, token.jti, token.exp, now);
    var t := Step(s, Revoke(token, now));
    if !AddFails(s.list, token.jti, now) && Unexpired(token, now) && token.jti != "" {
      ListedEntry(t.list, token.jti, expOf);
    }
  }

  lemma ListedEntry(s: seq<Entry>, jti: string, expOf: string -> int)
    requires Listed(s, jti) && forall e :: e in s ==> e.exp == expOf(e.jti)
    ensures Entry(jti, expOf(jti)) in s
  {
    var i :| 0 <= i < |s| && s[i].jti == jti;
    assert s[i] in s;
  }

  /** A list that holds the jti holds it afterwards, and nothing live is lost. */
  lemma AddedMembers(s: seq<Entry>, jti: string, exp: int, now: int)
    requires Distinct(s) && |s| <= CAPACITY
    ensures Distinct(Added(s, jti, exp, now)) && |Added(s, jti, exp, now)| <= CAPACITY
    ensures forall e :: e in s && e.exp > now ==> e in Added(s, jti, exp, now)
    ensures forall e :: e in Added(s, jti, exp, now) ==> e in s || e == Entry(jti, exp)
    ensures !AddFails(s, jti, now) ==> Listed(Added(s, jti, exp, now), jti)
  {
    hide Live;
    LiveMembers(s, now);
    LiveDistinct(s, now);
    var live, r := Live(s, now), Added(s, jti, exp, now);
    if !Listed(live, jti) && |live| < CAPACITY {
      assert r[|live|].jti == jti;
    }
  }

  // ---- the reload fits ----

  /** The rows the query selects. */
  function Wanted(rows: seq<string>, db: map<string, int>, now: int): seq<Entry>
    requires forall j :: j in rows ==> j in db
  {
    if rows == [] then []
    else
      var init, last := Wanted(rows[..|rows| - 1], db, now), rows[|rows| - 1];
      if db[last] > now then init + [Entry(last, db[last])] else init
  }

  lemma {:induction false} WantedMembers(rows: seq<string>, db: map<string, int>, now: int)
    requires forall j :: j in rows ==> j in db
    ensures forall e :: e in Wanted(rows, db, now) <==> e.jti in rows && e.exp == db[e.jti] && e.exp > now
  {
    if rows != [] {
      WantedMembers(rows[..|rows| - 1], db, now);
      assert rows == rows[..|rows| - 1] + [rows[|rows| - 1]];
    }
  }

  lemma {:induction false} WantedDistinct(rows: seq<string>, db: map<string, int>, now: int)
    requires forall j :: j in rows ==> j in db
    requires forall i, j :: 0 <= i < j < |rows| ==> rows[i] != rows[j]
    ensures Distinct(Wanted(rows, db, now))
  {
    if rows != [] {
      var init, last := rows[..|rows| - 1], rows[|rows| - 1];
      WantedDistinct(init, db, now);
      WantedMembers(init, db, now);
      assert last !in init;
    }
  }

  lemma {:induction false} LiveAll(s: seq<Entry>, now: int)
    requires forall e :: e in s ==> e.exp > now
    ensures Live(s, now) == s
  {
    if s != [] {
      LiveAll(s[..|s| - 1], now);
      assert s == s[..|s| - 1] + [s[|s| - 1]];
    }
  }

  /** If the selected rows fit, the reload takes in every one of them. */
  lemma {:induction false} ReloadComplete(rows: seq<string>, db: map<string, int>, now: int)
    requires forall j :: j in rows ==> j in db
    requires forall i, j :: 0 <= i < j < |rows| ==> rows[i] != rows[j]
    requires |Wanted(rows, db, now)| <= CAPACITY
    ensures Reload(rows, db, now) == Wanted(rows, db, now)
  {
    if rows != [] {
      var init, last := rows[..|rows| - 1], rows[|rows| - 1];
      ReloadComplete(init, db, now);
      if db[last] > now {
        AddOne(init, last, db, now);
      }
    }
  }

  lemma AddOne(init: seq<string>, last: string, db: map<string, int>, now: int)
    requires last in db && last !in init && forall j :: j in init ==> j in db
    requires |Wanted(init, db, now)| < CAPACITY
    ensures var w := Wanted(init, db, now); Added(w, last, db[last], now) == w + [Entry(last, db[last])]
  {
    hide Wanted, Live;
    var w := Wanted(init, db, now);
    WantedMembers(init, db, now);
    LiveAll(w, now);
    assert forall i :: 0 <= i < |w| ==> w[i] in w;
  }

  function Jtis(s: seq<Entry>): set<string> {
    set i | 0 <= i < |s| :: s[i].jti
  }

  lemma {:induction false} JtisSize(s: seq<Entry>)
    ensures |Jtis(s)| <= |s|
    ensures Distinct(s) ==> |Jtis(s)| == |s|
  {
    if s != [] {
      var init, last := s[..|s| - 1], s[|s| - 1];
      JtisSize(init);
      assert Jtis(s) == Jtis(init) + {last.jti};
    }
  }

  lemma SubsetSize(a: set<string>, b: set<string>)
    requires a <= b
    ensures |a| <= |b|
  {
    assert b == a + (b - a);
  }

  /** Distinct entries taken from another list are no more than it has. */
  lemma FitsInside(s: seq<Entry>, t: seq<Entry>)
    requires Distinct(s) && forall e :: e in s ==> e in t
    ensures |s| <= |t|
  {
    JtisSize(s);
    JtisSize(t);
    assert Jtis(s) <= Jtis(t) by {
      forall i | 0 <= i < |s|
        ensures s[i].jti in Jtis(t)
      {
        assert s[i] in t;
      }
    }
    SubsetSize(Jtis(s), Jtis(t));
  }

  lemma RestartKeeps(s: State, rows: seq<string>, now: int, expOf: string -> int)
    requires Inv(s, expOf) && s.clock <= now && Enumerates(rows, s.db)
    ensures Inv(Step(s, Restart(rows, now)), expOf)
    ensures Reload(rows, s.db, now) == Wanted(rows, s.db, now)
    ensures forall j :: j in Step(s, Restart(rows, now)).db <==> j in s.db && s.db[j] > now
  {
    hide Wanted, Reload;
    var w := Wanted(rows, s.db, now);
    WantedMembers(rows, s.db, now);
    WantedDistinct(rows, s.db, now);
    FitsInside(w, s.list);
    ReloadComplete(rows, s.db, now);
  }

  lemma StepKeeps(s: State, e: Event, expOf: string -> int)
    requires Inv(s, expOf) && Legal(s, e, expOf)
    ensures Inv(Step(s, e), expOf)
  {
    hide Live, AddFails, Added, Reload, Unexpired, Distinct;
    match e
    case Revoke(token, now) => RevokeKeeps(s, token, now, expOf);
    case Restart(rows, now) => RestartKeeps(s, rows, now, expOf);
    case Tick(now) =>
  }

  // ---- whole runs ----

  const Init := State([], map[], 0, {})

  /** The states of a run, from an empty list and table at time 0. */
  ghost predicate IsRun(states: seq<State>, events: seq<Event>, expOf: string -> int) {
    && |states| == |events| + 1 && states[0] == Init
    && forall k :: 0 <= k < |events| ==>
      Legal(states[k], events[k], expOf) && states[k + 1] == Step(states[k], events[k])
  }

  lemma {:induction false} RunKeeps(states: seq<State>, events: seq<Event>, expOf: string -> int, k: nat)
    requires IsRun(states, events, expOf) && k < |states|
    ensures Inv(states[k], expOf)
  {
    hide Inv, Step;
    if k > 0 {
      RunKeeps(states, events, expOf, k - 1);
      StepKeeps(states[k - 1], events[k - 1], expOf);
      assert states[k - 1 + 1] == Step(states[k - 1], events[k - 1]);
    } else {
      InitInv(expOf);
    }
  }

  lemma InitInv(expOf: string -> int)
    ensures Inv(Init, expOf)
  {
  }

  /** extract_bearer_jwt lets the token through. */
  predicate Accepts(s: State, token: Token, now: int) {
    Unexpired(token, now) && !(token.jti != "" && Listed(s.list, token.jti))
  }

  /** In every run a revoked token is reported revoked at every time strictly before its expiry. */
  lemma RevokedUntilExpiry(states: seq<State>, events: seq<Event>, expOf: string -> int, k: nat, jti: string)
    requires IsRun(states, events, expOf) && k < |states|
    requires jti in states[k].revoked && states[k].clock < expOf(jti)
    ensures Listed(states[k].list, jti)
  {
    hide Step, Legal, Distinct;
    RunKeeps(states, events, expOf, k);
    var s := states[k];
    assert Entry(jti, s.db[jti]) in s.list;
  }

  /** In every run a token that was never reported revoked is let through until its expiry. */
  lemma AcceptedUnlessRevoked(states: seq<State>, events: seq<Event>, expOf: string -> int, k: nat,
                              token: Token, now: int)
    requires IsRun(states, events, expOf) && k < |states|
    requires token.jti !in states[k].revoked && (token.exp <= 0 || now <= token.exp)
    ensures Accepts(states[k], token, now)
  {
    hide Step, Legal, Distinct;
    RunKeeps(states, events, expOf, k);
    ListedMember(states[k].list, token.jti);
  }

  /** No run lets a revoked token through at this time. */
  ghost predicate NeverAccepted(exp: int, now: int) {
    forall states, events, expOf: string -> int, jti ::
      IsRun(states, events, expOf) && expOf(jti) == exp && Last(states).clock == now && jti in Last(states).revoked
      ==> !Accepts(Last(states), Token(jti, exp), now)
  }

  ghost function Last(states: seq<State>): State {
    if states == [] then Init else states[|states| - 1]
  }

  /**
   * A revoked token is always turned away exactly when it has an expiry and the clock
   * does not stand on that very second.
   */
  lemma NeverAcceptedIff(exp: int, now: int)
    requires now > 0
    ensures NeverAccepted(exp, now) <==> exp > 0 && now != exp
  {
    if exp > 0 && now != exp {
      forall states, events, expOf: string -> int, jti |
        && IsRun(states, events, expOf) && expOf(jti) == exp
        && Last(states).clock == now && jti in Last(states).revoked
        ensures !Accepts(Last(states), Token(jti, exp), now)
      {
        TurnedAway(states, events, expOf, jti, now);
      }
    } else {
      ForgottenWhileValid(exp, now);
    }
  }

  lemma TurnedAway(states: seq<State>, events: seq<Event>, expOf: string -> int, jti: string, now: int)
    requires IsRun(states, events, expOf) && expOf(jti) > 0 && now != expOf(jti)
    requires Last(states).clock == now && jti in Last(states).revoked
    ensures !Accepts(Last(states), Token(jti, expOf(jti)), now)
  {
    hide IsRun, Step;
    assert |states| > 0 by { RunNonempty(states, events, expOf); }
    RevokedNamed(states, events, expOf, |states| - 1, jti);
    if now < expOf(jti) {
      RevokedUntilExpiry(states, events, expOf, |states| - 1, jti);
    }
  }

  lemma RunNonempty(states: seq<State>, events: seq<Event>, expOf: string -> int)
    requires IsRun(states, events, expOf)
    ensures |states| > 0
  {
  }

  lemma {:induction false} RevokedNamed(states: seq<State>, events: seq<Event>, expOf: string -> int,
                                        k: nat, jti: string)
    requires IsRun(states, events, expOf) && k < |states| && jti in states[k].revoked
    ensures jti != ""
  {
    hide Live, AddFails, Added, Reload, Swept;
    if k > 0 {
      var s, e := states[k - 1], events[k - 1];
      assert Legal(s, e, expOf) && states[k - 1 + 1] == Step(s, e);
      if jti in s.revoked {
        RevokedNamed(states, events, expOf, k - 1, jti);
      }
    }
  }

  lemma FirstRevoked(exp: int, now: int, a: Token, one: State)
    requires now > 0 && (exp <= 0 || now == exp) && a == Token("a", exp)
    requires one == State([Entry("a", exp)], map["a" := exp], now, {"a"})
    ensures Step(Init, Revoke(a, now)) == one
  {
    assert Live([], now) == [];
  }

  lemma SecondRevoked(exp: int, now: int, b: Token, one: State, two: State)
    requires now > 0 && (exp <= 0 || now == exp) && b == Token("b", exp)
    requires one == State([Entry("a", exp)], map["a" := exp], now, {"a"})
    requires two == State([Entry("b", exp)], map["a" := exp, "b" := exp], now, {"a", "b"})
    ensures Step(one, Revoke(b, now)) == two
  {
    assert Live([], now) == [];
    assert Live([Entry("a", exp)], now) == [] by { assert [Entry("a", exp)][..0] == []; }
  }

  /**
   * The failing family: a token without expiry, or one on its last second, is revoked;
   * the next revocation prunes its entry while the token itself still verifies.
   */
  lemma ForgottenWhileValid(exp: int, now: int)
    requires now > 0 && (exp <= 0 || now == exp)
    ensures !NeverAccepted(exp, now)
  {
    var expOf: string -> int := _ => exp;
    var a, b := Token("a", exp), Token("b", exp);
    var events := [Revoke(a, now), Revoke(b, now)];
    var one := State([Entry("a", exp)], map["a" := exp], now, {"a"});
    var two := State([Entry("b", exp)], map["a" := exp, "b" := exp], now, {"a", "b"});
    FirstRevoked(exp, now, a, one);
    SecondRevoked(exp, now, b, one, two);
    hide Step;
    var states := [Init, one, two];
    assert IsRun(states, events, expOf);
    assert Last(states) == two && Accepts(two, a, now);
  }

  // ---- the handlers refine the state machine ----

  class Server {
    var list: List
    var db: map<string, int>
    ghost var clock: int
    ghost var revoked: set<string>

    ghost predicate Valid()
      reads this, list
    {
      list.Valid()
    }

    ghost function View(): State
      requires Valid()
      reads this, list, list.entries
    {
      State(list.Contents(), db, clock, revoked)
    }

    constructor ()
      ensures Valid() && fresh(list) && fresh(list.entries) && View() == Init
    {
      list := new List();
      db, clock, revoked := map[], 0, {};
    }

    /** handle_auth_revoke on a token whose signature verified. */
    method HandleRevoke(token: Token, now: int) returns (ok: bool)
      requires Valid()
      modifies this`db, this`clock, this`revoked, list, list.entries
      ensures Valid()
      ensures View() == Step(old(View()), Revoke(token, now))
      ensures ok == Succeeds(old(View()), token, now)
      ensures var live := Live(old(list.Contents()), now);
        ok <==> !(token.exp > 0 && now > token.exp) && token.jti != ""
                && (|live| < 4096 || exists e :: e in live && e.jti == token.jti)
      ensures db == if ok && token.jti !in old(db) then old(db)[token.jti := token.exp] else old(db)
      ensures revoked == old(revoked) + if ok then {token.jti} else {}
    {
      hide AddFails, Added, Live;
      clock := now;
      if !Unexpired(token, now) || token.jti == "" {
        return false;
      }
      ok := list.Add(token.jti, token.exp, now);
      AddFailsPrunes(old(list.Contents()), token.jti, token.exp, now);
      if !ok {
        return;
      }
      db := Inserted(db, token.jti, token.exp);
      revoked := revoked + {token.jti};
    }

    /** The revocation part of extract_bearer_jwt. */
    method Bearer(token: Token, now: int) returns (ok: bool)
      requires Valid()
      ensures ok == Accepts(View(), token, now)
      ensures ok <==>
        && !(token.exp > 0 && now > token.exp)
        && (token.jti == "" || forall e :: e in list.Contents() ==> e.jti != token.jti)
    {
      hide Listed;
      ListedMember(list.Contents(), token.jti);
      if !Unexpired(token, now) {
        return false;
      }
      if token.jti != "" {
        var hit := list.Check(token.jti);
        return !hit;
      }
      return true;
    }

    /** The start-up code: a new list, the load query in some row order, the sweep. */
    method Start(rows: seq<string>, now: int)
      requires Valid() && Enumerates(rows, db)
      modifies this
      ensures Valid() && fresh(list) && fresh(list.entries)
      ensures View() == Step(old(View()), Restart(rows, now))
    {
      hide Reload, Added, AddFails;
      var l := LoadRows(rows, db, now);
      list, db, clock := l, Swept(db, now), now;
    }
  }

  /** The load query's callback loop. */
  method LoadRows(rows: seq<string>, db: map<string, int>, now: int) returns (l: List)
    requires forall j :: j in rows ==> j in db
    ensures fresh(l) && fresh(l.entries) && l.Valid() && l.Contents() == Reload(rows, db, now)
  {
    hide Added, AddFails;
    l := new List();
    var i := 0;
    while i < |rows|
      invariant i <= |rows| && fresh(l) && fresh(l.entries) && l.Valid()
      invariant l.Contents() == Reload(rows[..i], db, now)
    {
      assert rows[..i + 1][..i] == rows[..i];
      if db[rows[i]] > now {
        var _ := l.Add(rows[i], db[rows[i]], now);
      }
      i := i + 1;
    }
    assert rows[..i] == rows;
  }

  lemma AddFailsPrunes(s: seq<Entry>, jti: string, exp: int, now: int)
    ensures AddFails(s, jti, now) ==> Added(s, jti, exp, now) == Live(s, now)
  {
  }
}
