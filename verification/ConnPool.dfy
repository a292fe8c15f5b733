/** The pool of idle outbound connections (cookbook_connpool.c). */
module ConnPool {
  import Buffer

  const MAX_ENTRIES: nat := 128
  const HOST_SIZE: nat := 256
  const INVALID: int := -1

  datatype Entry = Entry(sock: int, host: string, port: int, tls: int, idleSince: int)

  // ---- what the loops compute ----

  predicate Fresh(e: Entry, now: int, timeout: int) {
    now - e.idleSince < timeout
  }

  /** The entries pruning keeps, in order. */
  function Keep(s: seq<Entry>, now: int, timeout: int): seq<Entry> {
    if s == [] then []
    else
      var init, last := Keep(s[..|s| - 1], now, timeout), s[|s| - 1];
      if Fresh(last, now, timeout) then init + [last] else init
  }

  /** The sockets pruning closes, in order. */
  function Expired(s: seq<Entry>, now: int, timeout: int): seq<int> {
    if s == [] then []
    else
      var init, last := Expired(s[..|s| - 1], now, timeout), s[|s| - 1];
      if Fresh(last, now, timeout) then init else init + [last.sock]
  }

  predicate SameHost(e: Entry, host: string, port: int) {
    e.port == port && e.host == host
  }

  function HostCount(s: seq<Entry>, host: string, port: int): (n: nat)
    ensures n <= |s|
  {
    if s == [] then 0
    else HostCount(s[..|s| - 1], host, port) + (if SameHost(s[|s| - 1], host, port) then 1 else 0)
  }

  /** Swap-removal: the last entry takes the freed place. */
  function SwapOut(s: seq<Entry>, i: nat): (r: seq<Entry>)
    requires i < |s|
    ensures |r| == |s| - 1
  {
    s[i := s[|s| - 1]][..|s| - 1]
  }

  /** snprintf into the fixed-size host field. */
  function Stored(host: string): (r: string)
    ensures r == host <==> |host| < HOST_SIZE
  {
    Buffer.Cut(host, HOST_SIZE - 1)
  }

  /** Whether put closes the socket instead of keeping it. */
  predicate Refused(s: seq<Entry>, host: string, port: int, maxIdle: int) {
    HostCount(s, host, port) >= maxIdle || |s| >= MAX_ENTRIES
  }

  /** How often x is idle in the pool. */
  function Idle(s: seq<Entry>, x: int): nat {
    if s == [] then 0 else Idle(s[..|s| - 1], x) + (if s[|s| - 1].sock == x then 1 else 0)
  }

  /** How often x has been closed. */
  function Times(log: seq<int>, x: int): nat {
    if log == [] then 0 else Times(log[..|log| - 1], x) + (if log[|log| - 1] == x then 1 else 0)
  }

  /** In how many places connection x is: idle, closed, or held by a caller. */
  ghost function Places(s: seq<Entry>, log: seq<int>, held: set<int>, x: int): nat {
    Idle(s, x) + Times(log, x) + (if x in held then 1 else 0)
  }

  /** The conservation law: every connection issued so far is in exactly one place, and nothing else is. */
  ghost predicate Conserved(s: seq<Entry>, log: seq<int>, held: set<int>, issued: set<int>) {
    forall x :: Places(s, log, held, x) == if x in issued then 1 else 0
  }

  /** Every host:port has at most maxIdle idle connections. */
  ghost predicate PerHost(s: seq<Entry>, maxIdle: int) {
    forall host, port :: HostCount(s, host, port) <= maxIdle
  }

  // ---- conservation and the per-host bound ----

  lemma AppendIdle(s: seq<Entry>, e: Entry, x: int)
    ensures Idle(s + [e], x) == Idle(s, x) + (if e.sock == x then 1 else 0)
  {
    assert (s + [e])[..|s|] == s;
  }

  lemma {:induction false} AppendTimes(log: seq<int>, more: seq<int>, x: int)
    ensures Times(log + more, x) == Times(log, x) + Times(more, x)
  {
    if more == [] {
      assert log + more == log;
    } else {
      var init := more[..|more| - 1];
      AppendTimes(log, init, x);
      assert (log + more)[..|log + more| - 1] == log + init;
    }
  }

  /** Pruning keeps or closes each connection, never both. */
  lemma {:induction false} PruneConserves(s: seq<Entry>, now: int, timeout: int, x: int)
    ensures Idle(s, x) == Idle(Keep(s, now, timeout), x) + Times(Expired(s, now, timeout), x)
  {
    if s != [] {
      var init, last := s[..|s| - 1], s[|s| - 1];
      PruneConserves(init, now, timeout, x);
      if Fresh(last, now, timeout) {
        AppendIdle(Keep(init, now, timeout), last, x);
      } else {
        AppendTimes(Expired(init, now, timeout), [last.sock], x);
      }
    }
  }

  lemma {:induction false} PruneCounts(s: seq<Entry>, now: int, timeout: int, host: string, port: int)
    ensures HostCount(Keep(s, now, timeout), host, port) <= HostCount(s, host, port)
  {
    if s != [] {
      var init, last := s[..|s| - 1], s[|s| - 1];
      PruneCounts(init, now, timeout, host, port);
      if Fresh(last, now, timeout) {
        AppendCount(Keep(init, now, timeout), last, host, port);
      }
    }
  }

  lemma AppendCount(s: seq<Entry>, e: Entry, host: string, port: int)
    ensures HostCount(s + [e], host, port) == HostCount(s, host, port) + (if SameHost(e, host, port) then 1 else 0)
  {
    assert (s + [e])[..|s|] == s;
  }

  /** What pruning keeps is exactly the fresh entries. */
  lemma {:induction false} KeepMembers(s: seq<Entry>, now: int, timeout: int, e: Entry)
    ensures e in Keep(s, now, timeout) <==> e in s && now - e.idleSince < timeout
  {
    if s != [] {
      var init, last := s[..|s| - 1], s[|s| - 1];
      KeepMembers(init, now, timeout, e);
      assert s == init + [last];
    }
  }

  /** Replacing one entry moves one connection out and one in. */
  lemma {:induction false} UpdateIdle(s: seq<Entry>, i: nat, e: Entry, x: int)
    requires i < |s|
    ensures Idle(s[i := e], x) + (if s[i].sock == x then 1 else 0) == Idle(s, x) + (if e.sock == x then 1 else 0)
  {
    var init := s[..|s| - 1];
    if i < |s| - 1 {
      UpdateIdle(init, i, e, x);
      assert s[i := e][..|s| - 1] == init[i := e];
    } else {
      assert s[i := e][..|s| - 1] == init;
    }
  }

  lemma {:induction false} UpdateCount(s: seq<Entry>, i: nat, e: Entry, host: string, port: int)
    requires i < |s|
    ensures HostCount(s[i := e], host, port) + (if SameHost(s[i], host, port) then 1 else 0)
      == HostCount(s, host, port) + (if SameHost(e, host, port) then 1 else 0)
  {
    var init := s[..|s| - 1];
    if i < |s| - 1 {
      UpdateCount(init, i, e, host, port);
      assert s[i := e][..|s| - 1] == init[i := e];
    } else {
      assert s[i := e][..|s| - 1] == init;
    }
  }

  /** Swap-removal takes out exactly one connection. */
  lemma SwapOutIdle(s: seq<Entry>, i: nat, x: int)
    requires i < |s|
    ensures Idle(s, x) == Idle(SwapOut(s, i), x) + (if s[i].sock == x then 1 else 0)
  {
    hide Idle;
    var last, t := s[|s| - 1], SwapOut(s, i);
    assert s[i := last] == t + [last];
    UpdateIdle(s, i, last, x);
    AppendIdle(t, last, x);
  }

  lemma SwapOutCount(s: seq<Entry>, i: nat, host: string, port: int)
    requires i < |s|
    ensures HostCount(SwapOut(s, i), host, port) <= HostCount(s, host, port)
  {
    hide HostCount;
    var last, t := s[|s| - 1], SwapOut(s, i);
    assert s[i := last] == t + [last];
    UpdateCount(s, i, last, host, port);
    AppendCount(t, last, host, port);
  }

  /** Each step of the pool keeps the conservation law. */
  lemma PruneStep(s: seq<Entry>, log: seq<int>, held: set<int>, issued: set<int>, now: int, timeout: int)
    requires Conserved(s, log, held, issued)
    ensures Conserved(Keep(s, now, timeout), log + Expired(s, now, timeout), held, issued)
  {
    hide Idle, Times, Keep, Expired;
    forall x
      ensures Places(Keep(s, now, timeout), log + Expired(s, now, timeout), held, x) == if x in issued then 1 else 0
    {
      assert Places(s, log, held, x) == if x in issued then 1 else 0;
      PruneConserves(s, now, timeout, x);
      AppendTimes(log, Expired(s, now, timeout), x);
    }
  }

  lemma TakeStep(s: seq<Entry>, i: nat, log: seq<int>, held: set<int>, issued: set<int>)
    requires Conserved(s, log, held, issued) && i < |s|
    ensures Conserved(SwapOut(s, i), log, held + {s[i].sock}, issued)
    ensures s[i].sock in issued && s[i].sock !in held
  {
    hide Idle, Times, SwapOut;
    var sock := s[i].sock;
    SwapOutIdle(s, i, sock);
    assert Places(s, log, held, sock) == if sock in issued then 1 else 0;
    forall x
      ensures Places(SwapOut(s, i), log, held + {sock}, x) == if x in issued then 1 else 0
    {
      assert Places(s, log, held, x) == if x in issued then 1 else 0;
      SwapOutIdle(s, i, x);
    }
  }

  lemma DialStep(s: seq<Entry>, log: seq<int>, held: set<int>, issued: set<int>, sock: int)
    requires Conserved(s, log, held, issued) && sock !in issued
    ensures Conserved(s, log, held + {sock}, issued + {sock}) && sock !in held
  {
    hide Idle, Times;
    assert Places(s, log, held, sock) == 0;
    forall x
      ensures Places(s, log, held + {sock}, x) == if x in issued + {sock} then 1 else 0
    {
      assert Places(s, log, held, x) == if x in issued then 1 else 0;
    }
  }

  lemma PutStep(s: seq<Entry>, e: Entry, log: seq<int>, held: set<int>, issued: set<int>)
    requires Conserved(s, log, held, issued) && e.sock in held
    ensures Conserved(s + [e], log, held - {e.sock}, issued)
  {
    hide Idle, Times;
    forall x
      ensures Places(s + [e], log, held - {e.sock}, x) == if x in issued then 1 else 0
    {
      assert Places(s, log, held, x) == if x in issued then 1 else 0;
      AppendIdle(s, e, x);
    }
  }

  lemma CloseStep(s: seq<Entry>, log: seq<int>, held: set<int>, issued: set<int>, sock: int)
    requires Conserved(s, log, held, issued) && sock in held
    ensures Conserved(s, log + [sock], held - {sock}, issued)
  {
    hide Idle, Times;
    forall x
      ensures Places(s, log + [sock], held - {sock}, x) == if x in issued then 1 else 0
    {
      assert Places(s, log, held, x) == if x in issued then 1 else 0;
      AppendTimes(log, [sock], x);
      OneTime(sock, x);
    }
  }

  lemma OneTime(sock: int, x: int)
    ensures Times([sock], x) == if sock == x then 1 else 0
  {
    assert [sock][..0] == [];
  }

  /** The sockets of the entries, in order. */
  function Socks(s: seq<Entry>): seq<int> {
    seq(|s|, i requires 0 <= i < |s| => s[i].sock)
  }

  lemma {:induction false} SocksTimes(s: seq<Entry>, x: int)
    ensures Times(Socks(s), x) == Idle(s, x)
  {
    if s != [] {
      var init := s[..|s| - 1];
      SocksTimes(init, x);
      assert Socks(s)[..|s| - 1] == Socks(init);
    }
  }

  lemma DrainStep(s: seq<Entry>, log: seq<int>, held: set<int>, issued: set<int>)
    requires Conserved(s, log, held, issued)
    ensures Conserved([], log + Socks(s), held, issued)
  {
    hide Idle, Times;
    forall x
      ensures Places([], log + Socks(s), held, x) == if x in issued then 1 else 0
    {
      assert Places(s, log, held, x) == if x in issued then 1 else 0;
      AppendTimes(log, Socks(s), x);
      SocksTimes(s, x);
      NoneIdle(x);
    }
  }

  lemma NoneIdle(x: int)
    ensures Idle([], x) == 0 && Times([], x) == 0
  {
  }

  /** A put under a name that fits, or into a pool whose size is within the bound, keeps the per-host bound. */
  lemma PutKeepsBound(s: seq<Entry>, e: Entry, maxIdle: int)
    requires PerHost(s, maxIdle)
    requires HostCount(s, e.host, e.port) < maxIdle || |s| < MAX_ENTRIES <= maxIdle
    ensures PerHost(s + [e], maxIdle)
  {
    forall host, port
      ensures HostCount(s + [e], host, port) <= maxIdle
    {
      AppendCount(s, e, host, port);
      CountWithin(s, host, port);
    }
  }

  lemma {:induction false} CountWithin(s: seq<Entry>, host: string, port: int)
    ensures HostCount(s, host, port) <= |s|
  {
    if s != [] {
      CountWithin(s[..|s| - 1], host, port);
    }
  }

  /** Every put of the host name that is not refused keeps the bound. */
  ghost predicate BoundSurvives(host: string, port: int, maxIdle: int) {
    forall s, sock, tls, now ::
      PerHost(s, maxIdle) && !Refused(s, host, port, maxIdle)
      ==> PerHost(s + [Entry(sock, Stored(host), port, tls, now)], maxIdle)
  }

  /** The bound survives exactly when the name fits its field, or no pool can hold more entries than the bound. */
  lemma BoundSurvivesIffFits(host: string, port: int, maxIdle: int)
    requires maxIdle > 0
    ensures BoundSurvives(host, port, maxIdle) <==> |host| < 256 || maxIdle >= 128
  {
    if |host| < HOST_SIZE || maxIdle >= MAX_ENTRIES {
      forall s, sock, tls, now | PerHost(s, maxIdle) && !Refused(s, host, port, maxIdle)
        ensures PerHost(s + [Entry(sock, Stored(host), port, tls, now)], maxIdle)
      {
        PutKeepsBound(s, Entry(sock, Stored(host), port, tls, now), maxIdle);
      }
    } else {
      LongNameOverfills(host, port, maxIdle);
    }
  }

  /** n entries of one host. */
  function Clones(host: string, port: int, n: nat): (s: seq<Entry>)
    ensures |s| == n
  {
    if n == 0 then [] else Clones(host, port, n - 1) + [Entry(n, host, port, 0, 0)]
  }

  lemma {:induction false} ClonesCount(host: string, port: int, n: nat, h: string, p: int)
    ensures HostCount(Clones(host, port, n), h, p) == if h == host && p == port then n else 0
  {
    if n > 0 {
      ClonesCount(host, port, n - 1, h, p);
      AppendCount(Clones(host, port, n - 1), Entry(n, host, port, 0, 0), h, p);
    }
  }

  /** A name too long for its field is stored under another name, which the count does not see. */
  lemma LongNameOverfills(host: string, port: int, maxIdle: nat)
    requires 0 < maxIdle < MAX_ENTRIES && |host| >= HOST_SIZE
    ensures !BoundSurvives(host, port, maxIdle)
  {
    var s := Clones(Stored(host), port, maxIdle);
    var e := Entry(0, Stored(host), port, 0, 0);
    forall h, p
      ensures HostCount(s, h, p) <= maxIdle
    {
      ClonesCount(Stored(host), port, maxIdle, h, p);
    }
    ClonesCount(Stored(host), port, maxIdle, host, port);
    ClonesCount(Stored(host), port, maxIdle, Stored(host), port);
    AppendCount(s, e, Stored(host), port);
    assert HostCount(s + [e], Stored(host), port) > maxIdle;
    assert !PerHost(s + [e], maxIdle);
    assert PerHost(s, maxIdle) && !Refused(s, host, port, maxIdle);
  }

  // ---- the pool ----

  /** A socket number stands for one connection: the numbers connect returns are never reused. */
  class Pool {
    const entries: array<Entry>
    var count: nat
    const maxIdle: int
    const timeout: int
    /** The calls of cookbook_sock_close. */
    var closed: seq<int>
    ghost var held: set<int>
    ghost var issued: set<int>

    ghost predicate Shape()
      reads this
    {
      entries.Length == MAX_ENTRIES && count <= MAX_ENTRIES && maxIdle > 0 && timeout > 0
    }

    ghost function Contents(): (s: seq<Entry>)
      requires Shape()
      reads this, entries
      ensures |s| == count
    {
      entries[..count]
    }

    ghost predicate Valid()
      reads this, entries
    {
      Shape() && INVALID !in issued && Conserved(Contents(), closed, held, issued)
    }

    ghost predicate Bounded()
      requires Shape()
      reads this, entries
    {
      PerHost(Contents(), maxIdle)
    }

    /** cookbook_connpool_create */
    constructor (idle: int, seconds: int)
      ensures Valid() && Bounded() && fresh(entries)
      ensures Contents() == [] && closed == [] && held == {} && issued == {}
      ensures maxIdle == (if idle > 0 then idle else 4) && timeout == (if seconds > 0 then seconds else 60)
    {
      maxIdle := if idle > 0 then idle else 4;
      timeout := if seconds > 0 then seconds else 60;
      entries := new Entry[MAX_ENTRIES](_ => Entry(INVALID, "", 0, 0, 0));
      count, closed, held, issued := 0, [], {}, {};
    }

    /** pool_prune: compaction in place. */
    method Prune(now: int)
      requires Shape()
      modifies this`count, this`closed, entries
      ensures Shape()
      ensures Contents() == Keep(old(Contents()), now, timeout)
      ensures closed == old(closed) + Expired(old(Contents()), now, timeout)
    {
      hide Keep, Expired;
      ghost var was, log := Contents(), closed;
      var w, i := 0, 0;
      PruneStart(was, now, timeout);
      while i < count
        invariant w <= i <= count == |was|
        invariant forall k :: i <= k < count ==> entries[k] == was[k]
        invariant entries[..w] == Keep(was[..i], now, timeout)
        invariant closed == log + Expired(was[..i], now, timeout)
      {
        PruneNext(was, i, now, timeout);
        if Fresh(entries[i], now, timeout) {
          Shift(w, i);
          w := w + 1;
        } else {
          closed := closed + [entries[i].sock];
        }
        i := i + 1;
      }
      assert was[..i] == was;
      count := w;
    }

    /** One move of the compaction. */
    method Shift(w: nat, i: nat)
      requires Shape() && w <= i < count
      modifies entries
      ensures entries[..w + 1] == old(entries[..w]) + [old(entries[i])]
      ensures forall k :: i < k < count ==> entries[k] == old(entries[k])
    {
      if w != i {
        entries[w] := entries[i];
      }
    }

    /** The first entry for host, port and tls, if any. */
    method Find(host: string, port: int, tls: int) returns (i: nat)
      requires Shape()
      ensures i <= count
      ensures i < count ==> SameHost(entries[i], host, port) && entries[i].tls == tls
      ensures forall j :: 0 <= j < i ==> !(SameHost(entries[j], host, port) && entries[j].tls == tls)
    {
      i := 0;
      while i < count && !(SameHost(entries[i], host, port) && entries[i].tls == tls)
        invariant i <= count
        invariant forall j :: 0 <= j < i ==> !(SameHost(entries[j], host, port) && entries[j].tls == tls)
      {
        i := i + 1;
      }
    }

    method RemoveAt(i: nat) returns (s: int)
      requires Shape() && i < count
      modifies this`count, entries
      ensures Shape() && s == old(entries[i].sock)
      ensures Contents() == SwapOut(old(Contents()), i)
    {
      s := entries[i].sock;
      count := count - 1;
      entries[i] := entries[count];
    }

    /**
     * cookbook_connpool_get. The outcome of dialling is an input: a connection
     * not seen before, or INVALID. The result is the caller's from here on.
     */
    method Get(host: string, port: int, tls: int, now: int, dialled: int) returns (s: int)
      requires Valid() && dialled !in issued
      modifies this, entries
      ensures Valid() && (old(Bounded()) ==> Bounded())
      ensures held == old(held) + (if s == INVALID then {} else {s}) && s !in old(held)
      ensures s in old(issued) ==> issued == old(issued)
      ensures s in old(issued) ==> exists e ::
        && e in old(Contents()) && e.sock == s && e.host == host && e.port == port && e.tls == tls
        && now - e.idleSince < timeout
      ensures s !in old(issued) ==>
        && s == (if tls != 0 then INVALID else dialled)
        && (forall e :: e in old(Contents()) && e.host == host && e.port == port && e.tls == tls ==>
              now - e.idleSince >= timeout)
        && issued == old(issued) + (if s == INVALID then {} else {s})
      ensures closed == old(closed) + Expired(old(Contents()), now, timeout)
      ensures
        var kept := Keep(old(Contents()), now, timeout);
        if s in old(issued) then exists i :: 0 <= i < |kept| && kept[i].sock == s && Contents() == SwapOut(kept, i)
        else Contents() == kept
    {
      hide Conserved, PerHost, Keep, SwapOut, Expired;
      ghost var was, log := Contents(), closed;
      PruneStep(was, log, held, issued, now, timeout);
      PruneAll(was, now, timeout, maxIdle);
      Prune(now);
      ghost var kept := Contents();
      var i := Find(host, port, tls);
      if i < count {
        TakeStep(kept, i, closed, held, issued);
        SwapOutAll(kept, i, maxIdle);
        KeptMatches(was, i, host, port, tls, now, timeout);
        s := RemoveAt(i);
        held := held + {s};
        return;
      }
      NoneKept(was, host, port, tls, now, timeout);
      assert INVALID !in held by { HeldIssued(kept, closed, held, issued, INVALID); }
      if tls != 0 {
        return INVALID;
      }
      s := dialled;
      if s != INVALID {
        DialStep(kept, closed, held, issued, s);
        held, issued := held + {s}, issued + {s};
      }
    }

    /**
     * cookbook_connpool_put of a socket the caller holds: kept when there is room,
     * else closed; the caller no longer holds it either way.
     */
    method Put(sock: int, host: string, port: int, tls: int, now: int, later: int)
      requires Valid() && (sock == INVALID || sock in held)
      modifies this, entries
      ensures Valid() && issued == old(issued)
      ensures sock == INVALID ==> Contents() == old(Contents()) && held == old(held) && closed == old(closed)
      ensures sock != INVALID ==>
        var kept := Keep(old(Contents()), now, timeout);
        var refused := HostCount(kept, host, port) >= maxIdle || |kept| >= 128;
        && held == old(held) - {sock}
        && Contents() == (if refused then kept else kept + [Entry(sock, Stored(host), port, tls, later)])
        && closed == old(closed) + Expired(old(Contents()), now, timeout) + (if refused then [sock] else [])
      ensures old(Bounded()) && (|host| < HOST_SIZE || maxIdle >= MAX_ENTRIES) ==> Bounded()
    {
      hide Conserved, PerHost, Keep, Expired, HostCount, Stored;
      if sock == INVALID {
        return;
      }
      ghost var was, log := Contents(), closed;
      PruneStep(was, log, held, issued, now, timeout);
      PruneAll(was, now, timeout, maxIdle);
      Prune(now);
      ghost var kept := Contents();
      var hostCount := CountHost(host, port);
      if hostCount >= maxIdle || count >= MAX_ENTRIES {
        CloseStep(kept, closed, held, issued, sock);
        closed, held := closed + [sock], held - {sock};
      } else {
        var e := Entry(sock, Stored(host), port, tls, later);
        PutStep(kept, e, closed, held, issued);
        Append(e);
        held := held - {sock};
        if PerHost(kept, maxIdle) && (|host| < HOST_SIZE || maxIdle >= MAX_ENTRIES) {
          PutKeepsBound(kept, e, maxIdle);
        }
      }
    }

    method Append(e: Entry)
      requires Shape() && count < MAX_ENTRIES
      modifies this`count, entries
      ensures Shape() && Contents() == old(Contents()) + [e]
    {
      entries[count] := e;
      count := count + 1;
    }

    method CountHost(host: string, port: int) returns (n: nat)
      requires Shape()
      ensures n == HostCount(Contents(), host, port)
    {
      n := 0;
      var i := 0;
      while i < count
        invariant i <= count
        invariant n == HostCount(entries[..i], host, port)
      {
        assert entries[..i + 1][..i] == entries[..i];
        if SameHost(entries[i], host, port) {
          n := n + 1;
        }
        i := i + 1;
      }
    }

    /** A caller closes a socket it holds. */
    method Release(sock: int)
      requires Valid() && sock in held
      modifies this`held, this`closed
      ensures Valid() && held == old(held) - {sock} && closed == old(closed) + [sock]
    {
      hide Conserved;
      CloseStep(Contents(), closed, held, issued, sock);
      held, closed := held - {sock}, closed + [sock];
    }

    /** cookbook_connpool_destroy: nothing idle is left open. */
    method Destroy()
      requires Valid()
      modifies this`count, this`closed
      ensures Valid() && Contents() == [] && closed == old(closed) + Socks(old(Contents()))
    {
      hide Conserved;
      ghost var s, log := Contents(), closed;
      DrainStep(s, log, held, issued);
      var i := 0;
      while i < count
        invariant i <= count == |s|
        invariant closed == log + Socks(s)[..i]
      {
        closed := closed + [entries[i].sock];
        i := i + 1;
      }
      assert closed == log + Socks(s);
      count := 0;
      assert Contents() == [];
    }
  }

  // ---- what a get finds ----

  /** Connection s was idle, for this very destination, and not yet expired. */
  ghost predicate Matched(was: seq<Entry>, s: int, host: string, port: int, tls: int, now: int, timeout: int) {
    exists e :: e in was && e.sock == s && SameHost(e, host, port) && e.tls == tls && Fresh(e, now, timeout)
  }

  /** No unexpired connection to this destination was idle. */
  ghost predicate Unmatched(was: seq<Entry>, host: string, port: int, tls: int, now: int, timeout: int) {
    forall e :: e in was && SameHost(e, host, port) && e.tls == tls ==> !Fresh(e, now, timeout)
  }

  lemma KeptMatches(was: seq<Entry>, i: nat, host: string, port: int, tls: int, now: int, timeout: int)
    requires i < |Keep(was, now, timeout)|
    requires var e := Keep(was, now, timeout)[i]; SameHost(e, host, port) && e.tls == tls
    ensures Matched(was, Keep(was, now, timeout)[i].sock, host, port, tls, now, timeout)
  {
    hide Keep;
    KeepMembers(was, now, timeout, Keep(was, now, timeout)[i]);
  }

  lemma NoneKept(was: seq<Entry>, host: string, port: int, tls: int, now: int, timeout: int)
    requires var kept := Keep(was, now, timeout);
      forall j :: 0 <= j < |kept| ==> !(SameHost(kept[j], host, port) && kept[j].tls == tls)
    ensures Unmatched(was, host, port, tls, now, timeout)
  {
    hide Keep;
    forall e | e in was && SameHost(e, host, port) && e.tls == tls
      ensures !Fresh(e, now, timeout)
    {
      KeepMembers(was, now, timeout, e);
    }
  }

  lemma HeldIssued(s: seq<Entry>, log: seq<int>, held: set<int>, issued: set<int>, x: int)
    requires Conserved(s, log, held, issued)
    ensures x in held ==> x in issued
  {
    assert Places(s, log, held, x) == if x in issued then 1 else 0;
  }

  lemma PruneStart(s: seq<Entry>, now: int, timeout: int)
    ensures Keep(s[..0], now, timeout) == [] && Expired(s[..0], now, timeout) == []
  {
  }

  /** How one more entry changes what is kept and what is closed. */
  lemma PruneNext(s: seq<Entry>, i: nat, now: int, timeout: int)
    requires i < |s|
    ensures Keep(s[..i + 1], now, timeout)
      == if Fresh(s[i], now, timeout) then Keep(s[..i], now, timeout) + [s[i]] else Keep(s[..i], now, timeout)
    ensures Expired(s[..i + 1], now, timeout)
      == Expired(s[..i], now, timeout) + (if Fresh(s[i], now, timeout) then [] else [s[i].sock])
  {
    assert s[..i + 1][..i] == s[..i];
  }

  lemma PruneAll(s: seq<Entry>, now: int, timeout: int, maxIdle: int)
    ensures PerHost(s, maxIdle) ==> PerHost(Keep(s, now, timeout), maxIdle)
  {
    hide HostCount, Keep;
    forall host, port
      ensures HostCount(Keep(s, now, timeout), host, port) <= HostCount(s, host, port)
    {
      PruneCounts(s, now, timeout, host, port);
    }
  }

  lemma SwapOutAll(s: seq<Entry>, i: nat, maxIdle: int)
    requires i < |s|
    ensures PerHost(s, maxIdle) ==> PerHost(SwapOut(s, i), maxIdle)
  {
    hide HostCount, SwapOut;
    forall host, port
      ensures HostCount(SwapOut(s, i), host, port) <= HostCount(s, host, port)
    {
      SwapOutCount(s, i, host, port);
    }
  }
}
