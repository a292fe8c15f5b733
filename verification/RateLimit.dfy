/** The per-subject request limiter (check_rate_limit in cookbook_server.c). */
module RateLimit {
  import opened Buffer
  import opened Words

  const WINDOW: int := 60

  const SUBJECT: nat := 128

  /** What the claim field holds; a bucket's own field is as long. */
  type Subject = s: string | |s| < SUBJECT

  datatype Bucket = Bucket(sub: string, count: i32, start: int)

  datatype Call = Call(sub: string, now: int)

  // ---- one subject on its own ----

  datatype Window = Unseen | Window(start: int, count: int)

  /** A call opens a window or counts in the current one. */
  function Advance(w: Window, now: int): (r: Window)
    ensures r.Window?
  {
    if w.Unseen? || now - w.start >= WINDOW then Window(now, 1) else Window(w.start, w.count + 1)
  }

  /** The window of subject x after the calls. */
  function After(calls: seq<Call>, x: string): Window {
    if calls == [] then Unseen
    else
      var w, last := After(calls[..|calls| - 1], x), calls[|calls| - 1];
      if last.sub == x then Advance(w, last.now) else w
  }

  /** A call of x at this time, after these calls, is let through. */
  predicate Passes(calls: seq<Call>, x: string, now: int, limit: int) {
    limit <= 0 || x == "" || Advance(After(calls, x), now).count <= limit
  }

  /** Call k is one of subject x and is let through. */
  predicate Admitted(calls: seq<Call>, k: nat, x: string, limit: int)
    requires k < |calls|
  {
    calls[k].sub == x && Passes(calls[..k], x, calls[k].now, limit)
  }

  /** How many calls of x with index in [lo, hi) are let through. */
  function Count(calls: seq<Call>, lo: nat, hi: nat, x: string, limit: int): nat
    requires lo <= hi <= |calls|
    decreases hi
  {
    if lo == hi then 0
    else Count(calls, lo, hi - 1, x, limit) + (if Admitted(calls, hi - 1, x, limit) then 1 else 0)
  }

  ghost predicate Monotone(calls: seq<Call>) {
    forall i, j :: 0 <= i < j < |calls| ==> calls[i].now <= calls[j].now
  }

  function Min(a: int, b: int): int {
    if a < b then a else b
  }

  /**
   * What earlier windows can have let through when the current one was opened e seconds into a span: a full window
   * every 60 seconds, and where e is no multiple of 60 one more, whose opening call lies before the span.
   */
  function Prior(limit: int, e: nat): int {
    if e == 0 then 0 else if e < WINDOW then limit - 1 else limit + Prior(limit, e - WINDOW)
  }

  lemma {:induction false} PriorLeast(limit: int, e: nat)
    requires limit > 0
    ensures Prior(limit, e) >= if e == 0 then 0 else limit - 1
  {
    if e >= WINDOW {
      PriorLeast(limit, e - WINDOW);
    }
  }

  lemma {:induction false} PriorGrows(limit: int, e: nat, f: nat)
    requires limit > 0 && e <= f
    ensures Prior(limit, e) <= Prior(limit, f)
  {
    if e < WINDOW {
      PriorLeast(limit, f);
    } else {
      PriorGrows(limit, e - WINDOW, f - WINDOW);
    }
  }

  /** What the window says about the calls admitted since index lo. */
  ghost predicate Tallied(n: nat, w: Window, since: int, limit: int) {
    && (w.Unseen? ==> n == 0)
    && (w.Window? ==>
      && w.count > 0
      && (n > 0 ==> w.start + WINDOW > since)
      && n <= Min(limit, w.count) + (if w.start < since then -1 else Prior(limit, w.start - since)))
  }

  lemma {:induction false} Tally(calls: seq<Call>, lo: nat, hi: nat, x: string, limit: int)
    requires Monotone(calls) && limit > 0 && x != "" && lo <= hi <= |calls| && lo < |calls|
    ensures Tallied(Count(calls, lo, hi, x, limit), After(calls[..hi], x), calls[lo].now, limit)
    ensures var w := After(calls[..hi], x); lo < hi && w.Window? ==> w.start <= calls[hi - 1].now
    decreases hi
  {
    hide Prior;
    if hi == lo {
      Counted(calls[..hi], x);
      Started(calls, hi, x);
      PriorLeast(limit, 0);
    } else {
      Tally(calls, lo, hi - 1, x, limit);
      assert calls[..hi][..hi - 1] == calls[..hi - 1];
      var w, c := After(calls[..hi - 1], x), calls[hi - 1];
      Started(calls, hi - 1, x);
      if c.sub == x {
        TallyStep(Count(calls, lo, hi - 1, x, limit), w, calls[lo].now, c.now, limit);
      }
    }
  }

  /** One more call of the subject. */
  lemma TallyStep(n: nat, w: Window, since: int, now: int, limit: int)
    requires Tallied(n, w, since, limit) && limit > 0 && since <= now
    ensures var v := Advance(w, now); Tallied(n + (if v.count <= limit then 1 else 0), v, since, limit)
  {
    PriorLeast(limit, now - since);
    if w.Window? && now - w.start >= WINDOW && w.start >= since {
      PriorGrows(limit, w.start - since + WINDOW, now - since);
    }
  }

  /** A window opens at the time of one of the calls. */
  lemma {:induction false} Started(calls: seq<Call>, n: nat, x: string)
    requires Monotone(calls) && n < |calls|
    ensures var w := After(calls[..n], x); w.Window? ==> w.start <= calls[n].now
  {
    if n > 0 {
      Started(calls, n - 1, x);
      assert calls[..n][..n - 1] == calls[..n - 1];
    }
  }

  lemma {:induction false} Counted(calls: seq<Call>, x: string)
    ensures var w := After(calls, x); w.Window? ==> w.count > 0
  {
    if calls != [] {
      Counted(calls[..|calls| - 1], x);
    }
  }

  /** The most calls of a subject that pass while the clock moves on by d seconds. */
  function SpanBound(limit: int, d: nat): int {
    if d % WINDOW == 0 then limit * (d / WINDOW + 1) else limit * (d / WINDOW + 2) - 1
  }

  lemma {:induction false} BoundIsPrior(limit: int, d: nat)
    ensures SpanBound(limit, d) == limit + Prior(limit, d)
  {
    if d >= WINDOW {
      BoundIsPrior(limit, d - WINDOW);
      OneWindowLess(d);
      MulStep(limit, d / WINDOW - 1);
    }
  }

  lemma OneWindowLess(d: nat)
    requires d >= WINDOW
    ensures (d - WINDOW) / WINDOW == d / WINDOW - 1 && (d - WINDOW) % WINDOW == d % WINDOW
  {
  }

  lemma MulStep(limit: int, q: int)
    ensures limit * (q + 2) == limit * (q + 1) + limit && limit * (q + 3) == limit * (q + 2) + limit
  {
  }

  /** In any span of any length, no more calls of a subject pass than the bound for that length. */
  lemma AnySpan(calls: seq<Call>, lo: nat, hi: nat, x: string, limit: int)
    requires Monotone(calls) && limit > 0 && x != "" && lo < hi <= |calls|
    ensures var d := calls[hi - 1].now - calls[lo].now;
      Count(calls, lo, hi, x, limit) <= if d % 60 == 0 then limit * (d / 60 + 1) else limit * (d / 60 + 2) - 1
  {
    SpanWithin(calls, lo, hi, x, limit);
    hide Count;
  }

  lemma SpanWithin(calls: seq<Call>, lo: nat, hi: nat, x: string, limit: int)
    requires Monotone(calls) && limit > 0 && x != "" && lo < hi <= |calls|
    ensures Count(calls, lo, hi, x, limit) <= SpanBound(limit, calls[hi - 1].now - calls[lo].now)
  {
    hide Count, After, Prior, SpanBound;
    var since, d := calls[lo].now, calls[hi - 1].now - calls[lo].now;
    assert d >= 0;
    Tally(calls, lo, hi, x, limit);
    BoundIsPrior(limit, d);
    PriorLeast(limit, d);
    var w := After(calls[..hi], x);
    if w.Window? && w.start >= since {
      PriorGrows(limit, w.start - since, d);
    }
  }

  /** In a span of up to 60 seconds at most 2·limit calls pass, and one fewer in a span of less than 60. */
  lemma MinuteSpan(calls: seq<Call>, lo: nat, hi: nat, x: string, limit: int)
    requires Monotone(calls) && limit > 0 && x != "" && lo < hi <= |calls|
    ensures var d := calls[hi - 1].now - calls[lo].now;
      && (d <= 60 ==> Count(calls, lo, hi, x, limit) <= 2 * limit)
      && (d < 60 ==> Count(calls, lo, hi, x, limit) <= 2 * limit - 1)
  {
    hide Count, After;
    AnySpan(calls, lo, hi, x, limit);
  }

  /** Without a limit, and for an empty subject, every call passes. */
  lemma Exempt(calls: seq<Call>, k: nat, x: string, limit: int)
    requires k < |calls| && calls[k].sub == x && (limit <= 0 || x == "")
    ensures Admitted(calls, k, x, limit)
  {
  }

  /** Call lo of x opens a window that is still open after hi calls. */
  ghost predicate OneWindow(calls: seq<Call>, lo: nat, hi: nat, x: string) {
    && lo < hi <= |calls| && calls[lo].sub == x
    && var w := After(calls[..lo], x);
    (w.Unseen? || calls[lo].now - w.start >= WINDOW) && calls[hi - 1].now < calls[lo].now + WINDOW
  }

  /** How many calls x makes with index in [lo, hi). */
  function Made(calls: seq<Call>, lo: nat, hi: nat, x: string): nat
    requires lo <= hi <= |calls|
    decreases hi
  {
    if lo == hi then 0 else Made(calls, lo, hi - 1, x) + (if calls[hi - 1].sub == x then 1 else 0)
  }

  /** Within one window exactly the first limit calls pass. */
  lemma {:induction false} OneWindowExact(calls: seq<Call>, lo: nat, hi: nat, x: string, limit: int)
    requires Monotone(calls) && limit > 0 && x != "" && OneWindow(calls, lo, hi, x)
    ensures Count(calls, lo, hi, x, limit) == Min(limit, Made(calls, lo, hi, x))
    ensures After(calls[..hi], x) == Window(calls[lo].now, Made(calls, lo, hi, x))
    decreases hi
  {
    assert calls[..hi][..hi - 1] == calls[..hi - 1];
    if hi > lo + 1 {
      OneWindowExact(calls, lo, hi - 1, x, limit);
    } else {
      assert Count(calls, lo, lo, x, limit) == 0 && Made(calls, lo, lo, x) == 0;
    }
  }

  lemma {:induction false} CountSplit(calls: seq<Call>, lo: nat, mid: nat, hi: nat, x: string, limit: int)
    requires lo <= mid <= hi <= |calls|
    ensures Count(calls, lo, hi, x, limit) == Count(calls, lo, mid, x, limit) + Count(calls, mid, hi, x, limit)
    decreases hi
  {
    if mid < hi {
      CountSplit(calls, lo, mid, hi - 1, x, limit);
    }
  }

  /** n calls of one subject at one time. */
  function Rush(n: nat, now: int): (r: seq<Call>)
    ensures |r| == n && forall i :: 0 <= i < n ==> r[i] == Call("a", now)
  {
    seq(n, _ => Call("a", now))
  }

  /** A call at 0, the rest of its window at time t, and a full window every 60 seconds after. */
  function Bursts(limit: nat, t: int, m: nat): (r: seq<Call>)
    requires limit > 0 && m > 0 && 0 <= t < WINDOW
    ensures |r| >= limit && r[0].now == 0 && r[|r| - 1].now <= WINDOW * (m - 1) + (if m == 1 then t else 0)
    ensures forall i :: 0 < i < |r| ==> r[i].now >= t
    ensures |r| > 1 || m > 1 || limit == 1
  {
    if m == 1 then Rush(1, 0) + Rush(limit - 1, t) else Bursts(limit, t, m - 1) + Rush(limit, WINDOW * (m - 1))
  }

  lemma {:induction false} BurstsMonotone(limit: nat, t: int, m: nat)
    requires limit > 0 && m > 0 && 0 <= t < WINDOW
    ensures Monotone(Bursts(limit, t, m))
    ensures forall c :: c in Bursts(limit, t, m) ==>
      c.sub == "a" && c.now <= WINDOW * (m - 1) + (if m == 1 then t else 0)
  {
    if m > 1 {
      BurstsMonotone(limit, t, m - 1);
      Behind(Bursts(limit, t, m - 1), limit, WINDOW * (m - 1));
    }
  }

  lemma Behind(calls: seq<Call>, n: nat, now: int)
    requires Monotone(calls) && forall c :: c in calls ==> c.now <= now
    ensures Monotone(calls + Rush(n, now))
    ensures forall c :: c in calls + Rush(n, now) ==> c in calls || c == Call("a", now)
  {
  }

  lemma {:induction false} MadeAll(calls: seq<Call>, lo: nat, hi: nat)
    requires lo <= hi <= |calls| && forall c :: c in calls ==> c.sub == "a"
    ensures Made(calls, lo, hi, "a") == hi - lo
    decreases hi
  {
    if lo < hi {
      MadeAll(calls, lo, hi - 1);
    }
  }

  /** Later calls change nothing in what was counted before. */
  lemma {:induction false} CountPrefix(calls: seq<Call>, more: seq<Call>, lo: nat, hi: nat, x: string, limit: int)
    requires lo <= hi <= |calls|
    ensures Count(calls + more, lo, hi, x, limit) == Count(calls, lo, hi, x, limit)
    decreases hi
  {
    if lo < hi {
      CountPrefix(calls, more, lo, hi - 1, x, limit);
      assert (calls + more)[..hi - 1] == calls[..hi - 1];
    }
  }

  /** Every call of the bursts passes, and the last window is full. */
  lemma {:induction false} BurstsPass(limit: nat, t: int, m: nat)
    requires limit > 0 && m > 0 && 0 <= t < WINDOW
    ensures var b := Bursts(limit, t, m);
      && |b| == limit * m
      && Count(b, 0, 1, "a", limit) == 1
      && Count(b, 0, |b|, "a", limit) == |b|
      && After(b, "a") == Window(WINDOW * (m - 1), limit)
  {
    hide Count, Made, After, Monotone;
    var b := Bursts(limit, t, m);
    BurstsMonotone(limit, t, m);
    if m == 1 {
      FirstBurst(limit, b);
    } else {
      BurstsPass(limit, t, m - 1);
      NextBurst(limit, Bursts(limit, t, m - 1), Rush(limit, WINDOW * (m - 1)), WINDOW * (m - 1));
      MulStep(limit, m - 3);
    }
  }

  lemma FirstBurst(limit: nat, b: seq<Call>)
    requires |b| == limit > 0 && b[0].now == 0 && b[limit - 1].now < WINDOW
    requires Monotone(b) && forall c :: c in b ==> c.sub == "a"
    ensures Count(b, 0, 1, "a", limit) == 1 && Count(b, 0, limit, "a", limit) == limit
    ensures After(b, "a") == Window(0, limit)
  {
    hide Count, Made, After, Monotone;
    assert b[..0] == [] && b[..limit] == b;
    NothingYet("a");
    MadeAll(b, 0, 1);
    MadeAll(b, 0, limit);
    OneWindowExact(b, 0, 1, "a", limit);
    OneWindowExact(b, 0, limit, "a", limit);
  }

  lemma NextBurst(limit: nat, c: seq<Call>, r: seq<Call>, now: int)
    requires limit > 0 && c != [] && r == Rush(limit, now) && Monotone(c + r) && forall d :: d in c + r ==> d.sub == "a"
    requires Count(c, 0, 1, "a", limit) == 1 && Count(c, 0, |c|, "a", limit) == |c|
    requires After(c, "a") == Window(now - WINDOW, limit)
    ensures var b := c + r;
      && Count(b, 0, 1, "a", limit) == 1
      && Count(b, 0, |b|, "a", limit) == |b|
      && After(b, "a") == Window(now, limit)
  {
    hide Count, Made, After, Monotone;
    var b := c + r;
    assert b[..|c|] == c && b[..|b|] == b && b[|c|] == r[0] && b[|b| - 1] == r[limit - 1];
    CountPrefix(c, r, 0, 1, "a", limit);
    CountPrefix(c, r, 0, |c|, "a", limit);
    MadeAll(b, |c|, |b|);
    OneWindowExact(b, |c|, |b|, "a", limit);
    CountSplit(b, 0, |c|, |b|, "a", limit);
  }

  /** For every limit and every length the bound is reached. */
  lemma AnySpanIsTight(limit: nat, d: nat) returns (calls: seq<Call>, lo: nat)
    requires limit > 0
    ensures Monotone(calls) && lo < |calls| && calls[|calls| - 1].now - calls[lo].now <= d
    ensures Count(calls, lo, |calls|, "a", limit)
         == if d % 60 == 0 then limit * (d / 60 + 1) else limit * (d / 60 + 2) - 1
  {
    hide Count, Monotone;
    if d % WINDOW == 0 {
      calls, lo := FromFirst(limit, d / WINDOW, d);
    } else {
      calls, lo := FromSecond(limit, d / WINDOW, d % WINDOW, d);
    }
  }

  /** The span starts with the call that opens a window. */
  lemma FromFirst(limit: nat, q: nat, d: nat) returns (calls: seq<Call>, lo: nat)
    requires limit > 0 && d == WINDOW * q
    ensures Monotone(calls) && lo < |calls| && calls[|calls| - 1].now - calls[lo].now <= d
    ensures Count(calls, lo, |calls|, "a", limit) == SpanBound(limit, d)
  {
    hide Count, After, Bursts, Monotone, SpanBound;
    BoundAt(limit, q, 0);
    calls, lo := Bursts(limit, 0, q + 1), 0;
    BurstsMonotone(limit, 0, q + 1);
    BurstsPass(limit, 0, q + 1);
  }

  /** The span starts just behind that call, with the rest of its window. */
  lemma FromSecond(limit: nat, q: nat, r: nat, d: nat) returns (calls: seq<Call>, lo: nat)
    requires limit > 0 && d == WINDOW * q + r && 0 < r < WINDOW
    ensures Monotone(calls) && lo < |calls| && calls[|calls| - 1].now - calls[lo].now <= d
    ensures Count(calls, lo, |calls|, "a", limit) == SpanBound(limit, d)
  {
    hide Count, After, Bursts, Monotone, SpanBound;
    BoundAt(limit, q, r);
    calls, lo := Bursts(limit, WINDOW - r, q + 2), 1;
    BurstsMonotone(limit, WINDOW - r, q + 2);
    BurstsPass(limit, WINDOW - r, q + 2);
    AtLeastTwo(limit, q);
    CountSplit(calls, 0, 1, |calls|, "a", limit);
  }

  lemma BoundAt(limit: int, q: nat, r: nat)
    requires r < WINDOW
    ensures SpanBound(limit, WINDOW * q + r) == if r == 0 then limit * (q + 1) else limit * (q + 2) - 1
  {
    assert (WINDOW * q + r) / WINDOW == q && (WINDOW * q + r) % WINDOW == r;
  }

  lemma AtLeastTwo(limit: nat, q: nat)
    requires limit > 0
    ensures limit * (q + 2) >= 2
  {
  }

  lemma NothingYet(x: string)
    ensures After([], x) == Unseen
  {
  }

  // ---- independence of subjects ----

  /** The calls of one subject, in order. */
  function Only(calls: seq<Call>, x: string): seq<Call> {
    if calls == [] then []
    else
      var init, last := Only(calls[..|calls| - 1], x), calls[|calls| - 1];
      if last.sub == x then init + [last] else init
  }

  /** The state of x depends on its own calls alone. */
  lemma {:induction false} AfterOnly(calls: seq<Call>, x: string)
    ensures After(Only(calls, x), x) == After(calls, x)
  {
    if calls != [] {
      var init, last := calls[..|calls| - 1], calls[|calls| - 1];
      AfterOnly(init, x);
      if last.sub == x {
        assert (Only(init, x) + [last])[..|Only(init, x)|] == Only(init, x);
      }
    }
  }

  /** Whatever the other subjects did before, the answer to a call of x is the same. */
  lemma Independent(calls: seq<Call>, others: seq<Call>, x: string, now: int, limit: int)
    requires Only(calls, x) == Only(others, x)
    ensures Passes(calls, x, now, limit) == Passes(others, x, now, limit)
  {
    hide Only, After;
    AfterOnly(calls, x);
    AfterOnly(others, x);
  }

  // ---- the bucket list ----

  /** The window recorded for x: the first bucket of that name. */
  function Lookup(buckets: seq<Bucket>, x: string): Window {
    if buckets == [] then Unseen
    else if buckets[0].sub == x then Window(buckets[0].start, buckets[0].count)
    else Lookup(buckets[1..], x)
  }

  lemma {:induction false} LookupAt(buckets: seq<Bucket>, i: nat, x: string)
    requires i <= |buckets| && forall j :: 0 <= j < i ==> buckets[j].sub != x
    ensures i == |buckets| ==> Lookup(buckets, x) == Unseen
    ensures i < |buckets| && buckets[i].sub == x ==> Lookup(buckets, x) == Window(buckets[i].start, buckets[i].count)
  {
    if i > 0 {
      LookupAt(buckets[1..], i - 1, x);
    }
  }

  /** Updating the first bucket of x changes what is recorded for x and nothing else. */
  lemma {:induction false} LookupUpdate(buckets: seq<Bucket>, i: nat, b: Bucket, y: string)
    requires i < |buckets| && b.sub == buckets[i].sub && forall j :: 0 <= j < i ==> buckets[j].sub != b.sub
    ensures Lookup(buckets[i := b], y) == if y == b.sub then Window(b.start, b.count) else Lookup(buckets, y)
  {
    if i > 0 {
      LookupUpdate(buckets[1..], i - 1, b, y);
      assert buckets[i := b][1..] == buckets[1..][i - 1 := b];
    } else {
      assert buckets[i := b][1..] == buckets[1..];
    }
  }

  lemma LookupFront(buckets: seq<Bucket>, b: Bucket, y: string)
    ensures Lookup([b] + buckets, y) == if y == b.sub then Window(b.start, b.count) else Lookup(buckets, y)
  {
    assert ([b] + buckets)[1..] == buckets;
  }

  /** A window with its count in an int. */
  function Wrapped(w: Window): Window {
    if w.Unseen? then Unseen else Window(w.start, Int32(w.count))
  }

  /** The int still tells on which side of the limit the count is. */
  predicate Telling(count: int, limit: int) {
    count <= limit || limit < count % 0x1_0000_0000 < 0x8000_0000
  }

  /** Exactly then the comparison with the int is the comparison with the count. */
  lemma CounterTells(count: int, limit: int)
    requires 0 < count && 0 < limit < 0x8000_0000
    ensures (Int32(count) > limit <==> count > limit) <==> Telling(count, limit)
    ensures count < 0x8000_0000 ==> Telling(count, limit)
  {
    if count > limit {
      var low := count % 0x1_0000_0000;
      assert Int32(count) == if low < 0x8000_0000 then low else low - 0x1_0000_0000;
    }
  }

  class Limiter {
    const limit: i32
    var buckets: seq<Bucket>
    ghost var calls: seq<Call>

    /** The list records, for every subject, the window of its own calls. */
    ghost predicate Valid()
      reads this
    {
      limit > 0 ==> forall x :: x != "" ==> Lookup(buckets, x) == Wrapped(After(calls, x))
    }

    constructor (perMinute: i32)
      ensures Valid() && calls == [] && limit == perMinute
    {
      limit, buckets, calls := perMinute, [], [];
    }

    method Find(sub: string) returns (i: nat)
      ensures i <= |buckets| && (i < |buckets| ==> buckets[i].sub == sub)
      ensures forall j :: 0 <= j < i ==> buckets[j].sub != sub
    {
      i := 0;
      while i < |buckets| && buckets[i].sub != sub
        invariant i <= |buckets| && forall j :: 0 <= j < i ==> buckets[j].sub != sub
      {
        i := i + 1;
      }
    }

    /** check_rate_limit */
    method Check(sub: Subject, now: int) returns (blocked: bool)
      requires Valid()
      modifies this
      ensures Valid() && calls == old(calls) + [Call(sub, now)]
      ensures var count := Advance(After(old(calls), sub), now).count;
        blocked == !Admitted(calls, |calls| - 1, sub, limit) <==> limit <= 0 || sub == "" || Telling(count, limit)
      ensures Advance(After(old(calls), sub), now).count < 0x8000_0000 ==>
        blocked == !Admitted(calls, |calls| - 1, sub, limit)
      ensures limit <= 0 || sub == "" ==> !blocked && buckets == old(buckets)
    {
      hide After, Lookup, Int32, Telling;
      ghost var call := Call(sub, now);
      ghost var was, table := calls, buckets;
      AfterCall(was, call);
      calls := calls + [call];
      if limit <= 0 || sub == "" {
        return false;
      }
      var i := Find(sub);
      LookupAt(buckets, i, sub);
      if i == |buckets| {
        buckets := [Bucket(Cut(sub, SUBJECT - 1), 0, now)] + buckets;
        i := 0;
      }
      var b := buckets[i];
      if now - b.start >= WINDOW {
        b := b.(start := now, count := 0);
      }
      b := b.(count := Int32(b.count + 1));
      Recorded(table, buckets, buckets[i := b], i, b);
      buckets := buckets[i := b];
      OneMore(After(was, sub), now, Window(b.start, b.count));
      Counted(was, sub);
      CounterTells(Advance(After(was, sub), now).count, limit);
      return b.count > limit;
    }
  }

  /** Counting in the int and then wrapping is the same. */
  lemma OneMore(w: Window, now: int, v: Window)
    requires w.Window? && now - w.start < WINDOW ==> v == Window(w.start, Int32(Int32(w.count) + 1))
    requires w.Unseen? || now - w.start >= WINDOW ==> v == Window(now, Int32(0 + 1))
    ensures v == Wrapped(Advance(w, now))
  {
  }

  lemma AfterCall(calls: seq<Call>, call: Call)
    ensures forall x ::
      After(calls + [call], x) == if call.sub == x then Advance(After(calls, x), call.now) else After(calls, x)
    ensures (calls + [call])[..|calls|] == calls
  {
    assert (calls + [call])[..|calls|] == calls;
  }

  /** The list after the update, whether or not a bucket was first put in front. */
  lemma Recorded(table: seq<Bucket>, buckets: seq<Bucket>, next: seq<Bucket>, i: nat, b: Bucket)
    requires i < |buckets| && buckets[i].sub == b.sub && forall j :: 0 <= j < i ==> buckets[j].sub != b.sub
    requires buckets == table || (i == 0 && buckets[1..] == table)
    requires next == buckets[i := b]
    ensures forall y :: Lookup(next, y) == if y == b.sub then Window(b.start, b.count) else Lookup(table, y)
  {
    hide Lookup;
    forall y
      ensures Lookup(next, y) == if y == b.sub then Window(b.start, b.count) else Lookup(table, y)
    {
      LookupUpdate(buckets, i, b, y);
      if buckets != table {
        assert buckets == [buckets[0]] + table;
        LookupFront(table, buckets[0], y);
      }
    }
  }
}
