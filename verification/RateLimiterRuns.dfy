/**
 Whole runs of one rate limiter store: what its answers mean, how many requests it admits, and when
 other clients and cleanup passes cannot be noticed.
 */
module RateLimiterRuns {
  import opened Common
  import opened RateLimiter

  /** One limit, window and cleanup interval per store, as NewRateLimiter uses it. */
  datatype Setting = Setting(limit: int, window: int, interval: int)

  predicate Sensible(c: Setting) { c.limit >= 1 && c.window > 0 && c.interval > 0 }

  datatype Event = Request(id: string, t: int) | Cleanup(t: int)

  ghost predicate Timed(es: seq<Event>) {
    forall i, j :: 0 <= i < j < |es| ==> es[i].t <= es[j].t
  }

  function Serve(c: Setting, m: map<string, Bucket>, e: Event): map<string, Bucket>
    requires c.window > 0
  {
    match e
    case Request(id, t) => m[id := AllowBucket(Lookup(m, id), t, c.limit, c.window).0]
    case Cleanup(t) => Sweep(m, t, c.interval)
  }

  /** The store after a run of requests and cleanup passes. */
  function Run(c: Setting, es: seq<Event>): map<string, Bucket>
    requires c.window > 0
  {
    if es == [] then map[] else Serve(c, Run(c, es[..|es| - 1]), es[|es| - 1])
  }

  /** The answers given to one identifier, in order. */
  function Answers(c: Setting, es: seq<Event>, id: string): seq<Answer>
    requires c.window > 0
  {
    if es == [] then [] else
    var init, e := es[..|es| - 1], es[|es| - 1];
    var answers := Answers(c, init, id);
    if e.Request? && e.id == id then answers + [AllowBucket(Lookup(Run(c, init), id), e.t, c.limit, c.window).1]
    else answers
  }

  // ---- One identifier on its own ----

  /** The times of one identifier's requests. */
  function Times(es: seq<Event>, id: string): seq<int> {
    if es == [] then [] else
    var e := es[|es| - 1];
    if e.Request? && e.id == id then Times(es[..|es| - 1], id) + [e.t] else Times(es[..|es| - 1], id)
  }

  ghost predicate Rising(ts: seq<int>) {
    forall i, j :: 0 <= i < j < |ts| ==> ts[i] <= ts[j]
  }

  /** The entry and the answers of a client that has the store to itself and is never cleaned up. */
  function Entry(c: Setting, ts: seq<int>): Option<Bucket>
    requires c.window > 0
  {
    if ts == [] then None
    else Some(AllowBucket(Entry(c, ts[..|ts| - 1]), ts[|ts| - 1], c.limit, c.window).0)
  }

  function Alone(c: Setting, ts: seq<int>): seq<Answer>
    requires c.window > 0
    ensures |Alone(c, ts)| == |ts|
  {
    if ts == [] then []
    else Alone(c, ts[..|ts| - 1]) + [AllowBucket(Entry(c, ts[..|ts| - 1]), ts[|ts| - 1], c.limit, c.window).1]
  }

  /** What cleanup may do to an entry: drop it once a window has passed since its last refill. */
  ghost predicate Same(c: Setting, shared: Option<Bucket>, alone: Option<Bucket>, now: int) {
    shared == alone || (shared == None && alone.Some? && now - alone.value.lastCheck >= c.window)
  }

  lemma QuotientBounds(a: int, b: int)
    requires a >= 0 && b > 0
    ensures QuoTrunc(a, b) >= 0 && (QuoTrunc(a, b) >= 1 <==> a >= b)
  {
    FitsExactly(a, b, 0);
    FitsExactly(a, b, 1);
  }

  /** A refill fills the bucket: with a whole window elapsed the answer is that of a new client. */
  lemma AllowCases(c: Setting, b: Bucket, now: int)
    requires Sensible(c) && 0 <= b.tokens <= c.limit && now >= b.lastCheck
    ensures var (b', a) := AllowBucket(Some(b), now, c.limit, c.window);
      && (now - b.lastCheck >= c.window ==> (b', a) == AllowBucket(None, now, c.limit, c.window))
      && (now - b.lastCheck < c.window && b.tokens > 0 ==>
          b' == Bucket(b.tokens - 1, b.lastCheck) && a == Answer(true, b.tokens - 1))
      && (now - b.lastCheck < c.window && b.tokens == 0 ==> b' == b && a == Answer(false, 0))
  {
    var q := QuoTrunc(now - b.lastCheck, c.window);
    QuotientBounds(now - b.lastCheck, c.window);
    if q >= 1 {
      assert q * c.limit >= c.limit by { assert (q - 1) * c.limit >= 0; }
    } else {
      assert q * c.limit == 0;
    }
  }

  lemma {:induction false} EntryBounds(c: Setting, ts: seq<int>)
    requires Sensible(c) && Rising(ts) && ts != []
    ensures Entry(c, ts).Some? && 0 <= Entry(c, ts).value.tokens < c.limit + 1
    ensures ts[0] <= Entry(c, ts).value.lastCheck <= ts[|ts| - 1]
  {
    var init, t := ts[..|ts| - 1], ts[|ts| - 1];
    if init != [] {
      EntryBounds(c, init);
      AllowCases(c, Entry(c, init).value, t);
    }
  }

  lemma TimesInOrder(es: seq<Event>, id: string)
    requires Timed(es)
    ensures Rising(Times(es, id))
    ensures Times(es, id) != [] ==> Times(es, id)[|Times(es, id)| - 1] <= es[|es| - 1].t
  {
    if es != [] {
      var init := es[..|es| - 1];
      TimesInOrder(init, id);
      if Times(init, id) != [] {
        assert init[|init| - 1].t <= es[|es| - 1].t;
      }
    }
  }

  lemma Extend(c: Setting, es: seq<Event>, e: Event, id: string)
    requires c.window > 0
    ensures Run(c, es + [e]) == Serve(c, Run(c, es), e)
    ensures Answers(c, es + [e], id) ==
      if e == Request(id, e.t) then Answers(c, es, id) + [AllowBucket(Lookup(Run(c, es), id), e.t, c.limit, c.window).1]
      else Answers(c, es, id)
    ensures Times(es + [e], id) == if e == Request(id, e.t) then Times(es, id) + [e.t] else Times(es, id)
  {
    assert (es + [e])[..|es|] == es;
  }

  lemma SweptEntry(m: map<string, Bucket>, now: int, interval: int, id: string)
    ensures Lookup(Sweep(m, now, interval), id) ==
      if id in m && !Expired(m[id], now, interval) then Some(m[id]) else None
  {
  }

  predicate Own(e: Event, id: string) { e.Request? && e.id == id }

  /** An event that is not the client's own keeps what the shared store has of it good. */
  lemma OtherEventKeepsSame(c: Setting, m: map<string, Bucket>, e: Event, id: string, alone: Option<Bucket>,
                            before: int)
    requires Sensible(c) && 2 * c.interval + 1 >= c.window && before <= e.t && !Own(e, id)
    requires Same(c, Lookup(m, id), alone, before)
    ensures Same(c, Lookup(Serve(c, m, e), id), alone, e.t)
  {
    if e.Cleanup? { SweptEntry(m, e.t, c.interval, id); }
  }

  /** A request is answered alike from both, and makes the same entry of both. */
  lemma OwnRequestAlike(c: Setting, shared: Option<Bucket>, alone: Option<Bucket>, before: int, t: int)
    requires Sensible(c) && before <= t && Same(c, shared, alone, before)
    requires alone.Some? ==> 0 <= alone.value.tokens <= c.limit && alone.value.lastCheck <= before
    ensures AllowBucket(shared, t, c.limit, c.window) == AllowBucket(alone, t, c.limit, c.window)
  {
    if alone.Some? { AllowCases(c, alone.value, t); }
  }

  /** The time of the last event; what it is without one does not matter. */
  function Now(es: seq<Event>): int { if es == [] then 0 else es[|es| - 1].t }

  ghost predicate Alike(c: Setting, es: seq<Event>, id: string)
    requires c.window > 0
  {
    && Answers(c, es, id) == Alone(c, Times(es, id))
    && (if es == [] then Lookup(Run(c, es), id) == Entry(c, Times(es, id))
        else Same(c, Lookup(Run(c, es), id), Entry(c, Times(es, id)), Now(es)))
  }

  lemma EntrySoFar(c: Setting, es: seq<Event>, id: string)
    requires Sensible(c) && Timed(es)
    ensures Times(es, id) != [] ==>
      var b := Entry(c, Times(es, id)).value; 0 <= b.tokens <= c.limit && b.lastCheck <= Now(es)
  {
    TimesInOrder(es, id);
    if Times(es, id) != [] { EntryBounds(c, Times(es, id)); }
  }

  lemma OwnStep(c: Setting, es: seq<Event>, t: int, id: string)
    requires Sensible(c) && Timed(es) && (es == [] || Now(es) <= t) && Alike(c, es, id)
    ensures Alike(c, es + [Request(id, t)], id)
  {
    Extend(c, es, Request(id, t), id);
    EntrySoFar(c, es, id);
    var ts := Times(es, id);
    assert (ts + [t])[..|ts|] == ts;
    OwnRequestAlike(c, Lookup(Run(c, es), id), Entry(c, ts), if es == [] then t else Now(es), t);
  }

  lemma OtherStep(c: Setting, es: seq<Event>, e: Event, id: string)
    requires Sensible(c) && 2 * c.interval + 1 >= c.window && !Own(e, id)
    requires (es == [] || Now(es) <= e.t) && Alike(c, es, id)
    ensures Alike(c, es + [e], id)
  {
    Extend(c, es, e, id);
    OtherEventKeepsSame(c, Run(c, es), e, id, Entry(c, Times(es, id)), if es == [] then e.t else Now(es));
  }

  /** What a client sees of a shared and cleaned store is what it would see of one of its own. */
  lemma {:induction false} SharedMatchesAlone(c: Setting, es: seq<Event>, id: string)
    requires Sensible(c) && Timed(es) && 2 * c.interval + 1 >= c.window
    ensures Answers(c, es, id) == Alone(c, Times(es, id))
    ensures Alike(c, es, id)
  {
    if es != [] {
      var init, e := es[..|es| - 1], es[|es| - 1];
      assert es == init + [e];
      SharedMatchesAlone(c, init, id);
      if Own(e, id) { OwnStep(c, init, e.t, id); } else { OtherStep(c, init, e, id); }
    }
  }

  /** The run that holds only one identifier's requests and no cleanup. */
  function Only(es: seq<Event>, id: string): seq<Event> {
    if es == [] then [] else
    var e := es[|es| - 1];
    if e.Request? && e.id == id then Only(es[..|es| - 1], id) + [e] else Only(es[..|es| - 1], id)
  }

  lemma {:induction false} OnlyAlone(c: Setting, es: seq<Event>, id: string)
    requires c.window > 0
    ensures Answers(c, Only(es, id), id) == Alone(c, Times(es, id))
    ensures Lookup(Run(c, Only(es, id)), id) == Entry(c, Times(es, id))
  {
    if es != [] {
      var init, e := es[..|es| - 1], es[|es| - 1];
      OnlyAlone(c, init, id);
      if e.Request? && e.id == id {
        assert Only(es, id)[..|Only(init, id)|] == Only(init, id);
        assert Times(es, id)[..|Times(init, id)|] == Times(init, id);
      }
    }
  }

  ghost predicate Unnoticed(c: Setting, es: seq<Event>, id: string)
    requires c.window > 0
  {
    Answers(c, es, id) == Answers(c, Only(es, id), id)
  }

  /** Other identifiers and cleanup passes never change anybody's answers, in any run, exactly when two
      cleanup intervals are at least a window long (to the nanosecond the clock counts in). */
  lemma OthersAndCleanupUnnoticed(c: Setting)
    requires Sensible(c)
    ensures (forall es: seq<Event>, id: string :: Timed(es) ==> Unnoticed(c, es, id)) <==>
        2 * c.interval + 1 >= c.window
  {
    if 2 * c.interval + 1 >= c.window {
      forall es: seq<Event>, id: string | Timed(es) ensures Unnoticed(c, es, id) {
        SharedMatchesAlone(c, es, id);
        OnlyAlone(c, es, id);
      }
    } else {
      EarlyCleanupNoticed(c);
    }
  }

  /** With a shorter interval a client that comes back after a cleanup pass, inside its window, is served as new. */
  lemma EarlyCleanupNoticed(c: Setting)
    requires Sensible(c) && 2 * c.interval + 1 < c.window
    ensures exists es: seq<Event>, id: string :: Timed(es) && !Unnoticed(c, es, id)
  {
    var u, id := 2 * c.interval + 1, "a";
    var es := [] + [Request(id, 0)] + [Cleanup(u)] + [Request(id, u)];
    ServedAsNew(c, u, id);
    AloneWithinWindow(c, u);
    OnlyAlone(c, es, id);
    assert Timed(es) && !Unnoticed(c, es, id);
  }

  lemma ServedAsNew(c: Setting, u: int, id: string)
    requires Sensible(c) && u == 2 * c.interval + 1
    ensures var es := [] + [Request(id, 0)] + [Cleanup(u)] + [Request(id, u)];
      && Times(es, id) == [0, u]
      && |Answers(c, es, id)| == 2 && Answers(c, es, id)[1] == Answer(true, c.limit - 1)
  {
    Extend(c, [], Request(id, 0), id);
    assert Expired(Bucket(c.limit - 1, 0), u, c.interval);
    Extend(c, [] + [Request(id, 0)], Cleanup(u), id);
    Extend(c, [] + [Request(id, 0)] + [Cleanup(u)], Request(id, u), id);
  }

  lemma AloneWithinWindow(c: Setting, u: int)
    requires Sensible(c) && 0 <= u < c.window
    ensures Alone(c, [0, u])[1] != Answer(true, c.limit - 1)
  {
    assert [0, u][..1] == [0] && [0][..0] == [];
    AllowCases(c, Bucket(c.limit - 1, 0), u);
  }

  // ---- The reference: a counter that restarts when a window is over ----

  /** The window that was open after a request, the requests admitted in it so far, and whether this one was. */
  datatype Point = Point(start: int, count: nat, admitted: bool)

  /** A request at t opens a window: there is none open, or it is over. */
  predicate Opens(c: Setting, prev: Option<Point>, t: int) { prev.None? || t - prev.value.start >= c.window }

  function Next(c: Setting, prev: Option<Point>, t: int): Point {
    if Opens(c, prev, t) then Point(t, 1, true)
    else if prev.value.count < c.limit then Point(prev.value.start, prev.value.count + 1, true)
    else Point(prev.value.start, prev.value.count, false)
  }

  function Counter(c: Setting, ts: seq<int>): seq<Point> {
    if ts == [] then [] else
    var before := Counter(c, ts[..|ts| - 1]);
    before + [Next(c, Last(before), ts[|ts| - 1])]
  }

  function Last(ps: seq<Point>): Option<Point> { if ps == [] then None else Some(ps[|ps| - 1]) }

  /** The answer that the counter's state amounts to. */
  function Reply(c: Setting, p: Point): Answer {
    if p.admitted then Answer(true, c.limit - p.count) else Answer(false, 0)
  }

  /** The bucket refines the counter: its tokens are the limit less the requests admitted in the open window,
      its lastCheck is the start of that window, and every answer is the counter's. */
  lemma {:induction false} BucketRefinesCounter(c: Setting, ts: seq<int>)
    requires Sensible(c) && Rising(ts)
    ensures |Counter(c, ts)| == |ts|
    ensures forall i :: 0 <= i < |ts| ==> Alone(c, ts)[i] == Reply(c, Counter(c, ts)[i])
    ensures ts != [] ==> var p := Counter(c, ts)[|ts| - 1];
      && Entry(c, ts) == Some(Bucket(c.limit - p.count, p.start)) && 1 <= p.count <= c.limit
  {
    if ts != [] {
      var init, t := ts[..|ts| - 1], ts[|ts| - 1];
      BucketRefinesCounter(c, init);
      if init != [] {
        EntryBounds(c, init);
        AllowCases(c, Entry(c, init).value, t);
      }
    }
  }

  /** Each point follows from the one before it. */
  ghost predicate IsTrace(c: Setting, ts: seq<int>, ps: seq<Point>) {
    |ps| == |ts| && forall i :: 0 <= i < |ts| ==> Follows(c, ts, ps, i)
  }

  predicate Follows(c: Setting, ts: seq<int>, ps: seq<Point>, i: nat)
    requires i < |ts| == |ps|
  {
    ps[i] == Next(c, Before(ps, i), ts[i])
  }

  function Before(ps: seq<Point>, i: nat): Option<Point>
    requires i <= |ps|
  {
    if i == 0 then None else Some(ps[i - 1])
  }

  lemma {:induction false} CounterIsTrace(c: Setting, ts: seq<int>)
    ensures IsTrace(c, ts, Counter(c, ts))
  {
    if ts != [] {
      var n := |ts| - 1;
      CounterIsTrace(c, ts[..n]);
      forall i | 0 <= i < n ensures Follows(c, ts, Counter(c, ts), i) {
        assert Follows(c, ts[..n], Counter(c, ts[..n]), i);
      }
    }
  }

  /** Requests among the points lo to hi that were admitted. */
  function Admitted(ps: seq<Point>, lo: nat, hi: nat): nat
    requires lo <= hi <= |ps|
    decreases hi
  {
    if lo == hi then 0 else Admitted(ps, lo, hi - 1) + if ps[hi - 1].admitted then 1 else 0
  }

  lemma {:induction false} SplitAdmitted(ps: seq<Point>, lo: nat, k: nat, hi: nat)
    requires lo <= k <= hi <= |ps|
    ensures Admitted(ps, lo, hi) == Admitted(ps, lo, k) + Admitted(ps, k, hi)
    decreases hi
  {
    if k < hi { SplitAdmitted(ps, lo, k, hi - 1); }
  }

  /** Request k opened the window that is open after request n - 1. */
  ghost predicate OpenedBy(c: Setting, ts: seq<int>, ps: seq<Point>, k: nat, n: nat) {
    k < n <= |ts| == |ps| && Opens(c, Before(ps, k), ts[k]) && ts[n - 1] - ts[k] < c.window
  }

  /** Until its window is over, the opener's time is the start and the count is that of the admissions since. */
  lemma {:induction false} CountSinceOpener(c: Setting, ts: seq<int>, ps: seq<Point>, k: nat, n: nat)
    requires Sensible(c) && Rising(ts) && IsTrace(c, ts, ps) && OpenedBy(c, ts, ps, k, n)
    ensures ps[n - 1].start == ts[k] && ps[n - 1].count == Admitted(ps, k, n) <= c.limit
    decreases n
  {
    assert Follows(c, ts, ps, n - 1);
    if k < n - 1 {
      CountSinceOpener(c, ts, ps, k, n - 1);
    } else {
      assert Admitted(ps, k, k) == 0;
    }
  }

  /** At every moment some request has opened the window that is open. */
  lemma {:induction false} CurrentOpener(c: Setting, ts: seq<int>, ps: seq<Point>, n: nat) returns (k: nat)
    requires Sensible(c) && Rising(ts) && IsTrace(c, ts, ps) && 0 < n <= |ts|
    ensures OpenedBy(c, ts, ps, k, n)
    decreases n
  {
    k := n - 1;
    if !Opens(c, Before(ps, k), ts[k]) {
      k := CurrentOpener(c, ts, ps, n - 1);
      CountSinceOpener(c, ts, ps, k, n - 1);
    }
  }

  /** The limit is used up at request i: a window opened less than a window ago, and `limit` requests were
      admitted in it. */
  ghost predicate UsedUp(c: Setting, ts: seq<int>, i: nat)
    requires i < |ts|
  {
    var ps := Counter(c, ts);
    exists k: nat :: k < i && OpenedBy(c, ts, ps, k, i + 1) && Admitted(ps, k, i) == c.limit
  }

  lemma DenialIsEarned(c: Setting, ts: seq<int>, ps: seq<Point>, i: nat) returns (k: nat)
    requires Sensible(c) && Rising(ts) && IsTrace(c, ts, ps) && i < |ts| && !ps[i].admitted
    ensures k < i && OpenedBy(c, ts, ps, k, i + 1) && Admitted(ps, k, i) == c.limit
  {
    assert Follows(c, ts, ps, i);
    k := CurrentOpener(c, ts, ps, i + 1);
    assert ts[i - 1] <= ts[i];
    CountSinceOpener(c, ts, ps, k, i);
  }

  lemma UsedUpIsDenied(c: Setting, ts: seq<int>, ps: seq<Point>, k: nat, i: nat)
    requires Sensible(c) && Rising(ts) && IsTrace(c, ts, ps) && k < i < |ts|
    requires OpenedBy(c, ts, ps, k, i + 1) && Admitted(ps, k, i) == c.limit
    ensures !ps[i].admitted
  {
    assert ts[i - 1] <= ts[i];
    CountSinceOpener(c, ts, ps, k, i);
    CountSinceOpener(c, ts, ps, k, i + 1);
  }

  /** A request is denied exactly when the limit is used up: no denial is spurious and none is missed. */
  lemma DeniedExactlyWhenUsedUp(c: Setting, ts: seq<int>, i: nat)
    requires Sensible(c) && Rising(ts) && i < |ts|
    ensures !Alone(c, ts)[i].allowed <==> UsedUp(c, ts, i)
  {
    var ps := Counter(c, ts);
    BucketRefinesCounter(c, ts);
    CounterIsTrace(c, ts);
    if !ps[i].admitted {
      var k := DenialIsEarned(c, ts, ps, i);
    }
    if UsedUp(c, ts, i) {
      var k: nat :| k < i && OpenedBy(c, ts, ps, k, i + 1) && Admitted(ps, k, i) == c.limit;
      UsedUpIsDenied(c, ts, ps, k, i);
    }
  }

  // ---- Rate bounds ----

  /** Admissions among requests i to j, against the windows that passed between the one open before i and
      the one open before j: each window opens at least a window after the one before it. */
  lemma {:induction false} WindowsApart(c: Setting, ts: seq<int>, ps: seq<Point>, i: nat, j: nat) returns (q: nat)
    requires Sensible(c) && Rising(ts) && IsTrace(c, ts, ps) && 0 < i <= j <= |ts|
    ensures c.window * q <= ps[j - 1].start - ps[i - 1].start
    ensures Admitted(ps, i, j) + ps[i - 1].count <= ps[j - 1].count + c.limit * q
    decreases j
  {
    q := 0;
    if i < j {
      q := WindowsApart(c, ts, ps, i, j - 1);
      var t := ts[j - 1];
      assert Follows(c, ts, ps, j - 1);
      var k := CurrentOpener(c, ts, ps, j - 1);
      CountSinceOpener(c, ts, ps, k, j - 1);
      if Opens(c, Before(ps, j - 1), t) {
        assert c.window * (q + 1) == c.window * q + c.window;
        assert c.limit * (q + 1) == c.limit * q + c.limit;
        q := q + 1;
      }
    }
  }

  /** The admissions from a request that opens a window on. */
  lemma FromOpener(c: Setting, ts: seq<int>, ps: seq<Point>, i: nat, j: nat) returns (q: nat)
    requires Sensible(c) && Rising(ts) && IsTrace(c, ts, ps) && i < j <= |ts| && Opens(c, Before(ps, i), ts[i])
    ensures c.window * q <= ts[j - 1] - ts[i]
    ensures Admitted(ps, i, j) <= c.limit * (1 + q)
  {
    q := WindowsApart(c, ts, ps, i + 1, j);
    assert Follows(c, ts, ps, i);
    SplitAdmitted(ps, i, i + 1, j);
    assert Admitted(ps, i, i + 1) == Admitted(ps, i, i) + 1;
    var k := CurrentOpener(c, ts, ps, j);
    CountSinceOpener(c, ts, ps, k, j);
    assert c.limit * (1 + q) == c.limit + c.limit * q;
  }

  /** The admissions from any request on: what the open window leaves, and then as from an opener. */
  lemma {:induction false} FromAnywhere(c: Setting, ts: seq<int>, ps: seq<Point>, i: nat, j: nat) returns (q: nat)
    requires Sensible(c) && Rising(ts) && IsTrace(c, ts, ps) && 0 < i < j <= |ts|
    ensures c.window * q <= ts[j - 1] - ts[i]
    ensures Admitted(ps, i, j) + ps[i - 1].count <= c.limit + c.limit * (1 + q)
    decreases j - i
  {
    assert Follows(c, ts, ps, i);
    if Opens(c, Before(ps, i), ts[i]) {
      q := FromOpener(c, ts, ps, i, j);
      var k := CurrentOpener(c, ts, ps, i);
      CountSinceOpener(c, ts, ps, k, i);
    } else {
      SplitAdmitted(ps, i, i + 1, j);
      assert Admitted(ps, i, i + 1) == Admitted(ps, i, i) + if ps[i].admitted then 1 else 0;
      if i + 1 < j {
        q := FromAnywhere(c, ts, ps, i + 1, j);
      } else {
        q := 0;
        var k := CurrentOpener(c, ts, ps, j);
        CountSinceOpener(c, ts, ps, k, j);
      }
    }
  }

  /** The bound on admissions in time d, from the first request on and from any other. */
  function Bound(c: Setting, first: bool, d: int): int
    requires c.window > 0
  {
    if first then c.limit * (1 + d / c.window) else c.limit * (2 + d / c.window) - 1
  }

  /** From its first request on, a client is admitted at most limit * (1 + d / window) times in time d;
      wherever else an interval of length d starts, at most limit * (2 + d / window) - 1 times. */
  lemma RateBound(c: Setting, ts: seq<int>, i: nat, j: nat)
    requires Sensible(c) && Rising(ts) && i < j <= |ts|
    ensures |Counter(c, ts)| == |ts|
    ensures Admitted(Counter(c, ts), i, j) <= Bound(c, i == 0, ts[j - 1] - ts[i])
  {
    var ps := Counter(c, ts);
    CounterIsTrace(c, ts);
    var q: nat, extra;
    if i == 0 {
      q := FromOpener(c, ts, ps, 0, j);
      extra := 1;
    } else {
      q := FromAnywhere(c, ts, ps, i, j);
      extra := 2;
      assert c.limit * (2 + q) == c.limit + c.limit * (1 + q);
      assert ps[i - 1].count >= 1 by { assert Follows(c, ts, ps, i - 1); CountsPositive(c, ts, ps, i - 1); }
    }
    var d := ts[j - 1] - ts[i];
    FitsExactly(d, c.window, q);
    ScaleUp(c.limit, extra + q, extra + d / c.window);
  }

  lemma {:induction false} CountsPositive(c: Setting, ts: seq<int>, ps: seq<Point>, i: nat)
    requires Sensible(c) && IsTrace(c, ts, ps) && i < |ts|
    ensures ps[i].count >= 1
  {
    assert Follows(c, ts, ps, i);
    if i > 0 { CountsPositive(c, ts, ps, i - 1); }
  }

  // ---- The bounds are attained ----

  /** `limit` requests a window: a first one at 0, the rest of its window's at `late`, and all others at the start of
      theirs. */
  function BurstAt(c: Setting, late: int, k: nat): int
    requires Sensible(c)
  {
    if 0 < k < c.limit then late else k / c.limit * c.window
  }

  function Bursts(c: Setting, late: int, n: nat): seq<int>
    requires Sensible(c)
  {
    seq(n, k requires 0 <= k < n => BurstAt(c, late, k))
  }

  function BurstPoint(c: Setting, k: nat): Point
    requires Sensible(c)
  {
    Point(k / c.limit * c.window, k % c.limit + 1, true)
  }

  /** One request on, in the same window or at the start of the next. */
  lemma NextInBurst(limit: int, k: nat)
    requires limit >= 1
    ensures if k % limit + 1 < limit then (k + 1) / limit == k / limit && (k + 1) % limit == k % limit + 1
            else (k + 1) / limit == k / limit + 1 && (k + 1) % limit == 0
  {
    var q, r := k / limit, k % limit;
    assert k == limit * q + r && 0 <= r < limit;
    if r + 1 < limit {
      QuotientIs(k + 1, limit, q, r + 1);
    } else {
      assert limit * (q + 1) == limit * q + limit;
      QuotientIs(k + 1, limit, q + 1, 0);
    }
  }

  lemma QuotientIs(a: nat, w: int, q: nat, r: int)
    requires w > 0 && a == w * q + r && 0 <= r < w
    ensures a / w == q && a % w == r
  {
    FitsExactly(a, w, q);
    FitsExactly(a, w, q + 1);
    assert w * (q + 1) == w * q + w;
  }

  lemma BurstFollows(c: Setting, late: int, k: nat)
    requires Sensible(c) && 0 <= late < c.window
    ensures BurstPoint(c, k + 1) == Next(c, Some(BurstPoint(c, k)), BurstAt(c, late, k + 1))
  {
    NextInBurst(c.limit, k);
    if k + 1 < c.limit {
      QuotientIs(k, c.limit, 0, k);
    }
    assert (k / c.limit + 1) * c.window == k / c.limit * c.window + c.window;
  }

  lemma {:induction false} BurstsCounted(c: Setting, late: int, n: nat)
    requires Sensible(c) && 0 <= late < c.window
    ensures |Counter(c, Bursts(c, late, n))| == n
    ensures forall k :: 0 <= k < n ==> Counter(c, Bursts(c, late, n))[k] == BurstPoint(c, k)
  {
    if n > 0 {
      var ts := Bursts(c, late, n);
      assert ts[..n - 1] == Bursts(c, late, n - 1);
      BurstsCounted(c, late, n - 1);
      if n == 1 { QuotientIs(0, c.limit, 0, 0); } else { BurstFollows(c, late, n - 2); }
    }
  }

  lemma {:induction false} AllAdmitted(ps: seq<Point>, lo: nat, hi: nat)
    requires lo <= hi <= |ps| && forall k :: 0 <= k < |ps| ==> ps[k].admitted
    ensures Admitted(ps, lo, hi) == hi - lo
    decreases hi
  {
    if lo < hi { AllAdmitted(ps, lo, hi - 1); }
  }

  lemma BurstsRise(c: Setting, late: int, n: nat)
    requires Sensible(c) && 0 <= late < c.window
    ensures Rising(Bursts(c, late, n))
  {
    forall i, j | 0 <= i < j < n ensures BurstAt(c, late, i) <= BurstAt(c, late, j) {
      BurstOrder(c, late, i, j);
    }
  }

  lemma BurstOrder(c: Setting, late: int, i: nat, j: nat)
    requires Sensible(c) && 0 <= late < c.window && i < j
    ensures BurstAt(c, late, i) <= BurstAt(c, late, j)
  {
    var p, q := i / c.limit, j / c.limit;
    FitsExactly(i, c.limit, p);
    FitsExactly(j, c.limit, p);
    FitsExactly(i, c.limit, 1);
    FitsExactly(j, c.limit, 1);
    ScaleUp(c.window, p, q);
    assert p * c.window == c.window * p && q * c.window == c.window * q;
    if q >= 1 { ScaleUp(c.window, 1, q); }
  }

  lemma BurstEnd(c: Setting, late: int, q: nat)
    requires Sensible(c)
    ensures c.limit * (q + 1) >= 1
    ensures q >= 1 || late == 0 || c.limit == 1 ==> BurstAt(c, late, c.limit * (q + 1) - 1) == q * c.window
  {
    var k := c.limit * (q + 1) - 1;
    assert c.limit * (q + 1) == c.limit * q + c.limit;
    QuotientIs(k, c.limit, q, c.limit - 1);
    if q >= 1 { ScaleUp(c.limit, 1, q); }
  }

  /** The bound from the first request on is attained, for every number of windows. */
  lemma FirstBoundAttained(c: Setting, q: nat) returns (ts: seq<int>)
    requires Sensible(c)
    ensures Rising(ts) && |ts| > 0 && |Counter(c, ts)| == |ts| && (ts[|ts| - 1] - ts[0]) / c.window == q
    ensures Admitted(Counter(c, ts), 0, |ts|) == Bound(c, true, ts[|ts| - 1] - ts[0])
  {
    hide Counter, Admitted, Rising;
    var n := c.limit * (q + 1);
    BurstEnd(c, 0, q);
    ts := Bursts(c, 0, n);
    BurstsRise(c, 0, n);
    BurstsCounted(c, 0, n);
    AllAdmitted(Counter(c, ts), 0, n);
    QuotientIs(0, c.limit, 0, 0);
    assert q * c.window == c.window * q + 0;
    QuotientIs(q * c.window, c.window, q, 0);
  }

  /** And so is the other one, on a clock that is finer than the window. */
  lemma OtherBoundAttained(c: Setting, q: nat) returns (ts: seq<int>)
    requires Sensible(c) && c.window >= 2
    ensures Rising(ts) && |ts| > 1 && |Counter(c, ts)| == |ts| && (ts[|ts| - 1] - ts[1]) / c.window == q
    ensures Admitted(Counter(c, ts), 1, |ts|) == Bound(c, false, ts[|ts| - 1] - ts[1])
  {
    hide Counter, Admitted, Rising;
    var late, n := c.window - 1, c.limit * (q + 2);
    BurstEnd(c, late, q + 1);
    ScaleUp(q + 2, 1, c.limit);
    ts := Bursts(c, late, n);
    BurstsRise(c, late, n);
    BurstsCounted(c, late, n);
    AllAdmitted(Counter(c, ts), 1, n);
    assert (q + 1) * c.window == c.window * q + c.window;
    if c.limit == 1 {
      assert 1 / c.limit * c.window == c.window;
      QuotientIs(c.window * q, c.window, q, 0);
    } else {
      QuotientIs(c.window * q + 1, c.window, q, 1);
    }
  }

  /** Of a shared store, whatever other clients and cleanup do, all of this holds when two cleanup intervals
      cover a window: each answer is the counter's, so the counter's bounds are bounds on the answers. */
  lemma SharedStoreBound(c: Setting, es: seq<Event>, id: string, i: nat, j: nat)
    requires Sensible(c) && Timed(es) && 2 * c.interval + 1 >= c.window
    requires i < j <= |Times(es, id)|
    ensures var ts, ps := Times(es, id), Counter(c, Times(es, id));
      && |Answers(c, es, id)| == |ts| == |ps|
      && (forall k :: 0 <= k < |ts| ==> Answers(c, es, id)[k] == Reply(c, ps[k]))
      && Admitted(ps, i, j) <= Bound(c, i == 0, ts[j - 1] - ts[i])
  {
    SharedMatchesAlone(c, es, id);
    TimesInOrder(es, id);
    BucketRefinesCounter(c, Times(es, id));
    RateBound(c, Times(es, id), i, j);
  }
}
