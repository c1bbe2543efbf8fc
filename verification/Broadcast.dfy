/**
 The channel shared by all StreamAllDevices clients: publishers offer readings to it, and each client's
 forwarder takes them out one at a time and passes them on to its own channel
 (internal/service/telemetry/telemetry_service_impl.go).
 */
module Broadcast {
  import opened Common
  import opened Grouping
  import opened Streams

  /** A forwarder: the reading it took and has not passed on, and its client channel as everything passed
      on and how much of it the client has received. */
  datatype Forwarder = Forwarder(held: Option<Reading>, passed: seq<Reading>, received: nat, open: bool)

  /** `queue` is the buffer of the shared channel. `accepted` (every reading it ever took in) and `owner`
      (who took them out, in order) are bookkeeping. */
  datatype Sys = Sys(queue: seq<Reading>, fwds: seq<Forwarder>, accepted: seq<Reading>, owner: seq<nat>)

  const INIT := Sys([], [], [], [])

  datatype Action = Offer(t: Reading) | Open | Take(f: nat) | Pass(f: nat) | Cancel(f: nat) | Receive(f: nat)

  function Step(s: Sys, a: Action): Option<Sys> {
    match a
    case Offer(t) =>
      if |s.queue| < CAPACITY then Some(s.(queue := s.queue + [t], accepted := s.accepted + [t])) else Some(s)
    case Open => Some(s.(fwds := s.fwds + [Forwarder(None, [], 0, true)]))
    case Take(f) =>
      if f >= |s.fwds| || !s.fwds[f].open || s.fwds[f].held.Some? || s.queue == [] then None
      else Some(s.(queue := s.queue[1..], fwds := s.fwds[f := s.fwds[f].(held := Some(s.queue[0]))],
                   owner := s.owner + [f]))
    case Pass(f) =>
      if f >= |s.fwds| || s.fwds[f].held.None? || |s.fwds[f].passed| - s.fwds[f].received >= CAPACITY then None
      else Some(s.(fwds := s.fwds[f := s.fwds[f].(held := None, passed := s.fwds[f].passed + [s.fwds[f].held.value])]))
    case Cancel(f) =>
      if f >= |s.fwds| || !s.fwds[f].open || s.fwds[f].held.Some? then None
      else Some(s.(fwds := s.fwds[f := s.fwds[f].(open := false)]))
    case Receive(f) =>
      if f >= |s.fwds| || s.fwds[f].received >= |s.fwds[f].passed| then None
      else Some(s.(fwds := s.fwds[f := s.fwds[f].(received := s.fwds[f].received + 1)]))
  }

  function Exec(run: seq<Action>): Option<Sys> {
    if run == [] then Some(INIT) else
    var before := Exec(run[..|run| - 1]);
    if before.None? then None else Step(before.value, run[|run| - 1])
  }

  /** Everything a forwarder ever took, in order. */
  function Stream(fwd: Forwarder): seq<Reading> {
    fwd.passed + if fwd.held.Some? then [fwd.held.value] else []
  }

  /** The elements of ts whose position is owned by f. */
  function Project(ts: seq<Reading>, owner: seq<nat>, f: nat): seq<Reading>
    requires |owner| <= |ts|
  {
    if owner == [] then [] else
    var n := |owner| - 1;
    Project(ts, owner[..n], f) + if owner[n] == f then [ts[n]] else []
  }

  lemma {:induction false} ProjectIgnoresTail(ts: seq<Reading>, more: seq<Reading>, owner: seq<nat>, f: nat)
    requires |owner| <= |ts|
    ensures Project(ts + more, owner, f) == Project(ts, owner, f)
  {
    if owner != [] {
      ProjectIgnoresTail(ts, more, owner[..|owner| - 1], f);
    }
  }

  ghost predicate Inv(s: Sys) {
    && |s.owner| <= |s.accepted|
    && s.queue == s.accepted[|s.owner|..]
    && |s.queue| <= CAPACITY
    && (forall k :: 0 <= k < |s.owner| ==> s.owner[k] < |s.fwds|)
    && (forall f :: 0 <= f < |s.fwds| ==>
          && s.fwds[f].received <= |s.fwds[f].passed| <= s.fwds[f].received + CAPACITY
          && (s.fwds[f].held.Some? ==> s.fwds[f].open)
          && Stream(s.fwds[f]) == Project(s.accepted, s.owner, f))
  }

  lemma TakeKeepsInv(s: Sys, g: nat)
    requires Inv(s) && Step(s, Take(g)).Some?
    ensures Inv(Step(s, Take(g)).value)
  {
    var s' := Step(s, Take(g)).value;
    assert s'.owner[..|s.owner|] == s.owner;
    assert s.accepted[|s.owner|] == s.queue[0];
    forall f | 0 <= f < |s'.fwds| ensures Stream(s'.fwds[f]) == Project(s'.accepted, s'.owner, f) {
      assert Stream(s.fwds[f]) == Project(s.accepted, s.owner, f);
      if f == g {
        assert Stream(s'.fwds[f]) == Stream(s.fwds[f]) + [s.queue[0]];
      }
    }
  }

  /** A forwarder nobody has given anything yet owns nothing. */
  lemma {:induction false} NothingOwned(ts: seq<Reading>, owner: seq<nat>, f: nat)
    requires |owner| <= |ts| && f !in owner
    ensures Project(ts, owner, f) == []
  {
    if owner != [] {
      NothingOwned(ts, owner[..|owner| - 1], f);
    }
  }

  lemma StepKeepsInv(s: Sys, a: Action)
    requires Inv(s) && Step(s, a).Some?
    ensures Inv(Step(s, a).value)
  {
    var s' := Step(s, a).value;
    match a
    case Offer(t) =>
      forall f | 0 <= f < |s.fwds| ensures Project(s.accepted + [t], s.owner, f) == Project(s.accepted, s.owner, f) {
        ProjectIgnoresTail(s.accepted, [t], s.owner, f);
      }
    case Open => NothingOwned(s.accepted, s.owner, |s.fwds|);
    case Take(f) => TakeKeepsInv(s, f);
    case Pass(f) => assert Stream(s'.fwds[f]) == Stream(s.fwds[f]);
    case Cancel(f) =>
    case Receive(f) =>
  }

  lemma {:induction false} Reachable(run: seq<Action>)
    requires Exec(run).Some?
    ensures Inv(Exec(run).value)
  {
    if run != [] {
      Reachable(run[..|run| - 1]);
      StepKeepsInv(Exec(run[..|run| - 1]).value, run[|run| - 1]);
    }
  }

  /** All elements of some sequences. */
  function Union(parts: seq<seq<Reading>>): multiset<Reading> {
    if parts == [] then multiset{} else Union(parts[..|parts| - 1]) + multiset(parts[|parts| - 1])
  }

  lemma {:induction false} UnionAppend(parts: seq<seq<Reading>>, f: nat, t: Reading)
    requires f < |parts|
    ensures Union(parts[f := parts[f] + [t]]) == Union(parts) + multiset{t}
  {
    var n := |parts| - 1;
    var init, init' := parts[..n], parts[f := parts[f] + [t]][..n];
    if f == n {
      assert init' == init;
      assert multiset(parts[n] + [t]) == multiset(parts[n]) + multiset{t};
    } else {
      assert init' == init[f := init[f] + [t]];
      UnionAppend(init, f, t);
    }
  }

  lemma {:induction false} UnionOfEmpty(parts: seq<seq<Reading>>)
    requires forall f :: 0 <= f < |parts| ==> parts[f] == []
    ensures Union(parts) == multiset{}
  {
    if parts != [] { UnionOfEmpty(parts[..|parts| - 1]); }
  }

  /** What each forwarder took, and what each of n forwarders owns. */
  function AllTaken(fwds: seq<Forwarder>): seq<seq<Reading>> {
    seq(|fwds|, f requires 0 <= f < |fwds| => Stream(fwds[f]))
  }

  function Shares(ts: seq<Reading>, owner: seq<nat>, n: nat): seq<seq<Reading>>
    requires |owner| <= |ts|
  {
    seq(n, f requires 0 <= f < n => Project(ts, owner, f))
  }

  lemma SharesStep(ts: seq<Reading>, owner: seq<nat>, f: nat, n: nat)
    requires |owner| < |ts| && f < n
    ensures var before := Shares(ts, owner, n);
      Shares(ts, owner + [f], n) == before[f := before[f] + [ts[|owner|]]]
  {
    assert (owner + [f])[..|owner|] == owner;
    var before, after := Shares(ts, owner, n), Shares(ts, owner + [f], n);
    forall g | 0 <= g < n ensures after[g] == if g == f then before[g] + [ts[|owner|]] else before[g] {
      assert after[g] == Project(ts, owner + [f], g) == Project(ts, owner, g) + if g == f then [ts[|owner|]] else [];
    }
    assert after == before[f := before[f] + [ts[|owner|]]];
  }

  lemma {:induction false} SharesMakePrefix(ts: seq<Reading>, owner: seq<nat>, n: nat)
    requires |owner| <= |ts| && forall k :: 0 <= k < |owner| ==> owner[k] < n
    ensures Union(Shares(ts, owner, n)) == multiset(ts[..|owner|])
  {
    if owner == [] {
      UnionOfEmpty(Shares(ts, owner, n));
    } else {
      var m := |owner| - 1;
      var f, init := owner[m], owner[..m];
      assert owner == init + [f];
      SharesMakePrefix(ts, init, n);
      SharesStep(ts, init, f, n);
      UnionAppend(Shares(ts, init, n), f, ts[m]);
      PrefixStep(ts, m);
    }
  }

  lemma PrefixStep(ts: seq<Reading>, m: nat)
    requires m < |ts|
    ensures multiset(ts[..m + 1]) == multiset(ts[..m]) + multiset{ts[m]}
  {
    assert ts[..m + 1] == ts[..m] + [ts[m]];
  }

  lemma TakenAreShares(s: Sys)
    requires Inv(s)
    ensures AllTaken(s.fwds) == Shares(s.accepted, s.owner, |s.fwds|)
  {
  }

  /** What is owned and what is queued make up all that was accepted. */
  lemma SharesAndRest(ts: seq<Reading>, owner: seq<nat>, n: nat)
    requires |owner| <= |ts| && forall k :: 0 <= k < |owner| ==> owner[k] < n
    ensures multiset(ts) == Union(Shares(ts, owner, n)) + multiset(ts[|owner|..])
  {
    SharesMakePrefix(ts, owner, n);
    assert ts == ts[..|owner|] + ts[|owner|..];
  }

  /** Conservation over every run: the readings the shared channel accepted are, as a multiset, those still
      in it and those that some forwarder holds or has passed on. */
  lemma BroadcastConserves(run: seq<Action>)
    requires Exec(run).Some?
    ensures var s := Exec(run).value; multiset(s.accepted) == Union(AllTaken(s.fwds)) + multiset(s.queue)
  {
    Reachable(run);
    TakenAreShares(Exec(run).value);
    SharesAndRest(Exec(run).value.accepted, Exec(run).value.owner, |Exec(run).value.fwds|);
  }

  lemma {:induction false} ProjectAt(ts: seq<Reading>, owner: seq<nat>, f: nat)
    requires |owner| <= |ts|
    ensures var at := Positions(owner, f);
      && |Project(ts, owner, f)| == |at|
      && forall k :: 0 <= k < |at| ==> at[k] < |owner| && Project(ts, owner, f)[k] == ts[at[k]]
  {
    if owner != [] {
      ProjectAt(ts, owner[..|owner| - 1], f);
    }
  }

  /** Order over every run: what a client's forwarder took is the subsequence of the accepted readings at
      increasing positions that are its own, and two forwarders never share a position. What it has passed
      on is a prefix of that, and what the client has received a prefix of what was passed on. */
  lemma ClientsSeeDisjointSubsequences(run: seq<Action>, f: nat, g: nat)
    requires Exec(run).Some? && f < |Exec(run).value.fwds| && g < |Exec(run).value.fwds|
    ensures var s := Exec(run).value; var at, bt := Positions(s.owner, f), Positions(s.owner, g);
      && |Stream(s.fwds[f])| == |at|
      && (forall k :: 0 <= k < |at| ==> at[k] < |s.accepted| && Stream(s.fwds[f])[k] == s.accepted[at[k]])
      && (forall k, l :: 0 <= k < l < |at| ==> at[k] < at[l])
      && (f != g ==> forall i :: i in at ==> i !in bt)
      && s.fwds[f].received <= |s.fwds[f].passed| && s.fwds[f].passed <= Stream(s.fwds[f])
  {
    Reachable(run);
    var s := Exec(run).value;
    ProjectAt(s.accepted, s.owner, f);
    PositionsExact(s.owner, f);
    PositionsExact(s.owner, g);
  }

  // ---- Delivery ----

  lemma Go(run: seq<Action>, s: Sys, a: Action) returns (run': seq<Action>, s': Sys)
    requires Exec(run) == Some(s) && Step(s, a).Some?
    ensures Exec(run') == Some(s') == Step(s, a)
  {
    run', s' := run + [a], Step(s, a).value;
    assert run'[..|run|] == run;
  }

  /** A reading that is offered is accepted exactly when the shared channel has room for it. */
  lemma AcceptedExactlyWithRoom(s: Sys, t: Reading)
    ensures Step(s, Offer(t)).Some?
    ensures var s' := Step(s, Offer(t)).value;
      && (|s.queue| < 100 ==> s'.queue == s.queue + [t] && s'.accepted == s.accepted + [t])
      && (|s.queue| >= 100 ==> s' == s)
      && s'.fwds == s.fwds
  {
  }

  /** A new client gets an idle forwarder with an empty open channel, beside those that are there. */
  lemma OpeningAddsClient(s: Sys)
    ensures Step(s, Open) == Some(s.(fwds := s.fwds + [Forwarder(None, [], 0, true)]))
  {
  }

  /** From every state an idle forwarder can take the oldest reading of a non-empty shared channel and, when its client
      has room, pass it on. */
  lemma OldestCanBePassedOn(run0: seq<Action>, s0: Sys, f: nat) returns (run: seq<Action>, s: Sys)
    requires Exec(run0) == Some(s0) && s0.queue != [] && f < |s0.fwds| && s0.fwds[f].open && s0.fwds[f].held == None
    requires |s0.fwds[f].passed| - s0.fwds[f].received < 100
    ensures Exec(run) == Some(s) && s.queue == s0.queue[1..] && s.accepted == s0.accepted && |s.fwds| == |s0.fwds|
    ensures s.fwds[f] == s0.fwds[f].(passed := s0.fwds[f].passed + [s0.queue[0]])
    ensures forall g :: 0 <= g < |s.fwds| && g != f ==> s.fwds[g] == s0.fwds[g]
  {
    run, s := Go(run0, s0, Take(f));
    run, s := Go(run, s, Pass(f));
  }

  /** And the client can receive it. */
  lemma PassedCanBeReceived(s: Sys, f: nat)
    requires f < |s.fwds|
    ensures Step(s, Receive(f)).Some? <==> s.fwds[f].received < |s.fwds[f].passed|
    ensures Step(s, Receive(f)).Some? ==> Step(s, Receive(f)).value.fwds[f].received == s.fwds[f].received + 1
  {
  }
}
