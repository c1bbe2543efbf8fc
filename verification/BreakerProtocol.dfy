/**
 Concurrent Execute calls on one circuit breaker, one step per atomic access.

 Allow reads the state, then lastFailure and then the clock under separate locks, and touches the
 semaphore under none; the drain loops receive tokens one at a time while the write lock is held,
 so other calls can take or return a token between two of their receives.
 */
module BreakerProtocol {
  import opened Common
  import opened CircuitBreaker

  /** Where a call to Execute stands. */
  datatype Pc =
    | ReadState               // about to read the state
    | ReadClock               // saw Open, about to read lastFailure
    | CheckClock(last: int)   // about to compare lastFailure with the clock
    | GoHalfOpen(last: int)   // found the cooldown over for that lastFailure, about to move to HalfOpen
    | TryAcquire              // saw HalfOpen, about to try the semaphore
    | Running                 // admitted, the function is executing
    | Draining                // recording the outcome moved the breaker; empties the semaphore, holds the lock
    | Releasing               // outcome recorded, in the deferred Release
    | Returned
    | RejectedOpen
    | RejectedBusy

  datatype Event = Ok | Fail | Moved(from: State, target: State)

  /** `holder` is the call inside a drain loop. The four counters and `log` are bookkeeping: tokens
      ever acquired, admissions without one, tokens drained, calls returned, and all outcomes and moves. */
  datatype Sys = Sys(core: Core, clock: nat, holder: Option<nat>, calls: map<nat, Pc>,
                     acquired: nat, permitless: nat, drained: nat, returned: nat, log: seq<Event>)

  const INIT := Sys(FRESH, 0, None, map[], 0, 0, 0, 0, [])

  /** `Panic` is a function that panics: its call goes to the deferred Release with nothing recorded. */
  datatype Action = Begin(id: nat) | Advance(id: nat) | Finish(id: nat, failed: bool) | Panic(id: nat) | Tick(d: nat)

  /** The log entry of a change of state. */
  function Move(from: State, target: State): seq<Event> {
    if from == target then [] else [Moved(from, target)]
  }

  /** The next step of call `id`; None when it must wait. */
  function StepCall(cfg: Config, s: Sys, id: nat): Option<Sys>
    requires id in s.calls
  {
    match s.calls[id]
    case ReadState =>
      if s.holder.Some? then None else (
        match s.core.state
        case Closed => Some(s.(calls := s.calls[id := Running], permitless := s.permitless + 1))
        case Open => Some(s.(calls := s.calls[id := ReadClock]))
        case HalfOpen => Some(s.(calls := s.calls[id := TryAcquire])))
    case ReadClock =>
      if s.holder.Some? then None else Some(s.(calls := s.calls[id := CheckClock(s.core.lastFailure)]))
    case CheckClock(last) =>
      Some(s.(calls := s.calls[id := if s.clock - last >= cfg.timeout then GoHalfOpen(last) else RejectedOpen]))
    case GoHalfOpen(_) =>
      if s.holder.Some? then None else
      var core := Enter(s.core, HalfOpen);
      Some(s.(core := core, calls := s.calls[id := Running], permitless := s.permitless + 1,
              log := s.log + Move(s.core.state, core.state)))
    case TryAcquire =>
      if s.core.tokens < cfg.maxConcurrent then
        Some(s.(core := s.core.(tokens := s.core.tokens + 1), calls := s.calls[id := Running],
                acquired := s.acquired + 1))
      else Some(s.(calls := s.calls[id := RejectedBusy]))
    case Draining =>
      if s.core.tokens > 0 then Some(s.(core := s.core.(tokens := s.core.tokens - 1), drained := s.drained + 1))
      else Some(s.(holder := None, calls := s.calls[id := Releasing]))
    case Releasing =>
      if s.core.tokens > 0 then
        Some(s.(core := s.core.(tokens := s.core.tokens - 1), calls := s.calls[id := Returned],
                returned := s.returned + 1))
      else None
    case _ => None
  }

  predicate CanFinish(s: Sys, id: nat) {
    id in s.calls && s.calls[id] == Running && s.holder.None?
  }

  /** Call `id`'s function ends and its outcome is recorded. */
  function StepFinish(cfg: Config, s: Sys, id: nat, failed: bool): Sys {
    var core := if failed then FailureCore(cfg, s.core, s.clock) else SuccessCore(cfg, s.core);
    var drain := NeedsDrain(s.core, core);
    s.(core := core, holder := if drain then Some(id) else None,
       calls := s.calls[id := if drain then Draining else Releasing],
       log := s.log + [if failed then Fail else Ok] + Move(s.core.state, core.state))
  }

  function Step(cfg: Config, s: Sys, a: Action): Option<Sys> {
    match a
    case Begin(id) => if id in s.calls then None else Some(s.(calls := s.calls[id := ReadState]))
    case Advance(id) => if id in s.calls then StepCall(cfg, s, id) else None
    case Finish(id, failed) =>
      if CanFinish(s, id) then Some(StepFinish(cfg, s, id, failed)) else None
    case Panic(id) =>
      if id in s.calls && s.calls[id] == Running then Some(s.(calls := s.calls[id := Releasing])) else None
    case Tick(d) => Some(s.(clock := s.clock + d))
  }

  /** The state after a run, None when some step of it was not enabled. */
  function Exec(cfg: Config, run: seq<Action>): Option<Sys> {
    if run == [] then Some(INIT) else
    var before := Exec(cfg, run[..|run| - 1]);
    if before.None? then None else Step(cfg, before.value, run[|run| - 1])
  }

  // ---- Counting calls ----

  predicate IsAdmitted(pc: Pc) { pc.Running? || pc.Draining? || pc.Releasing? }

  /** The calls that were admitted and whose Release has not completed. */
  function Unreturned(calls: map<nat, Pc>): set<nat> {
    set id | id in calls && IsAdmitted(calls[id])
  }

  lemma UnreturnedUpdate(calls: map<nat, Pc>, id: nat, pc: Pc)
    ensures |Unreturned(calls[id := pc])| ==
            |Unreturned(calls)| - (if id in calls && IsAdmitted(calls[id]) then 1 else 0)
            + (if IsAdmitted(pc) then 1 else 0)
  {
    var u, u' := Unreturned(calls), Unreturned(calls[id := pc]);
    assert u - {id} == u' - {id};
    SizeBut(u, u', id);
  }

  // ---- Counters as functions of the event log ----

  /** Length of the run of consecutive failures at the end of the log, cut at the last move. */
  function TrailingFailures(log: seq<Event>): nat {
    if log == [] || log[|log| - 1] != Fail then 0 else 1 + TrailingFailures(log[..|log| - 1])
  }

  /** Successes since the last move. */
  function SuccessesSinceMove(log: seq<Event>): nat {
    if log == [] || log[|log| - 1].Moved? then 0
    else SuccessesSinceMove(log[..|log| - 1]) + (if log[|log| - 1] == Ok then 1 else 0)
  }

  function Failures(log: seq<Event>): nat {
    if log == [] then 0 else Failures(log[..|log| - 1]) + (if log[|log| - 1] == Fail then 1 else 0)
  }

  lemma LogStep(log: seq<Event>, e: Event)
    ensures TrailingFailures(log + [e]) == if e == Fail then 1 + TrailingFailures(log) else 0
    ensures SuccessesSinceMove(log + [e]) ==
            if e.Moved? then 0 else SuccessesSinceMove(log) + (if e == Ok then 1 else 0)
    ensures Failures(log + [e]) == Failures(log) + (if e == Fail then 1 else 0)
  {
    assert (log + [e])[..|log|] == log;
  }

  // ---- The invariant ----

  ghost predicate Permits(cfg: Config, s: Sys) {
    && s.acquired == s.core.tokens + s.drained + s.returned
    && s.permitless + s.acquired == |Unreturned(s.calls)| + s.returned
    && s.core.tokens <= cfg.maxConcurrent
  }

  ghost predicate Locking(s: Sys) {
    forall id :: id in s.calls && s.calls[id].Draining? ==> s.holder == Some(id)
  }

  ghost predicate CountersMatch(cfg: Config, b: Core, log: seq<Event>) {
    match b.state
    case Closed => b.failures == TrailingFailures(log) < cfg.failureThreshold && b.successes == 0
    case HalfOpen => b.successes == SuccessesSinceMove(log) < cfg.successThreshold && b.failures == 0
    case Open => b.failures == b.successes == 0
  }

  ghost predicate Counters(cfg: Config, s: Sys) { CountersMatch(cfg, s.core, s.log) }

  /** With fewer failures than the threshold the breaker has never left Closed. */
  ghost predicate Healthy(cfg: Config, s: Sys) {
    Failures(s.log) < cfg.failureThreshold ==>
      && s.core.state == Closed && s.core.failures <= Failures(s.log) && s.acquired == 0
      && forall id :: id in s.calls ==> s.calls[id].ReadState? || s.calls[id].Running? || s.calls[id].Releasing?
  }

  /** A call on its way to HalfOpen saw a lastFailure that was old enough then, hence is now. */
  ghost predicate Probes(cfg: Config, s: Sys) {
    forall id :: id in s.calls && s.calls[id].GoHalfOpen? ==> s.clock - s.calls[id].last >= cfg.timeout
  }

  ghost predicate NoneIn(calls: map<nat, Pc>) { forall id :: id in calls ==> calls[id].ReadState? }

  /** The first call to get past its reading of the state is let in without a token. */
  ghost predicate FirstIsPermitless(s: Sys) {
    s.permitless == 0 ==> s.acquired == s.drained == 0 && s.core.state == Closed && NoneIn(s.calls)
  }

  ghost predicate Inv(cfg: Config, s: Sys) {
    Permits(cfg, s) && Locking(s) && Counters(cfg, s) && Healthy(cfg, s) && Probes(cfg, s) && FirstIsPermitless(s)
  }

  lemma FinishKeepsPermits(cfg: Config, s: Sys, id: nat, failed: bool)
    requires Permits(cfg, s) && CanFinish(s, id)
    ensures Permits(cfg, StepFinish(cfg, s, id, failed))
  {
    UnreturnedUpdate(s.calls, id, StepFinish(cfg, s, id, failed).calls[id]);
  }

  /** An outcome and, when it moves the breaker, the move, as they change the three readings of the log. */
  lemma LogOutcome(log: seq<Event>, e: Event, from: State, target: State)
    requires !e.Moved?
    ensures var log' := log + [e] + Move(from, target);
      && TrailingFailures(log') == (if from != target || e != Fail then 0 else 1 + TrailingFailures(log))
      && SuccessesSinceMove(log') ==
          (if from != target then 0 else SuccessesSinceMove(log) + (if e == Ok then 1 else 0))
      && Failures(log') == Failures(log) + (if e == Fail then 1 else 0)
  {
    LogStep(log, e);
    LogStep(log + [e], Moved(from, target));
    assert log + [e] + [] == log + [e];
  }

  lemma FailureKeepsCounters(cfg: Config, b: Core, now: int, log: seq<Event>)
    requires Positive(cfg) && CountersMatch(cfg, b, log)
    ensures var b' := FailureCore(cfg, b, now); CountersMatch(cfg, b', log + [Fail] + Move(b.state, b'.state))
  {
    LogOutcome(log, Fail, b.state, FailureCore(cfg, b, now).state);
  }

  lemma SuccessKeepsCounters(cfg: Config, b: Core, log: seq<Event>)
    requires Positive(cfg) && CountersMatch(cfg, b, log)
    ensures var b' := SuccessCore(cfg, b); CountersMatch(cfg, b', log + [Ok] + Move(b.state, b'.state))
  {
    LogOutcome(log, Ok, b.state, SuccessCore(cfg, b).state);
  }

  lemma FinishKeepsCounters(cfg: Config, s: Sys, id: nat, failed: bool)
    requires Positive(cfg) && Counters(cfg, s) && CanFinish(s, id)
    ensures var s' := StepFinish(cfg, s, id, failed);
      && Counters(cfg, s')
      && Failures(s'.log) == Failures(s.log) + (if failed then 1 else 0)
  {
    if failed {
      FailureKeepsCounters(cfg, s.core, s.clock, s.log);
      LogOutcome(s.log, Fail, s.core.state, FailureCore(cfg, s.core, s.clock).state);
    } else {
      SuccessKeepsCounters(cfg, s.core, s.log);
      LogOutcome(s.log, Ok, s.core.state, SuccessCore(cfg, s.core).state);
    }
  }

  lemma FinishKeepsHealthy(cfg: Config, s: Sys, id: nat, failed: bool)
    requires Positive(cfg) && Counters(cfg, s) && Healthy(cfg, s) && CanFinish(s, id)
    ensures Healthy(cfg, StepFinish(cfg, s, id, failed))
  {
    FinishKeepsCounters(cfg, s, id, failed);
  }

  lemma FinishKeepsLockingAndProbes(cfg: Config, s: Sys, id: nat, failed: bool)
    requires Locking(s) && Probes(cfg, s) && CanFinish(s, id)
    ensures Locking(StepFinish(cfg, s, id, failed)) && Probes(cfg, StepFinish(cfg, s, id, failed))
  {
  }

  lemma FinishKeepsInv(cfg: Config, s: Sys, id: nat, failed: bool)
    requires Positive(cfg) && Inv(cfg, s) && CanFinish(s, id)
    ensures Inv(cfg, StepFinish(cfg, s, id, failed))
  {
    FinishKeepsPermits(cfg, s, id, failed);
    FinishKeepsCounters(cfg, s, id, failed);
    FinishKeepsHealthy(cfg, s, id, failed);
    FinishKeepsLockingAndProbes(cfg, s, id, failed);
  }

  lemma CallKeepsPermits(cfg: Config, s: Sys, id: nat)
    requires Permits(cfg, s) && id in s.calls && StepCall(cfg, s, id).Some?
    ensures Permits(cfg, StepCall(cfg, s, id).value)
  {
    if !(s.calls[id].Draining? && s.core.tokens > 0) {
      UnreturnedUpdate(s.calls, id, StepCall(cfg, s, id).value.calls[id]);
    }
  }

  lemma CallKeepsCounters(cfg: Config, s: Sys, id: nat)
    requires Positive(cfg) && Counters(cfg, s) && id in s.calls && StepCall(cfg, s, id).Some?
    ensures Counters(cfg, StepCall(cfg, s, id).value)
    ensures Failures(StepCall(cfg, s, id).value.log) == Failures(s.log)
  {
    if s.calls[id].GoHalfOpen? { ProbeKeepsCounters(cfg, s.core, s.log); }
  }

  lemma ProbeKeepsCounters(cfg: Config, b: Core, log: seq<Event>)
    requires Positive(cfg) && CountersMatch(cfg, b, log)
    ensures var log' := log + Move(b.state, HalfOpen);
      CountersMatch(cfg, Enter(b, HalfOpen), log') && Failures(log') == Failures(log)
  {
    if b.state == HalfOpen {
      assert log + [] == log;
    } else {
      LogStep(log, Moved(b.state, HalfOpen));
    }
  }

  lemma CallKeepsHealthy(cfg: Config, s: Sys, id: nat)
    requires Positive(cfg) && Permits(cfg, s) && Counters(cfg, s) && Healthy(cfg, s)
    requires id in s.calls && StepCall(cfg, s, id).Some?
    ensures Healthy(cfg, StepCall(cfg, s, id).value)
  {
    CallKeepsCounters(cfg, s, id);
  }

  lemma CallKeepsLockingAndProbes(cfg: Config, s: Sys, id: nat)
    requires Locking(s) && Probes(cfg, s) && id in s.calls && StepCall(cfg, s, id).Some?
    ensures Locking(StepCall(cfg, s, id).value) && Probes(cfg, StepCall(cfg, s, id).value)
  {
    var s' := StepCall(cfg, s, id).value;
    forall k | k in s'.calls && s'.calls[k].Draining? ensures s'.holder == Some(k) {
      assert s.calls[k].Draining? && s.holder == Some(k);
    }
  }

  lemma CallKeepsInv(cfg: Config, s: Sys, id: nat)
    requires Positive(cfg) && Inv(cfg, s) && id in s.calls && StepCall(cfg, s, id).Some?
    ensures Inv(cfg, StepCall(cfg, s, id).value)
  {
    CallKeepsPermits(cfg, s, id);
    CallKeepsCounters(cfg, s, id);
    CallKeepsHealthy(cfg, s, id);
    CallKeepsLockingAndProbes(cfg, s, id);
  }

  lemma StepKeepsInv(cfg: Config, s: Sys, a: Action)
    requires Positive(cfg) && Inv(cfg, s) && Step(cfg, s, a).Some?
    ensures Inv(cfg, Step(cfg, s, a).value)
  {
    match a
    case Begin(id) => UnreturnedUpdate(s.calls, id, ReadState);
    case Advance(id) => CallKeepsInv(cfg, s, id);
    case Finish(id, failed) => FinishKeepsInv(cfg, s, id, failed);
    case Panic(id) => UnreturnedUpdate(s.calls, id, Releasing);
    case Tick(_) =>
  }

  lemma {:induction false} Reachable(cfg: Config, run: seq<Action>)
    requires Positive(cfg) && Exec(cfg, run).Some?
    ensures Inv(cfg, Exec(cfg, run).value)
  {
    if run != [] {
      Reachable(cfg, run[..|run| - 1]);
      StepKeepsInv(cfg, Exec(cfg, run[..|run| - 1]).value, run[|run| - 1]);
    }
  }

  // ---- Main results, for every interleaving ----

  /** Permit conservation: the admitted calls that have not returned are the tokens in the semaphore,
      plus the admissions made without one, plus the tokens the drain loops removed. So every one of
      the latter is a call that can never come back, and the configured limit bounds only what is left. */
  lemma PermitConservation(cfg: Config, run: seq<Action>)
    requires Positive(cfg) && Exec(cfg, run).Some?
    ensures var s := Exec(cfg, run).value; var out := |Unreturned(s.calls)|;
      && out == s.core.tokens + s.permitless + s.drained
      && s.permitless + s.drained <= out <= cfg.maxConcurrent + s.permitless + s.drained
      && s.returned == s.acquired - s.core.tokens - s.drained
  {
    Reachable(cfg, run);
  }

  /** One token per unreturned call, which is what the semaphore is for, is had exactly in the runs in which no
      call has got past its reading of the state: the first one that does is let in without a token. */
  lemma PairedExactlyBeforeFirstCall(cfg: Config, run: seq<Action>)
    requires Positive(cfg) && Exec(cfg, run).Some?
    ensures var s := Exec(cfg, run).value; s.core.tokens == |Unreturned(s.calls)| <==> NoneIn(s.calls)
  {
    Reachable(cfg, run);
    var s := Exec(cfg, run).value;
    if NoneIn(s.calls) {
      assert Unreturned(s.calls) == {};
    }
  }

  lemma {:induction false} LossesNeverShrink(cfg: Config, run: seq<Action>, more: seq<Action>)
    requires Exec(cfg, run + more).Some?
    ensures Exec(cfg, run).Some?
    ensures var s, s' := Exec(cfg, run).value, Exec(cfg, run + more).value;
      s.permitless <= s'.permitless && s.drained <= s'.drained
    decreases |more|
  {
    if more == [] {
      assert run + more == run;
    } else {
      assert (run + more)[..|run + more| - 1] == run + more[..|more| - 1];
      LossesNeverShrink(cfg, run, more[..|more| - 1]);
    }
  }

  /** Losses are for good: however a run goes on, at least as many calls stay unreturned as had been admitted
      without a token or had lost one to a drain when it was cut. */
  lemma LostCallsStayOut(cfg: Config, run: seq<Action>, more: seq<Action>)
    requires Positive(cfg) && Exec(cfg, run + more).Some?
    ensures Exec(cfg, run).Some?
    ensures |Unreturned(Exec(cfg, run + more).value.calls)| >=
            Exec(cfg, run).value.permitless + Exec(cfg, run).value.drained
  {
    LossesNeverShrink(cfg, run, more);
    PermitConservation(cfg, run + more);
  }

  /** And the pairing never comes back: once a call has got past its reading of the state, then however the run
      goes on some call is out, and no token is there for it. */
  lemma FirstCallIsLostForGood(cfg: Config, run: seq<Action>, more: seq<Action>)
    requires Positive(cfg) && Exec(cfg, run + more).Some?
    ensures Exec(cfg, run).Some?
    ensures !NoneIn(Exec(cfg, run).value.calls) ==>
      var s := Exec(cfg, run + more).value; |Unreturned(s.calls)| > s.core.tokens
  {
    LossesNeverShrink(cfg, run, more);
    PermitConservation(cfg, run + more);
    Reachable(cfg, run);
  }

  /** As long as fewer failures than the threshold were recorded, nothing that entered Execute has
      left it: the breaker is closed, and no call has returned or been refused. */
  lemma HealthyBreakerReturnsNothing(cfg: Config, run: seq<Action>)
    requires Positive(cfg) && Exec(cfg, run).Some?
    requires Failures(Exec(cfg, run).value.log) < cfg.failureThreshold
    ensures var s := Exec(cfg, run).value;
      && s.core.state == Closed && s.returned == 0
      && forall id :: id in s.calls ==> s.calls[id].ReadState? || s.calls[id].Running? || s.calls[id].Releasing?
  {
    Reachable(cfg, run);
  }

  /** A call in Release is blocked exactly when no token is in the semaphore. */
  lemma ReleaseEnabled(cfg: Config, run: seq<Action>, id: nat)
    requires Positive(cfg) && Exec(cfg, run).Some?
    requires id in Exec(cfg, run).value.calls && Exec(cfg, run).value.calls[id] == Releasing
    ensures var s := Exec(cfg, run).value;
      Step(cfg, s, Advance(id)).Some? <==> |Unreturned(s.calls)| > s.permitless + s.drained
  {
    Reachable(cfg, run);
  }

  /** The counters are what the log of outcomes and moves says they are, and the breaker opens on
      exactly the threshold-th consecutive failure and closes on exactly the threshold-th trial success. */
  lemma CountersRefineLog(cfg: Config, run: seq<Action>, id: nat, failed: bool)
    requires Positive(cfg) && Exec(cfg, run).Some? && Step(cfg, Exec(cfg, run).value, Finish(id, failed)).Some?
    ensures var s := Exec(cfg, run).value; var s' := Step(cfg, s, Finish(id, failed)).value;
      && Counters(cfg, s) && Counters(cfg, s')
      && (s.core.state == Closed ==>
          (s'.core.state == Open <==> TrailingFailures(s.log + [if failed then Fail else Ok]) == cfg.failureThreshold)
          && (s'.core.state != Open ==> s'.core.state == Closed))
      && (s.core.state == HalfOpen ==>
          (s'.core.state == Open <==> failed)
          && (s'.core.state == Closed <==> !failed && SuccessesSinceMove(s.log + [Ok]) == cfg.successThreshold))
      && (s.core.state == Open ==> s'.core.state == Open)
  {
    Reachable(cfg, run);
    FinishKeepsInv(cfg, Exec(cfg, run).value, id, failed);
    LogStep(Exec(cfg, run).value.log, if failed then Fail else Ok);
  }

  /** The moves into HalfOpen, in order. */
  function IntoHalfOpen(log: seq<Event>): seq<(State, State)> {
    if log == [] then [] else
    var before, e := IntoHalfOpen(log[..|log| - 1]), log[|log| - 1];
    if e.Moved? && e.target == HalfOpen then before + [(e.from, HalfOpen)] else before
  }

  lemma {:induction false} IntoHalfOpenAdds(log: seq<Event>, es: seq<Event>)
    ensures IntoHalfOpen(log + es) == IntoHalfOpen(log) + IntoHalfOpen(es)
  {
    if es == [] {
      assert log + es == log;
    } else {
      assert (log + es)[..|log + es| - 1] == log + es[..|es| - 1];
      IntoHalfOpenAdds(log, es[..|es| - 1]);
    }
  }

  /** What a move adds to what was notified is what its log entry stands for. */
  lemma MoveNotifies(from: State, target: State)
    ensures IntoHalfOpen(Move(from, target)) == if from != target && target == HalfOpen then [(from, target)] else []
  {
    assert [Moved(from, target)][..0] == [];
  }

  /** An outcome never moves the breaker into HalfOpen. */
  lemma OutcomeNotifiesNothing(cfg: Config, b: Core, now: int, failed: bool)
    ensures var b' := if failed then FailureCore(cfg, b, now) else SuccessCore(cfg, b);
      b'.notified == b.notified && (b'.state == b.state || b'.state != HalfOpen)
  {
  }

  lemma OutcomeLogged(log: seq<Event>, e: Event, from: State, target: State)
    requires !e.Moved? && (from == target || target != HalfOpen)
    ensures IntoHalfOpen(log + [e] + Move(from, target)) == IntoHalfOpen(log)
  {
    IntoHalfOpenAdds(log, [e]);
    assert [e][..0] == [];
    IntoHalfOpenAdds(log + [e], Move(from, target));
    MoveNotifies(from, target);
  }

  lemma FinishNotifies(cfg: Config, s: Sys, id: nat, failed: bool)
    requires CanFinish(s, id) && s.core.notified == IntoHalfOpen(s.log)
    ensures var s' := StepFinish(cfg, s, id, failed); s'.core.notified == IntoHalfOpen(s'.log)
  {
    OutcomeNotifiesNothing(cfg, s.core, s.clock, failed);
    OutcomeLogged(s.log, if failed then Fail else Ok, s.core.state, StepFinish(cfg, s, id, failed).core.state);
  }

  lemma CallNotifies(cfg: Config, s: Sys, id: nat)
    requires id in s.calls && StepCall(cfg, s, id).Some? && s.core.notified == IntoHalfOpen(s.log)
    ensures var s' := StepCall(cfg, s, id).value; s'.core.notified == IntoHalfOpen(s'.log)
  {
    if s.calls[id].GoHalfOpen? {
      IntoHalfOpenAdds(s.log, Move(s.core.state, HalfOpen));
      MoveNotifies(s.core.state, HalfOpen);
    }
  }

  /** In every interleaving the callback was told exactly of the moves into HalfOpen, in order, and of nothing else. */
  lemma {:induction false} NotifiedOfHalfOpeningsOnly(cfg: Config, run: seq<Action>)
    requires Exec(cfg, run).Some?
    ensures Exec(cfg, run).value.core.notified == IntoHalfOpen(Exec(cfg, run).value.log)
  {
    if run != [] {
      NotifiedOfHalfOpeningsOnly(cfg, run[..|run| - 1]);
      var s := Exec(cfg, run[..|run| - 1]).value;
      match run[|run| - 1]
      case Begin(_) =>
      case Advance(id) => CallNotifies(cfg, s, id);
      case Finish(id, failed) => FinishNotifies(cfg, s, id, failed);
      case Panic(_) =>
      case Tick(_) =>
    }
  }

  /** The edges of the interleaved breaker: the four intended ones and Closed to HalfOpen. */
  predicate Edge(from: State, to: State) {
    from == to
    || (from, to) in {(Closed, Open), (Open, HalfOpen), (HalfOpen, Open), (HalfOpen, Closed), (Closed, HalfOpen)}
  }

  /** Every move is one of these edges. A move into HalfOpen is made by a call whose own reading of
      lastFailure was a timeout old, so the cooldown holds unless a failure was recorded since that reading. */
  lemma InterleavedEdges(cfg: Config, run: seq<Action>, a: Action)
    requires Positive(cfg) && Exec(cfg, run).Some? && Step(cfg, Exec(cfg, run).value, a).Some?
    ensures var s := Exec(cfg, run).value; var s' := Step(cfg, s, a).value;
      && Edge(s.core.state, s'.core.state)
      && (s'.core.state == HalfOpen && s.core.state != HalfOpen ==>
          && a.Advance? && a.id in s.calls && s.calls[a.id].GoHalfOpen?
          && s.clock - s.calls[a.id].last >= cfg.timeout
          && (s.core.lastFailure == s.calls[a.id].last ==> s.clock - s.core.lastFailure >= cfg.timeout))
  {
    Reachable(cfg, run);
  }

  lemma Go(cfg: Config, run: seq<Action>, s: Sys, a: Action) returns (run': seq<Action>, s': Sys)
    requires Exec(cfg, run) == Some(s) && Step(cfg, s, a).Some?
    ensures Exec(cfg, run') == Some(s') == Step(cfg, s, a)
  {
    run', s' := run + [a], Step(cfg, s, a).value;
    assert run'[..|run|] == run;
  }

  /** Stale readings do add the edge Closed to HalfOpen: two calls find the cooldown over, the first
      one's trial closes the breaker, and the second then moves it out of Closed. */
  lemma StaleReadingLeavesClosed() returns (cfg: Config, run: seq<Action>, a: Action)
    ensures Positive(cfg) && Exec(cfg, run).Some? && Step(cfg, Exec(cfg, run).value, a).Some?
    ensures Exec(cfg, run).value.core.state == Closed
    ensures Step(cfg, Exec(cfg, run).value, a).value.core.state == HalfOpen
  {
    cfg := Config("", 1, 1, 1, 1);
    var s;
    run, s := TwoProbes(cfg);
    run, s := Go(cfg, run, s, Finish(1, false));
    run, s := Go(cfg, run, s, Advance(1));
    a := Advance(2);
  }

  /** They also break the cooldown: the first trial fails, and the second call moves the breaker to
      HalfOpen at the very time of that failure. */
  lemma StaleReadingSkipsCooldown() returns (cfg: Config, run: seq<Action>, a: Action)
    ensures Positive(cfg) && Exec(cfg, run).Some? && Step(cfg, Exec(cfg, run).value, a).Some?
    ensures var s := Exec(cfg, run).value; s.core.state == Open && s.core.lastFailure == s.clock
    ensures Step(cfg, Exec(cfg, run).value, a).value.core.state == HalfOpen
  {
    cfg := Config("", 1, 1, 1, 1);
    var s;
    run, s := TwoProbes(cfg);
    run, s := Go(cfg, run, s, Finish(1, true));
    run, s := Go(cfg, run, s, Advance(1));
    a := Advance(2);
  }

  /** A run after which call 1 is the trial of a half-open breaker and call 2 is about to follow it. */
  lemma TwoProbes(cfg: Config) returns (run: seq<Action>, s: Sys)
    requires cfg == Config("", 1, 1, 1, 1)
    ensures Exec(cfg, run) == Some(s)
    ensures s.core.state == HalfOpen && s.core.tokens == 0 && s.core.successes == 0 && s.holder == None
    ensures 1 in s.calls && s.calls[1] == Running && 2 in s.calls && s.calls[2].GoHalfOpen?
  {
    run, s := OpenAndCooled(cfg);
    run, s := Probe(cfg, run, s, 1);
    run, s := Probe(cfg, run, s, 2);
    run, s := Go(cfg, run, s, Advance(1));
  }

  /** Call 0 fails and opens the breaker, and the timeout passes. */
  lemma OpenAndCooled(cfg: Config) returns (run: seq<Action>, s: Sys)
    requires cfg == Config("", 1, 1, 1, 1)
    ensures Exec(cfg, run) == Some(s) && s.calls.Keys == {0} && s.holder == None
    ensures s.core.state == Open && s.core.tokens == 0 && s.core.successes == 0 && s.clock - s.core.lastFailure == 1
  {
    run, s := [], INIT;
    run, s := Go(cfg, run, s, Begin(0));
    run, s := Go(cfg, run, s, Advance(0));
    run, s := Go(cfg, run, s, Finish(0, true));
    run, s := Go(cfg, run, s, Advance(0));
    run, s := Go(cfg, run, s, Tick(1));
  }

  /** Call `id` begins and finds the cooldown over. */
  lemma Probe(cfg: Config, run0: seq<Action>, s0: Sys, id: nat) returns (run: seq<Action>, s: Sys)
    requires Exec(cfg, run0) == Some(s0) && id !in s0.calls && s0.holder == None
    requires s0.core.state == Open && s0.clock - s0.core.lastFailure >= cfg.timeout
    ensures Exec(cfg, run) == Some(s) && s == s0.(calls := s.calls)
    ensures s.calls == s0.calls[id := GoHalfOpen(s0.core.lastFailure)]
  {
    run, s := Go(cfg, run0, s0, Begin(id));
    run, s := Go(cfg, run, s, Advance(id));
    run, s := Go(cfg, run, s, Advance(id));
    run, s := Go(cfg, run, s, Advance(id));
  }
}
