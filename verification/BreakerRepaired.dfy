/**
 The circuit breaker with its permits repaired, beside BreakerProtocol, which is the breaker as it is.
 The repair: a call remembers whether it took a token and its Release gives back exactly that one; the
 call that moves the breaker to half-open takes a token like every other trial; and a transition leaves
 the semaphore alone. What the outcomes do to the state and the counters is as it was.
 */
module BreakerRepaired {
  import opened Common
  import opened CircuitBreaker

  datatype Pc =
    | ReadState               // about to read the state
    | ReadClock               // saw Open, about to read lastFailure
    | CheckClock(last: int)   // about to compare lastFailure with the clock
    | GoHalfOpen              // found the cooldown over, about to move to HalfOpen
    | TryAcquire              // a trial, about to try the semaphore
    | Running(permit: bool)   // admitted, the function is executing
    | Releasing(permit: bool) // in the deferred Release
    | Returned
    | Refused

  datatype Sys = Sys(core: Core, clock: nat, calls: map<nat, Pc>)

  const INIT := Sys(FRESH, 0, map[])

  datatype Action = Begin(id: nat) | Advance(id: nat) | Finish(id: nat, e: Ending) | Tick(d: nat)

  /** The next step of call `id`; None when it must wait. */
  function StepCall(cfg: Config, s: Sys, id: nat): Option<Sys>
    requires id in s.calls
  {
    match s.calls[id]
    case ReadState =>
      var next :=
        if s.core.state == Closed then Running(false) else if s.core.state == Open then ReadClock else TryAcquire;
      Some(s.(calls := s.calls[id := next]))
    case ReadClock => Some(s.(calls := s.calls[id := CheckClock(s.core.lastFailure)]))
    case CheckClock(last) =>
      Some(s.(calls := s.calls[id := if s.clock - last >= cfg.timeout then GoHalfOpen else Refused]))
    case GoHalfOpen => Some(s.(core := Enter(s.core, HalfOpen), calls := s.calls[id := TryAcquire]))
    case TryAcquire =>
      if s.core.tokens >= cfg.maxConcurrent then Some(s.(calls := s.calls[id := Refused]))
      else Some(s.(core := s.core.(tokens := s.core.tokens + 1), calls := s.calls[id := Running(true)]))
    case Releasing(permit) =>
      if !permit then Some(s.(calls := s.calls[id := Returned]))
      else if s.core.tokens == 0 then None
      else Some(s.(core := s.core.(tokens := s.core.tokens - 1), calls := s.calls[id := Returned]))
    case _ => None
  }

  function Record(cfg: Config, b: Core, e: Ending, now: int): Core {
    match e
    case Succeeded => SuccessCore(cfg, b)
    case Failed => FailureCore(cfg, b, now)
    case Panicked => b
  }

  function Step(cfg: Config, s: Sys, a: Action): Option<Sys> {
    match a
    case Begin(id) => if id in s.calls then None else Some(s.(calls := s.calls[id := ReadState]))
    case Advance(id) => if id in s.calls then StepCall(cfg, s, id) else None
    case Finish(id, e) =>
      if id !in s.calls || !s.calls[id].Running? then None
      else Some(s.(core := Record(cfg, s.core, e, s.clock), calls := s.calls[id := Releasing(s.calls[id].permit)]))
    case Tick(d) => Some(s.(clock := s.clock + d))
  }

  function Exec(cfg: Config, run: seq<Action>): Option<Sys> {
    if run == [] then Some(INIT) else
    var before := Exec(cfg, run[..|run| - 1]);
    if before.None? then None else Step(cfg, before.value, run[|run| - 1])
  }

  predicate IsAdmitted(pc: Pc) { pc.Running? || pc.Releasing? }

  predicate Holds(pc: Pc) { IsAdmitted(pc) && pc.permit }

  /** The calls that were admitted and have not returned, and those of them that took a token. */
  function Unreturned(calls: map<nat, Pc>): set<nat> { set id | id in calls && IsAdmitted(calls[id]) }

  function Holders(calls: map<nat, Pc>): set<nat> { set id | id in calls && Holds(calls[id]) }

  lemma HoldersUpdate(calls: map<nat, Pc>, id: nat, pc: Pc)
    ensures |Holders(calls[id := pc])| ==
            |Holders(calls)| - (if id in calls && Holds(calls[id]) then 1 else 0) + (if Holds(pc) then 1 else 0)
  {
    var u, u' := Holders(calls), Holders(calls[id := pc]);
    assert u - {id} == u' - {id};
    SizeBut(u, u', id);
  }

  ghost predicate Paired(cfg: Config, s: Sys) {
    s.core.tokens == |Holders(s.calls)| <= cfg.maxConcurrent
  }

  lemma StepKeepsPaired(cfg: Config, s: Sys, a: Action)
    requires Positive(cfg) && Paired(cfg, s) && Step(cfg, s, a).Some?
    ensures Paired(cfg, Step(cfg, s, a).value)
  {
    if !a.Tick? {
      HoldersUpdate(s.calls, a.id, Step(cfg, s, a).value.calls[a.id]);
    }
  }

  lemma {:induction false} Reachable(cfg: Config, run: seq<Action>)
    requires Positive(cfg) && Exec(cfg, run).Some?
    ensures Paired(cfg, Exec(cfg, run).value)
  {
    if run != [] {
      Reachable(cfg, run[..|run| - 1]);
      StepKeepsPaired(cfg, Exec(cfg, run[..|run| - 1]).value, run[|run| - 1]);
    }
  }

  lemma HolderCounts(calls: map<nat, Pc>, id: nat)
    requires id in calls && Holds(calls[id])
    ensures |Holders(calls)| > 0
  {
    assert id in Holders(calls);
  }

  /** In every interleaving the tokens in the semaphore are exactly the permits that calls hold, at most as many
      as configured, and a call in Release can always go on. */
  lemma RepairedPermits(cfg: Config, run: seq<Action>)
    requires Positive(cfg) && Exec(cfg, run).Some?
    ensures var s := Exec(cfg, run).value;
      && s.core.tokens == |Holders(s.calls)| <= cfg.maxConcurrent
      && forall id :: id in s.calls && s.calls[id].Releasing? ==> Step(cfg, s, Advance(id)).Some?
  {
    Reachable(cfg, run);
    var s := Exec(cfg, run).value;
    forall id | id in s.calls && s.calls[id].Releasing? ensures Step(cfg, s, Advance(id)).Some? {
      if s.calls[id].permit { HolderCounts(s.calls, id); }
    }
  }

  lemma Go(cfg: Config, run: seq<Action>, a: Action) returns (run': seq<Action>)
    requires Exec(cfg, run).Some? && Step(cfg, Exec(cfg, run).value, a).Some?
    ensures run <= run' && Exec(cfg, run') == Step(cfg, Exec(cfg, run).value, a)
  {
    run' := run + [a];
    assert run'[..|run|] == run;
  }

  predicate InTrial(cfg: Config, s: Sys) {
    s.core.state == HalfOpen || (s.core.state == Open && s.clock - s.core.lastFailure >= cfg.timeout)
  }

  /** An uninterrupted call of the repaired breaker is let in freely when the breaker is closed, and with a token
      when it is half-open, or its cooldown over, and a slot is free; else it is refused. */
  lemma AdmittedWithPermit(cfg: Config, run0: seq<Action>, id: nat) returns (run: seq<Action>)
    requires Exec(cfg, run0).Some? && id !in Exec(cfg, run0).value.calls
    ensures run0 <= run && Exec(cfg, run).Some? && id in Exec(cfg, run).value.calls
    ensures var s0, s := Exec(cfg, run0).value, Exec(cfg, run).value;
      && s.calls[id] == (if s0.core.state == Closed then Running(false)
                         else if InTrial(cfg, s0) && s0.core.tokens < cfg.maxConcurrent then Running(true) else Refused)
      && s.core.tokens == (if s.calls[id] == Running(true) then s0.core.tokens + 1 else s0.core.tokens)
      && s.core.state == (if InTrial(cfg, s0) then HalfOpen else s0.core.state)
  {
    var s0 := Exec(cfg, run0).value;
    run := Go(cfg, run0, Begin(id));
    run := Go(cfg, run, Advance(id));
    if s0.core.state == Open {
      run := Go(cfg, run, Advance(id));
      run := Go(cfg, run, Advance(id));
      if s0.clock - s0.core.lastFailure >= cfg.timeout {
        run := Go(cfg, run, Advance(id));
        run := Go(cfg, run, Advance(id));
      }
    } else if s0.core.state == HalfOpen {
      run := Go(cfg, run, Advance(id));
    }
  }

  lemma Return(cfg: Config, run: seq<Action>, id: nat) returns (run': seq<Action>)
    requires Positive(cfg) && Exec(cfg, run).Some? && id in Unreturned(Exec(cfg, run).value.calls)
    ensures run <= run' && Exec(cfg, run').Some?
    ensures Unreturned(Exec(cfg, run').value.calls) == Unreturned(Exec(cfg, run).value.calls) - {id}
  {
    run' := run;
    if Exec(cfg, run).value.calls[id].Running? {
      run' := Go(cfg, run', Finish(id, Succeeded));
    }
    RepairedPermits(cfg, run');
    run' := Go(cfg, run', Advance(id));
  }

  /** From every reachable state the calls that are in can all return, and then no token is left: nothing the
      breaker did before is ever lost. In the breaker as it is, FirstCallIsLostForGood says the opposite. */
  lemma {:induction false} EveryCallCanReturn(cfg: Config, run: seq<Action>) returns (run': seq<Action>)
    requires Positive(cfg) && Exec(cfg, run).Some?
    ensures run <= run' && Exec(cfg, run').Some?
    ensures Unreturned(Exec(cfg, run').value.calls) == {} && Exec(cfg, run').value.core.tokens == 0
    decreases |Unreturned(Exec(cfg, run).value.calls)|
  {
    var out := Unreturned(Exec(cfg, run).value.calls);
    if out == {} {
      run' := run;
      Reachable(cfg, run);
      assert Holders(Exec(cfg, run).value.calls) <= out;
    } else {
      var id :| id in out;
      var next := Return(cfg, run, id);
      run' := EveryCallCanReturn(cfg, next);
    }
  }
}
