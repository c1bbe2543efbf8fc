/**
 The interleaved breaker and the sequential one are the same breaker: a call of which no step is
 interrupted does to the state, and gets, what CircuitBreaker.ExecuteAlone says
 (internal/circuitbreaker/circuitbreaker.go).
 */
module BreakerAlone {
  import opened Common
  import opened CircuitBreaker
  import opened BreakerProtocol

  lemma AllowAlone(cfg: Config, run0: seq<Action>, s0: Sys, id: nat) returns (run: seq<Action>, s: Sys)
    requires Exec(cfg, run0) == Some(s0) && id !in s0.calls && s0.holder == None
    ensures Exec(cfg, run) == Some(s) && s.holder == None && s.clock == s0.clock && id in s.calls
    ensures var (core, v) := AllowAt(cfg, s0.core, s0.clock);
      s.core == core && s.calls[id] ==
      if v.Admitted? then Running else if v.CircuitOpen? then RejectedOpen else RejectedBusy
  {
    run, s := Go(cfg, run0, s0, Begin(id));
    run, s := Go(cfg, run, s, Advance(id));
    if s0.core.state == HalfOpen {
      run, s := Go(cfg, run, s, Advance(id));
    } else if s0.core.state == Open {
      run, s := Go(cfg, run, s, Advance(id));
      run, s := Go(cfg, run, s, Advance(id));
      if s0.clock - s0.core.lastFailure >= cfg.timeout {
        run, s := Go(cfg, run, s, Advance(id));
      }
    }
  }

  lemma {:induction false} DrainAlone(cfg: Config, run0: seq<Action>, s0: Sys, id: nat)
    returns (run: seq<Action>, s: Sys)
    requires Exec(cfg, run0) == Some(s0) && id in s0.calls && s0.calls[id] == Draining
    ensures Exec(cfg, run) == Some(s) && s.holder == None && s.clock == s0.clock
    ensures s.core == s0.core.(tokens := 0) && id in s.calls && s.calls[id] == Releasing
    decreases s0.core.tokens
  {
    run, s := Go(cfg, run0, s0, Advance(id));
    if s0.core.tokens > 0 {
      run, s := DrainAlone(cfg, run, s, id);
    }
  }

  lemma FinishAlone(cfg: Config, run0: seq<Action>, s0: Sys, id: nat, e: Ending) returns (run: seq<Action>, s: Sys)
    requires Exec(cfg, run0) == Some(s0) && id in s0.calls && s0.calls[id] == Running && s0.holder == None
    ensures Exec(cfg, run) == Some(s) && id in s.calls && s.calls[id] == Releasing
    ensures s.core == OnEnding(cfg, s0.core, e, s0.clock)
  {
    if e == Panicked {
      run, s := Go(cfg, run0, s0, Panic(id));
    } else {
      run, s := Go(cfg, run0, s0, Finish(id, e == Failed));
      if s.calls[id] == Draining {
        run, s := DrainAlone(cfg, run, s, id);
      }
    }
  }

  /** An uninterrupted call, its function taking time d, leaves the breaker and ends as the sequential Execute does; it
      waits in Release exactly when that one is stuck. */
  lemma ExecuteUninterrupted(cfg: Config, run0: seq<Action>, s0: Sys, id: nat, e: Ending, d: nat)
    returns (run: seq<Action>, s: Sys)
    requires Exec(cfg, run0) == Some(s0) && id !in s0.calls && s0.holder == None
    ensures Exec(cfg, run) == Some(s) && id in s.calls
    ensures var (core, r) := ExecuteAlone(cfg, s0.core, s0.clock, e, s0.clock + d);
      s.core == core && s.calls[id] ==
      if r.Finished? then Returned else if r.Stuck? then Releasing
      else if r.why.CircuitOpen? then RejectedOpen else RejectedBusy
  {
    run, s := AllowAlone(cfg, run0, s0, id);
    if s.calls[id] == Running {
      run, s := Go(cfg, run, s, Tick(d));
      run, s := FinishAlone(cfg, run, s, id, e);
      if s.core.tokens > 0 {
        run, s := Go(cfg, run, s, Advance(id));
      }
    }
  }
}
