/**
 The circuit breaker (internal/circuitbreaker/circuitbreaker.go).

 `Core` is the value of a breaker; the functions on it say what each critical section
 does to that value. The class below holds the same fields and is proved against them.
 The semaphore is a buffered channel of empty structs, so its value is the number of
 tokens in it.
 */
module CircuitBreaker {
  datatype State = Closed | HalfOpen | Open

  datatype Config = Config(name: string, failureThreshold: int, successThreshold: int, timeout: int, maxConcurrent: int)

  /** `notified` is the sequence of (from, to) pairs handed to OnStateChange. */
  datatype Core = Core(state: State, failures: int, successes: int, lastFailure: int, tokens: nat,
                       notified: seq<(State, State)>)

  datatype Verdict = Admitted(permit: bool) | CircuitOpen | TooManyRequests

  const THIRTY_SECONDS := 30_000_000_000

  /** New replaces exactly the zero settings. */
  function Normalize(c: Config): Config {
    Config(c.name,
           if c.failureThreshold == 0 then 5 else c.failureThreshold,
           if c.successThreshold == 0 then 2 else c.successThreshold,
           if c.timeout == 0 then THIRTY_SECONDS else c.timeout,
           if c.maxConcurrent == 0 then 1 else c.maxConcurrent)
  }

  /** Settings with no negative member: the ones for which the thresholds mean something. */
  predicate Positive(c: Config) {
    c.failureThreshold > 0 && c.successThreshold > 0 && c.timeout > 0 && c.maxConcurrent > 0
  }

  const FRESH := Core(Closed, 0, 0, 0, 0, [])

  /** The part of a transition before the drain loop. The drain loops return from the whole
      function, so the callback is reached only when the target is HalfOpen. */
  function Enter(b: Core, to: State): Core {
    if b.state == to then b
    else b.(state := to, failures := 0, successes := 0,
            notified := if to.HalfOpen? then b.notified + [(b.state, to)] else b.notified)
  }

  /** The state changed to one whose entry empties the semaphore. */
  predicate NeedsDrain(before: Core, after: Core) {
    before.state != after.state && !after.state.HalfOpen?
  }

  function Settle(before: Core, after: Core): Core {
    if NeedsDrain(before, after) then after.(tokens := 0) else after
  }

  /** RecordSuccess up to its drain loop. */
  function SuccessCore(cfg: Config, b: Core): Core {
    match b.state
    case HalfOpen =>
      var b' := b.(successes := b.successes + 1);
      if b'.successes >= cfg.successThreshold then Enter(b', Closed) else b'
    case Closed => b.(failures := 0)
    case Open => b
  }

  /** RecordFailure up to its drain loop. */
  function FailureCore(cfg: Config, b: Core, now: int): Core {
    var b' := b.(lastFailure := now);
    match b.state
    case HalfOpen => Enter(b', Open)
    case Closed =>
      var b'' := b'.(failures := b.failures + 1);
      if b''.failures >= cfg.failureThreshold then Enter(b'', Open) else b''
    case Open => b'
  }

  function OnSuccess(cfg: Config, b: Core): Core { Settle(b, SuccessCore(cfg, b)) }

  function OnFailure(cfg: Config, b: Core, now: int): Core { Settle(b, FailureCore(cfg, b, now)) }

  /** Allow when nothing runs between its reads. */
  function AllowAt(cfg: Config, b: Core, now: int): (Core, Verdict) {
    match b.state
    case Closed => (b, Admitted(false))
    case Open => if now - b.lastFailure >= cfg.timeout then (Enter(b, HalfOpen), Admitted(false)) else (b, CircuitOpen)
    case HalfOpen =>
      if b.tokens < cfg.maxConcurrent then (b.(tokens := b.tokens + 1), Admitted(true)) else (b, TooManyRequests)
  }

  function ReleaseToken(b: Core): Core { if b.tokens > 0 then b.(tokens := b.tokens - 1) else b }

  /** How the function that Execute runs can end. */
  datatype Ending = Succeeded | Failed | Panicked

  /** What is recorded of it; a panic leaves Execute without a record. */
  function OnEnding(cfg: Config, b: Core, e: Ending, now: int): Core {
    match e
    case Succeeded => OnSuccess(cfg, b)
    case Failed => OnFailure(cfg, b, now)
    case Panicked => b
  }

  /** What a caller of Execute sees. `Stuck` is a call whose deferred Release waits on an empty channel. */
  datatype Result = Rejected(why: Verdict) | Finished(how: Ending) | Stuck

  /** Execute run on its own: admitted at `start`, its function ended at `end`. */
  function ExecuteAlone(cfg: Config, b: Core, start: int, e: Ending, end: int): (Core, Result) {
    var (b1, v) := AllowAt(cfg, b, start);
    if !v.Admitted? then (b1, Rejected(v)) else
    var b2 := OnEnding(cfg, b1, e, end);
    (ReleaseToken(b2), if b2.tokens > 0 then Finished(e) else Stuck)
  }

  /** Zero settings become 5 failures, 2 successes, 30 seconds and 1 concurrent trial; others stay. */
  lemma DefaultsFillZeros(c: Config)
    ensures var n := Normalize(c);
      && n.name == c.name
      && (c.failureThreshold == 0 ==> n.failureThreshold == 5) && (c.successThreshold == 0 ==> n.successThreshold == 2)
      && (c.timeout == 0 ==> n.timeout == 30_000_000_000) && (c.maxConcurrent == 0 ==> n.maxConcurrent == 1)
      && (c.failureThreshold != 0 ==> n.failureThreshold == c.failureThreshold)
      && (c.successThreshold != 0 ==> n.successThreshold == c.successThreshold)
      && (c.timeout != 0 ==> n.timeout == c.timeout) && (c.maxConcurrent != 0 ==> n.maxConcurrent == c.maxConcurrent)
    ensures Positive(Normalize(c)) <==>
      c.failureThreshold >= 0 && c.successThreshold >= 0 && c.timeout >= 0 && c.maxConcurrent >= 0
  {
  }

  /** Which answer a call gets, and what it does to the breaker: only an open breaker whose cooldown is not over refuses
      as open, only a half-open one without a free slot as busy, and both stay as they are. */
  lemma AnswersByState(cfg: Config, b: Core, now: int)
    ensures var (b', v) := AllowAt(cfg, b, now);
      && (v == CircuitOpen <==> b.state == Open && now - b.lastFailure < cfg.timeout)
      && (v == TooManyRequests <==> b.state == HalfOpen && b.tokens >= cfg.maxConcurrent)
      && (v == Admitted(true) <==> b.state == HalfOpen && b.tokens < cfg.maxConcurrent)
      && (v == Admitted(false) <==> b.state == Closed || (b.state == Open && now - b.lastFailure >= cfg.timeout))
      && (v == Admitted(true) ==> b' == b.(tokens := b.tokens + 1))
      && (b.state == Open && v.Admitted? ==>
           b' == b.(state := HalfOpen, failures := 0, successes := 0, notified := b.notified + [(Open, HalfOpen)]))
      && (!v.Admitted? || b.state == Closed ==> b' == b)
  {
  }

  /** What an outcome does to the breaker, by state: a failed trial opens it, the last trial success closes it, and the
      last of the failures in a row opens it, each with the counters and the semaphore emptied. */
  lemma OutcomesByState(cfg: Config, b: Core, now: int)
    ensures var f := OnFailure(cfg, b, now);
      var tripped := b.(state := Open, failures := 0, successes := 0, tokens := 0);
      f == if b.state == HalfOpen || (b.state == Closed && b.failures + 1 >= cfg.failureThreshold)
           then tripped.(lastFailure := now)
           else b.(lastFailure := now, failures := if b.state == Closed then b.failures + 1 else b.failures)
    ensures var s := OnSuccess(cfg, b);
      var closed := b.(state := Closed, failures := 0, successes := 0, tokens := 0);
      s == if b.state == HalfOpen && b.successes + 1 >= cfg.successThreshold then closed
           else if b.state == HalfOpen then b.(successes := b.successes + 1)
           else if b.state == Closed then b.(failures := 0)
           else b
  {
  }

  /** What a lone call's caller sees: the refusal it was given, the ending of its own function, or nothing; and a token
      is given back if there is one. */
  lemma AloneSeesItsOwnEnding(cfg: Config, b: Core, start: int, e: Ending, end: int)
    ensures var (b', r) := ExecuteAlone(cfg, b, start, e, end); var (b1, v) := AllowAt(cfg, b, start);
      && (r.Finished? ==> r.how == e)
      && (r.Rejected? <==> !v.Admitted?) && (r.Rejected? ==> r.why == v && b' == b)
      && (v.Admitted? ==> var b2 := if e == Failed then OnFailure(cfg, b1, end)
                                    else if e == Succeeded then OnSuccess(cfg, b1) else b1;
            && (r.Finished? <==> b2.tokens > 0) && b' == b2.(tokens := if b2.tokens > 0 then b2.tokens - 1 else 0))
  {
  }

  /** The callback fires for a transition exactly when the breaker really moves and moves into
      HalfOpen: openings and closings are never reported. */
  lemma NotifiedExactlyIntoHalfOpen(b: Core, to: State)
    ensures Settle(b, Enter(b, to)).notified != b.notified <==> b.state != to && to == HalfOpen
    ensures b.state != to && to == HalfOpen ==> Settle(b, Enter(b, to)).notified == b.notified + [(b.state, to)]
  {
    assert |b.notified + [(b.state, to)]| == |b.notified| + 1;
  }

  /** The ending of a function that moves the breaker to Open or Closed, when it was let in with the breaker
      closed and when it was let in as a trial after `successes` others. */
  predicate Opens(cfg: Config, b: Core, e: Ending) { e == Failed && b.failures + 1 >= cfg.failureThreshold }

  predicate EndsTrial(cfg: Config, successes: int, e: Ending) {
    e == Failed || (e == Succeeded && successes + 1 >= cfg.successThreshold)
  }

  /** An uncontended Execute comes back to its caller exactly when it is let in, its ending does not move the
      breaker (which would empty the semaphore), and there is a token for its Release: its own, which only a
      half-open breaker gives it, or one that another call left. The first two cases use up somebody else's
      token; the trial leaves the semaphore as it was. */
  lemma AloneReturnsExactlyWhen(cfg: Config, b: Core, start: int, e: Ending, end: int)
    requires Positive(cfg)
    ensures var (b', r) := ExecuteAlone(cfg, b, start, e, end);
      && (b.state == Closed ==> (r.Finished? <==> b.tokens > 0 && !Opens(cfg, b, e)))
      && (b.state == Open ==>
          (r.Finished? <==> start - b.lastFailure >= cfg.timeout && b.tokens > 0 && !EndsTrial(cfg, 0, e)))
      && (b.state == HalfOpen ==> (r.Finished? <==> b.tokens < cfg.maxConcurrent && !EndsTrial(cfg, b.successes, e)))
      && (r.Finished? ==> b'.tokens == if b.state == HalfOpen then b.tokens else b.tokens - 1)
  {
  }

  /** So with an empty semaphore the only call that returns is a half-open trial that settles nothing. */
  lemma AloneReturnsOnlyAsQuietTrial(cfg: Config, b: Core, start: int, e: Ending, end: int)
    requires Positive(cfg) && b.tokens == 0
    ensures ExecuteAlone(cfg, b, start, e, end).1.Finished? <==> b.state == HalfOpen && !EndsTrial(cfg, b.successes, e)
    ensures ExecuteAlone(cfg, b, start, e, end).1.Finished? ==>
      ExecuteAlone(cfg, b, start, e, end).0 == b.(successes := b.successes + if e == Succeeded then 1 else 0)
  {
  }

  class CircuitBreaker {
    const config: Config
    var state: State
    var failures: int
    var successes: int
    var lastFailure: int
    var semaphore: nat
    var notified: seq<(State, State)>

    ghost function View(): Core
      reads this
    {
      Core(state, failures, successes, lastFailure, semaphore, notified)
    }

    constructor (c: Config)
      ensures config == Normalize(c)
      ensures View() == FRESH
    {
      config := Config(c.name,
                       if c.failureThreshold == 0 then 5 else c.failureThreshold,
                       if c.successThreshold == 0 then 2 else c.successThreshold,
                       if c.timeout == 0 then THIRTY_SECONDS else c.timeout,
                       if c.maxConcurrent == 0 then 1 else c.maxConcurrent);
      state, failures, successes, lastFailure, semaphore, notified := Closed, 0, 0, 0, 0, [];
    }

    method Allow(now: int) returns (v: Verdict)
      modifies this
      ensures (View(), v) == AllowAt(config, old(View()), now)
    {
      match state {
        case Closed => v := Admitted(false);
        case Open =>
          if now - lastFailure >= config.timeout {
            TransitionToLocked(HalfOpen);
            v := Admitted(false);
          } else {
            v := CircuitOpen;
          }
        case HalfOpen =>
          if semaphore < config.maxConcurrent {
            semaphore := semaphore + 1;
            v := Admitted(true);
          } else {
            v := TooManyRequests;
          }
      }
    }

    /** Takes one token out of the semaphore; reports false where the Go receive would block. */
    method Release() returns (done: bool)
      modifies this
      ensures done <==> old(View()).tokens > 0
      ensures View() == ReleaseToken(old(View()))
    {
      done := semaphore > 0;
      if done { semaphore := semaphore - 1; }
    }

    method RecordSuccess()
      modifies this
      ensures View() == OnSuccess(config, old(View()))
    {
      if state == HalfOpen {
        successes := successes + 1;
        if successes >= config.successThreshold {
          TransitionToLocked(Closed);
        }
      } else if state == Closed {
        failures := 0;
      }
    }

    method RecordFailure(now: int)
      modifies this
      ensures View() == OnFailure(config, old(View()), now)
    {
      lastFailure := now;
      if state == HalfOpen {
        TransitionToLocked(Open);
      } else if state == Closed {
        failures := failures + 1;
        if failures >= config.failureThreshold {
          TransitionToLocked(Open);
        }
      }
    }

    method Execute(start: int, e: Ending, end: int) returns (r: Result)
      modifies this
      ensures (View(), r) == ExecuteAlone(config, old(View()), start, e, end)
    {
      var v := Allow(start);
      if !v.Admitted? {
        return Rejected(v);
      }
      if e == Failed {
        RecordFailure(end);
      } else if e == Succeeded {
        RecordSuccess();
      }
      var done := Release();
      r := if done then Finished(e) else Stuck;
    }

    method TransitionToLocked(newState: State)
      modifies this
      ensures View() == Settle(old(View()), Enter(old(View()), newState))
    {
      var oldState := state;
      if oldState == newState {
        return;
      }
      state := newState;
      failures := 0;
      successes := 0;
      if newState == Open || newState == Closed {
        while semaphore > 0
          invariant View() == Enter(old(View()), newState).(tokens := semaphore)
        {
          semaphore := semaphore - 1;
        }
        return;
      }
      notified := notified + [(oldState, newState)];
    }
  }
}
