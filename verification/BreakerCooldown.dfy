/**
 Whole runs of one breaker when Allow is atomic: the legal edges and the cooldown.
 */
module BreakerCooldown {
  import opened CircuitBreaker

  datatype Op = Allow(now: int) | Success | Failure(now: int) | Release

  function Apply(cfg: Config, b: Core, op: Op): Core {
    match op
    case Allow(now) => AllowAt(cfg, b, now).0
    case Success => OnSuccess(cfg, b)
    case Failure(now) => OnFailure(cfg, b, now)
    case Release => ReleaseToken(b)
  }

  function Replay(cfg: Config, ops: seq<Op>): Core {
    if ops == [] then FRESH else Apply(cfg, Replay(cfg, ops[..|ops| - 1]), ops[|ops| - 1])
  }

  /** The clock never runs backwards. */
  ghost predicate Timed(ops: seq<Op>) {
    forall i, j :: 0 <= i < j < |ops| && HasTime(ops[i]) && HasTime(ops[j]) ==> ops[i].now <= ops[j].now
  }

  predicate HasTime(op: Op) { op.Allow? || op.Failure? }

  predicate LegalEdge(from: State, to: State) {
    from == to
    || (from == Closed && to == Open)
    || (from == Open && to == HalfOpen)
    || (from == HalfOpen && to == Open)
    || (from == HalfOpen && to == Closed)
  }

  /** Each edge belongs to one kind of operation, and nothing else moves the breaker. */
  lemma OnlyLegalEdges(cfg: Config, b: Core, op: Op)
    ensures var s := Apply(cfg, b, op).state;
      && LegalEdge(b.state, s)
      && (b.state != s ==>
          (s == HalfOpen <==> op.Allow?) && (s == Open <==> op.Failure?) && (s == Closed <==> op.Success?))
  {
  }

  /** No recorded failure is younger than `age` at time `now`. */
  ghost predicate Quiet(ops: seq<Op>, now: int, age: int) {
    forall i :: 0 <= i < |ops| && ops[i].Failure? ==> now - ops[i].now >= age
  }

  /** Only a failure sets lastFailure, and nothing else opens the breaker or starts counting failures. */
  lemma OnlyFailuresCount(cfg: Config, b: Core, op: Op)
    ensures var b' := Apply(cfg, b, op);
      && b'.lastFailure == (if op.Failure? then op.now else b.lastFailure)
      && (!op.Failure? && (b'.state == Open || b'.failures > 0) ==> b.state == Open || b.failures > 0)
  {
  }

  /** lastFailure is the time of the latest failure, and an open breaker has seen one. */
  lemma {:induction false} LastFailureIsLatest(cfg: Config, ops: seq<Op>)
    requires Timed(ops) && Positive(cfg)
    ensures var b := Replay(cfg, ops);
      && (forall i :: 0 <= i < |ops| && ops[i].Failure? ==> ops[i].now <= b.lastFailure)
      && (b.lastFailure != 0 || b.state == Open || b.failures > 0 ==>
          exists i :: 0 <= i < |ops| && ops[i] == Failure(b.lastFailure))
  {
    hide Apply, Positive;
    if ops != [] {
      var init, op := ops[..|ops| - 1], ops[|ops| - 1];
      assert forall i :: 0 <= i < |init| ==> init[i] == ops[i];
      LastFailureIsLatest(cfg, init);
      var b := Replay(cfg, init);
      OnlyFailuresCount(cfg, b, op);
      if op.Failure? {
        assert ops[|ops| - 1] == Failure(Replay(cfg, ops).lastFailure);
      } else if b.lastFailure != 0 || b.state == Open || b.failures > 0 {
        var i :| 0 <= i < |init| && init[i] == Failure(b.lastFailure);
        assert ops[i] == Failure(b.lastFailure);
      }
    }
  }

  /** The cooldown, over every run: an open breaker lets a trial through exactly when every failure
      recorded so far (late ones from calls admitted before it opened included) is at least one
      timeout old; otherwise it refuses and stays as it is. */
  lemma {:induction false} Cooldown(cfg: Config, ops: seq<Op>, now: int)
    requires Positive(cfg) && Timed(ops) && Replay(cfg, ops).state == Open
    ensures var (b', v) := AllowAt(cfg, Replay(cfg, ops), now);
      && (Quiet(ops, now, cfg.timeout) <==> v == Admitted(false))
      && (Quiet(ops, now, cfg.timeout) <==> b'.state == HalfOpen)
      && (!Quiet(ops, now, cfg.timeout) <==> v == CircuitOpen)
      && (!Quiet(ops, now, cfg.timeout) ==> b' == Replay(cfg, ops))
  {
    LastFailureIsLatest(cfg, ops);
    var b := Replay(cfg, ops);
    var i :| 0 <= i < |ops| && ops[i] == Failure(b.lastFailure);
  }
}
