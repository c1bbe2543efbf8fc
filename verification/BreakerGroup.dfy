/**
 The group of named breakers: the double-checked Get, sequentially as a class and interleaved as a
 state machine with the gap between the two locks as a step boundary.
 */
module BreakerGroup {
  import opened Common
  import opened CircuitBreaker

  class CircuitBreakerGroup {
    var breakers: map<string, CircuitBreaker>
    const defaultConfig: Config

    ghost predicate Valid()
      reads this
    {
      forall m, n :: m in breakers && n in breakers && breakers[m] == breakers[n] ==> m == n
    }

    constructor (config: Config)
      ensures Valid() && breakers == map[] && defaultConfig == config
    {
      breakers, defaultConfig := map[], config;
    }

    /** Names already known keep their breaker; an unknown one gets a fresh breaker nobody else has. */
    method Get(name: string) returns (cb: CircuitBreaker)
      requires Valid()
      modifies this
      ensures Valid()
      ensures name in old(breakers) ==> breakers == old(breakers) && cb == breakers[name]
      ensures name !in old(breakers) ==>
        && breakers == old(breakers)[name := cb] && fresh(cb)
        && cb.config == Normalize(defaultConfig.(name := name)) && cb.View() == FRESH
    {
      if name in breakers {
        return breakers[name];
      }
      var config := defaultConfig;
      config := config.(name := name);
      cb := new CircuitBreaker(config);
      breakers := breakers[name := cb];
    }
  }

  /** Where a Get call stands; `Done` holds the breaker it returned. */
  datatype Pc = ReadMap(name: string) | WantLock(name: string) | Done(name: string, breaker: nat)

  /** Breakers are numbered in the order in which New made them. */
  datatype Registry = Registry(breakers: map<string, nat>, made: nat, calls: map<nat, Pc>)

  const EMPTY := Registry(map[], 0, map[])

  datatype Action = Begin(id: nat, name: string) | Advance(id: nat)

  function Step(s: Registry, a: Action): Option<Registry> {
    match a
    case Begin(id, name) => if id in s.calls then None else Some(s.(calls := s.calls[id := ReadMap(name)]))
    case Advance(id) =>
      if id !in s.calls then None else
      match s.calls[id]
      case ReadMap(name) =>
        Some(s.(calls := s.calls[id := if name in s.breakers then Done(name, s.breakers[name]) else WantLock(name)]))
      case WantLock(name) =>
        if name in s.breakers then Some(s.(calls := s.calls[id := Done(name, s.breakers[name])]))
        else Some(Registry(s.breakers[name := s.made], s.made + 1, s.calls[id := Done(name, s.made)]))
      case Done(_, _) => None
  }

  function Exec(run: seq<Action>): Option<Registry> {
    if run == [] then Some(EMPTY) else
    var before := Exec(run[..|run| - 1]);
    if before.None? then None else Step(before.value, run[|run| - 1])
  }

  /** Every made breaker is stored under exactly one name. */
  ghost predicate Stored(breakers: map<string, nat>, made: nat) {
    && (forall n :: n in breakers ==> breakers[n] < made)
    && (forall m, n :: m in breakers && n in breakers && breakers[m] == breakers[n] ==> m == n)
    && made == |breakers|
  }

  ghost predicate Holds(breakers: map<string, nat>, pc: Pc) {
    pc.Done? ==> pc.name in breakers && breakers[pc.name] == pc.breaker
  }

  /** Whoever has a breaker has the one stored under the name asked for. */
  ghost predicate Inv(s: Registry) {
    Stored(s.breakers, s.made) && forall id :: id in s.calls ==> Holds(s.breakers, s.calls[id])
  }

  lemma StoreFresh(breakers: map<string, nat>, made: nat, name: string)
    requires Stored(breakers, made) && name !in breakers
    ensures Stored(breakers[name := made], made + 1)
    ensures forall pc :: Holds(breakers, pc) ==> Holds(breakers[name := made], pc)
  {
    var breakers' := breakers[name := made];
    assert breakers'.Keys == breakers.Keys + {name};
    assert |breakers'| == |breakers'.Keys|;
  }

  lemma StepKeepsInv(s: Registry, a: Action)
    requires Inv(s) && Step(s, a).Some?
    ensures Inv(Step(s, a).value)
  {
    if a.Advance? && s.calls[a.id].WantLock? && s.calls[a.id].name !in s.breakers {
      StoreFresh(s.breakers, s.made, s.calls[a.id].name);
    }
  }

  lemma {:induction false} Reachable(run: seq<Action>)
    requires Exec(run).Some?
    ensures Inv(Exec(run).value)
  {
    if run != [] {
      Reachable(run[..|run| - 1]);
      StepKeepsInv(Exec(run[..|run| - 1]).value, run[|run| - 1]);
    }
  }

  lemma {:induction false} EntriesPersist(run: seq<Action>, more: seq<Action>)
    requires Exec(run + more).Some?
    ensures Exec(run).Some?
    ensures var early, late := Exec(run).value.breakers, Exec(run + more).value.breakers;
      forall n :: n in early ==> n in late && late[n] == early[n]
    decreases |more|
  {
    if more == [] {
      assert run + more == run;
    } else {
      var init := more[..|more| - 1];
      assert (run + more)[..|run + more| - 1] == run + init;
      EntriesPersist(run, init);
    }
  }

  /** Over every interleaving: as many breakers were made as names are stored, a stored entry never
      changes or vanishes, and two callers asking for names get the same breaker exactly when the
      names are equal, however far apart in the run they finished. */
  lemma OneBreakerPerName(run: seq<Action>, more: seq<Action>, i: nat, j: nat)
    requires Exec(run + more).Some? && Exec(run).Some?
    requires i in Exec(run).value.calls && Exec(run).value.calls[i].Done?
    requires j in Exec(run + more).value.calls && Exec(run + more).value.calls[j].Done?
    ensures var late := Exec(run + more).value;
      && late.made == |late.breakers|
      && (Exec(run).value.calls[i].breaker == late.calls[j].breaker <==>
          Exec(run).value.calls[i].name == late.calls[j].name)
  {
    Reachable(run);
    Reachable(run + more);
    EntriesPersist(run, more);
  }

  lemma Go(run: seq<Action>, s: Registry, a: Action) returns (run': seq<Action>, s': Registry)
    requires Exec(run) == Some(s) && Step(s, a).Some?
    ensures Exec(run') == Some(s') == Step(s, a)
  {
    run', s' := run + [a], Step(s, a).value;
    assert run'[..|run|] == run;
  }

  /** An uninterrupted Get returns the stored breaker of its name, or a new one that it stores. */
  lemma GetUninterrupted(run0: seq<Action>, s0: Registry, id: nat, name: string)
    returns (run: seq<Action>, s: Registry)
    requires Exec(run0) == Some(s0) && id !in s0.calls
    ensures Exec(run) == Some(s) && id in s.calls
    ensures name in s0.breakers ==> s.breakers == s0.breakers && s.calls[id] == Done(name, s0.breakers[name])
    ensures name !in s0.breakers ==> s.breakers == s0.breakers[name := s0.made] && s.calls[id] == Done(name, s0.made)
  {
    run, s := Go(run0, s0, Begin(id, name));
    run, s := Go(run, s, Advance(id));
    if name !in s0.breakers {
      run, s := Go(run, s, Advance(id));
    }
  }
}
