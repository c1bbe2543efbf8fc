/**
 getNameMap, the device mutators and InvalidateDeviceCache interleaved: a reader holds the write lock
 from its second check of the cache over List to the store, and a mutator commits to the database
 before it asks for that lock to empty the cache.
 */
module NameCacheProtocol {
  import opened Common
  import opened Devices

  datatype Pc =
    | Checking                                        // reader, before the check under the read lock
    | WantLock                                        // reader, about to take the write lock
    | Listing                                         // reader, holds the write lock, about to call List
    | Storing(found: Option<map<string, string>>)     // reader, holds the write lock and List's answer
    | Got(names: map<string, string>)                 // reader, returned
    | Mutating                                        // mutator, before its commit
    | Committed(version: nat)                         // mutator, committed, about to invalidate
    | Finished(commit: Option<nat>)                   // mutator, returned; None when it did not commit

  /** The last four members are bookkeeping. `exposed` holds the readers during whose call some mutator stood
      between its commit and its invalidation; `tables` the initial rows and those after each commit, whose
      position is the commit's version; `floor` the highest version whose mutator has invalidated the cache;
      `started` the floor at the start of each reader. */
  datatype Sys = Sys(rows: seq<Device>, clock: nat, cache: Cache, holder: Option<nat>, calls: map<nat, Pc>,
                     exposed: set<nat>, tables: seq<seq<Device>>, floor: nat, started: map<nat, nat>)

  function Init(rows: seq<Device>): Sys { Sys(rows, 0, EMPTY_CACHE, None, map[], {}, [rows], 0, map[]) }

  datatype Action = Read(id: nat) | Mutate(id: nat) | Advance(id: nat, ok: bool, rows: seq<Device>) | Tick(d: nat)

  predicate IsReading(pc: Pc) { pc.Checking? || pc.WantLock? || pc.Listing? || pc.Storing? }

  function Readers(calls: map<nat, Pc>): set<nat> { set id | id in calls && IsReading(calls[id]) }

  ghost predicate Pending(s: Sys) { exists id :: id in s.calls && s.calls[id].Committed? }

  function StepCall(s: Sys, id: nat, ok: bool, rows: seq<Device>): Option<Sys>
    requires id in s.calls
  {
    match s.calls[id]
    case Checking =>
      if s.holder.Some? then None
      else Some(s.(calls := s.calls[id := if IsFresh(s.cache, s.clock) then Got(s.cache.names) else WantLock]))
    case WantLock =>
      if s.holder.Some? then None
      else if IsFresh(s.cache, s.clock) then Some(s.(calls := s.calls[id := Got(s.cache.names)]))
      else Some(s.(calls := s.calls[id := Listing], holder := Some(id)))
    case Listing =>
      Some(s.(calls := s.calls[id := Storing(if ok then Some(Names(Listed(s.rows))) else None)]))
    case Storing(found) =>
      var cache := if found.Some? then Cache(found.value, Some(s.clock)) else s.cache;
      Some(s.(calls := s.calls[id := Got(cache.names)], cache := cache, holder := None))
    case Mutating =>
      if ok then Some(s.(rows := rows, tables := s.tables + [rows], calls := s.calls[id := Committed(|s.tables|)],
                         exposed := s.exposed + Readers(s.calls)))
      else Some(s.(calls := s.calls[id := Finished(None)]))
    case Committed(v) =>
      if s.holder.Some? then None
      else Some(s.(cache := EMPTY_CACHE, calls := s.calls[id := Finished(Some(v))],
                   floor := if v > s.floor then v else s.floor))
    case Got(_) => None
    case Finished(_) => None
  }

  ghost function Step(s: Sys, a: Action): Option<Sys> {
    match a
    case Read(id) =>
      if id in s.calls then None
      else Some(s.(calls := s.calls[id := Checking], started := s.started[id := s.floor],
                   exposed := if Pending(s) then s.exposed + {id} else s.exposed))
    case Mutate(id) => if id in s.calls then None else Some(s.(calls := s.calls[id := Mutating]))
    case Advance(id, ok, rows) => if id in s.calls then StepCall(s, id, ok, rows) else None
    case Tick(d) => Some(s.(clock := s.clock + d))
  }

  ghost function Exec(rows: seq<Device>, run: seq<Action>): Option<Sys> {
    if run == [] then Some(Init(rows)) else
    var before := Exec(rows, run[..|run| - 1]);
    if before.None? then None else Step(before.value, run[|run| - 1])
  }

  ghost predicate Locking(s: Sys) {
    forall id :: id in s.calls && (s.calls[id].Listing? || s.calls[id].Storing?) ==> s.holder == Some(id)
  }

  ghost predicate CallTruthful(rows: seq<Device>, pc: Pc) {
    pc.Storing? && pc.found.Some? ==> pc.found.value == Names(Listed(rows))
  }

  ghost predicate Truthful(s: Sys) {
    !Pending(s) ==>
      && Coherent(s.cache, s.rows)
      && forall id :: id in s.calls ==> CallTruthful(s.rows, s.calls[id])
  }

  ghost predicate Exposure(s: Sys) {
    s.exposed <= s.calls.Keys && (Pending(s) ==> Readers(s.calls) <= s.exposed)
  }

  /** The names of one of the tables, no older than a version. */
  ghost predicate IsVersion(tables: seq<seq<Device>>, least: nat, names: map<string, string>) {
    exists v :: least <= v < |tables| && names == Names(Listed(tables[v]))
  }

  ghost predicate CallVersions(s: Sys, id: nat, pc: Pc) {
    && (pc.Committed? ==> pc.version < |s.tables|)
    && (pc.Finished? && pc.commit.Some? ==> pc.commit.value <= s.floor)
    && (IsReading(pc) || pc.Got? ==> id in s.started && s.started[id] <= s.floor)
    && (pc.Storing? && pc.found.Some? ==> IsVersion(s.tables, s.floor, pc.found.value))
    && (pc.Got? && pc.names != map[] ==> IsVersion(s.tables, s.started[id], pc.names))
  }

  /** What is cached, and what the holder of the lock is about to store, is at least as new as the floor. */
  ghost predicate Versions(s: Sys) {
    && s.floor < |s.tables| && s.tables[|s.tables| - 1] == s.rows
    && (s.cache.names != map[] ==> IsVersion(s.tables, s.floor, s.cache.names))
    && forall id :: id in s.calls ==> CallVersions(s, id, s.calls[id])
  }

  ghost predicate Inv(s: Sys) { Locking(s) && Truthful(s) && Exposure(s) && Versions(s) }

  lemma PendingUpdate(s: Sys, s': Sys, id: nat, pc: Pc)
    requires s'.calls == s.calls[id := pc]
    ensures pc.Committed? ==> Pending(s')
    ensures !pc.Committed? && (id !in s.calls || !s.calls[id].Committed?) ==> (Pending(s) <==> Pending(s'))
    ensures !pc.Committed? && Pending(s') ==> Pending(s)
  {
    if pc.Committed? { assert s'.calls[id].Committed?; }
    if Pending(s) {
      var k :| k in s.calls && s.calls[k].Committed?;
      assert k != id ==> s'.calls[k].Committed?;
    }
    if Pending(s') {
      var k :| k in s'.calls && s'.calls[k].Committed?;
      assert k != id ==> s.calls[k].Committed?;
    }
  }

  lemma StepKeepsLocking(s: Sys, a: Action)
    requires Locking(s) && Step(s, a).Some?
    ensures Locking(Step(s, a).value)
  {
  }

  lemma ActorKeepsTruthful(s: Sys, id: nat, ok: bool, rows: seq<Device>)
    requires Coherent(s.cache, s.rows) && id in s.calls && CallTruthful(s.rows, s.calls[id])
    requires StepCall(s, id, ok, rows).Some? && !StepCall(s, id, ok, rows).value.calls[id].Committed?
    ensures var s' := StepCall(s, id, ok, rows).value;
      s'.rows == s.rows && Coherent(s'.cache, s'.rows) && CallTruthful(s'.rows, s'.calls[id])
  {
  }

  /** With nobody holding the lock, nobody is about to store anything. */
  lemma InvalidationKeepsTruthful(s: Sys, id: nat, ok: bool, rows: seq<Device>)
    requires Locking(s) && id in s.calls && s.calls[id].Committed? && StepCall(s, id, ok, rows).Some?
    ensures Truthful(StepCall(s, id, ok, rows).value)
  {
  }

  lemma StepKeepsTruthful(s: Sys, a: Action)
    requires Locking(s) && Truthful(s) && Step(s, a).Some?
    ensures Truthful(Step(s, a).value)
  {
    var s' := Step(s, a).value;
    if a.Tick? {
      assert Pending(s) <==> Pending(s');
    } else if a.Advance? && s.calls[a.id].Committed? {
      InvalidationKeepsTruthful(s, a.id, a.ok, a.rows);
    } else if !Pending(s') {
      PendingUpdate(s, s', a.id, s'.calls[a.id]);
      if a.Advance? { ActorKeepsTruthful(s, a.id, a.ok, a.rows); }
    }
  }

  lemma StepKeepsExposure(s: Sys, a: Action)
    requires Exposure(s) && Step(s, a).Some?
    ensures Exposure(Step(s, a).value)
  {
    var s' := Step(s, a).value;
    if a.Tick? {
      assert Pending(s) <==> Pending(s');
    } else {
      PendingUpdate(s, s', a.id, s'.calls[a.id]);
      assert Readers(s'.calls) <= Readers(s.calls) + (if a.Read? then {a.id} else {});
    }
  }

  lemma VersionKept(tables: seq<seq<Device>>, tables': seq<seq<Device>>, least: nat, least': nat,
                    names: map<string, string>)
    requires IsVersion(tables, least, names) && tables <= tables' && least' <= least
    ensures IsVersion(tables', least', names)
  {
    var v :| least <= v < |tables| && names == Names(Listed(tables[v]));
    assert tables'[v] == tables[v];
  }

  /** A call that an action leaves alone keeps its versions: the floor rises only while nobody holds the lock. */
  lemma CallKeepsVersions(s: Sys, s': Sys, id: nat, pc: Pc)
    requires CallVersions(s, id, pc) && s.tables <= s'.tables && s.floor <= s'.floor
    requires IsReading(pc) || pc.Got? ==> id in s'.started && s'.started[id] == s.started[id]
    requires pc.Storing? ==> s'.floor == s.floor
    ensures CallVersions(s', id, pc)
  {
    if pc.Storing? && pc.found.Some? { VersionKept(s.tables, s'.tables, s.floor, s.floor, pc.found.value); }
    if pc.Got? && pc.names != map[] { VersionKept(s.tables, s'.tables, s.started[id], s.started[id], pc.names); }
  }

  /** The call that acts has its versions afterwards, and so has the cache. */
  lemma ActorKeepsVersions(s: Sys, id: nat, ok: bool, rows: seq<Device>)
    requires Versions(s) && id in s.calls && StepCall(s, id, ok, rows).Some?
    ensures var s' := StepCall(s, id, ok, rows).value;
      && CallVersions(s', id, s'.calls[id])
      && (s'.cache.names != map[] ==> IsVersion(s'.tables, s'.floor, s'.cache.names))
  {
    var s' := StepCall(s, id, ok, rows).value;
    assert CallVersions(s, id, s.calls[id]);
    if s.calls[id].Listing? && ok {
      assert Names(Listed(s.rows)) == Names(Listed(s.tables[|s.tables| - 1]));
    }
    if s.cache.names != map[] && s'.cache == s.cache {
      VersionKept(s.tables, s'.tables, s.floor, s'.floor, s.cache.names);
    }
    if s'.calls[id].Got? && s'.cache.names != map[] {
      VersionKept(s'.tables, s'.tables, s'.floor, s'.started[id], s'.cache.names);
    }
  }

  lemma StepKeepsVersions(s: Sys, a: Action)
    requires Locking(s) && Versions(s) && Step(s, a).Some?
    ensures Versions(Step(s, a).value)
  {
    var s' := Step(s, a).value;
    if a.Advance? { ActorKeepsVersions(s, a.id, a.ok, a.rows); }
    forall id | id in s'.calls ensures CallVersions(s', id, s'.calls[id]) {
      if a.Tick? || id != a.id { CallKeepsVersions(s, s', id, s.calls[id]); }
    }
  }

  lemma {:induction false} Reachable(rows: seq<Device>, run: seq<Action>)
    requires Exec(rows, run).Some?
    ensures Inv(Exec(rows, run).value)
  {
    if run != [] {
      Reachable(rows, run[..|run| - 1]);
      StepKeepsLocking(Exec(rows, run[..|run| - 1]).value, run[|run| - 1]);
      StepKeepsTruthful(Exec(rows, run[..|run| - 1]).value, run[|run| - 1]);
      StepKeepsExposure(Exec(rows, run[..|run| - 1]).value, run[|run| - 1]);
      StepKeepsVersions(Exec(rows, run[..|run| - 1]).value, run[|run| - 1]);
    }
  }

  /** In every reachable state what is cached is what the database would list now, unless a mutator
      stands between its commit and its invalidation. */
  lemma CacheCoherence(rows: seq<Device>, run: seq<Action>)
    requires Exec(rows, run).Some?
    ensures var s := Exec(rows, run).value; Pending(s) || Coherent(s.cache, s.rows)
  {
    Reachable(rows, run);
  }

  /** A call of getNameMap that no unfinished mutation overlaps returns the names in the database at the
      moment it returns, however old the cache is and whether or not other readers refresh it meanwhile;
      the one exception is an empty map when its own List failed. */
  lemma UnexposedReaderIsCurrent(rows: seq<Device>, run: seq<Action>, id: nat, ok: bool, any: seq<Device>)
    requires Exec(rows, run).Some? && id in Exec(rows, run).value.calls && IsReading(Exec(rows, run).value.calls[id])
    requires id !in Exec(rows, run).value.exposed
    requires StepCall(Exec(rows, run).value, id, ok, any).Some?
    requires StepCall(Exec(rows, run).value, id, ok, any).value.calls[id].Got?
    ensures var s := Exec(rows, run).value; var names := StepCall(s, id, ok, any).value.calls[id].names;
      && StepCall(s, id, ok, any).value.rows == s.rows
      && (names == Names(Listed(s.rows)) || (names == map[] && s.calls[id] == Storing(None)))
  {
    Reachable(rows, run);
    var s := Exec(rows, run).value;
    assert id in Readers(s.calls);
  }

  /** No state of the run from the start of call `id` on has a mutator between commit and invalidation. */
  ghost predicate Undisturbed(rows: seq<Device>, before: seq<Action>, id: nat, since: seq<Action>) {
    forall k :: 0 <= k <= |since| ==>
      Exec(rows, before + [Read(id)] + since[..k]).Some? && !Pending(Exec(rows, before + [Read(id)] + since[..k]).value)
  }

  lemma {:induction false} UndisturbedIsUnexposed(rows: seq<Device>, before: seq<Action>, id: nat, since: seq<Action>)
    requires Exec(rows, before).Some? && Exec(rows, before + [Read(id)] + since).Some?
    requires Undisturbed(rows, before, id, since)
    ensures id !in Exec(rows, before + [Read(id)] + since).value.exposed
    decreases |since|
  {
    var run := before + [Read(id)] + since;
    assert since[..|since|] == since;
    if since == [] {
      assert run[..|run| - 1] == before;
      Reachable(rows, before);
      var s, s' := Exec(rows, before).value, Exec(rows, run).value;
      PendingUpdate(s, s', id, Checking);
    } else {
      var init := since[..|since| - 1];
      assert run[..|run| - 1] == before + [Read(id)] + init;
      assert forall k :: 0 <= k <= |init| ==> init[..k] == since[..k];
      UndisturbedIsUnexposed(rows, before, id, init);
      var s, a := Exec(rows, before + [Read(id)] + init).value, run[|run| - 1];
      if a.Advance? && a.id in s.calls && s.calls[a.id].Mutating? && a.ok {
        PendingUpdate(s, Step(s, a).value, a.id, Committed(|s.tables|));
      }
    }
  }

  /** So a call that starts after a mutation has returned, with no other mutation under way until it
      returns itself, never yields an older name map. */
  lemma ReaderSeesReturnedMutations(rows: seq<Device>, before: seq<Action>, id: nat, since: seq<Action>, ok: bool,
                                    any: seq<Device>)
    requires Exec(rows, before).Some? && Exec(rows, before + [Read(id)] + since).Some?
    requires Undisturbed(rows, before, id, since)
    requires var s := Exec(rows, before + [Read(id)] + since).value;
      && id in s.calls && IsReading(s.calls[id])
      && StepCall(s, id, ok, any).Some? && StepCall(s, id, ok, any).value.calls[id].Got?
    ensures var s := Exec(rows, before + [Read(id)] + since).value;
      var names := StepCall(s, id, ok, any).value.calls[id].names;
      names == Names(Listed(s.rows)) || (names == map[] && s.calls[id] == Storing(None))
  {
    assert since[..|since|] == since;
    UndisturbedIsUnexposed(rows, before, id, since);
    UnexposedReaderIsCurrent(rows, before + [Read(id)] + since, id, ok, any);
  }

  // ---- Readers that other mutations overlap ----

  /** What a run fixes once and for all: tables that were committed, and the floor at which a reader started. */
  ghost predicate Extends(s: Sys, s': Sys) {
    && s.tables <= s'.tables
    && forall id :: id in s.calls && id in s.started ==>
      id in s'.calls && id in s'.started && s'.started[id] == s.started[id]
  }

  lemma FixedStep(s: Sys, a: Action)
    requires Step(s, a).Some?
    ensures Extends(s, Step(s, a).value)
  {
  }

  lemma {:induction false} Fixed(rows: seq<Device>, run: seq<Action>, more: seq<Action>)
    requires Exec(rows, run + more).Some?
    ensures Exec(rows, run).Some?
    ensures Extends(Exec(rows, run).value, Exec(rows, run + more).value)
    decreases |more|
  {
    if more == [] {
      assert run + more == run;
    } else {
      assert (run + more)[..|run + more| - 1] == run + more[..|more| - 1];
      Fixed(rows, run, more[..|more| - 1]);
      FixedStep(Exec(rows, run + more[..|more| - 1]).value, more[|more| - 1]);
    }
  }

  /** However many other mutations are under way during a call of getNameMap, a non-empty answer is the names of
      the table as one commit left it, and that commit is no older than that of any mutation that had returned
      before the call started. */
  lemma AnswerNoOlderThanReturned(rows: seq<Device>, before: seq<Action>, id: nat, since: seq<Action>, m: nat)
    requires Exec(rows, before).Some? && Exec(rows, before + [Read(id)] + since).Some?
    requires m in Exec(rows, before).value.calls && Exec(rows, before).value.calls[m].Finished?
    requires Exec(rows, before).value.calls[m].commit.Some?
    requires id in Exec(rows, before + [Read(id)] + since).value.calls
    requires Exec(rows, before + [Read(id)] + since).value.calls[id].Got?
    ensures var w, s := Exec(rows, before).value.calls[m].commit.value, Exec(rows, before + [Read(id)] + since).value;
      && w < |Exec(rows, before).value.tables| && Exec(rows, before).value.tables <= s.tables
      && (s.calls[id].names != map[] ==> IsVersion(s.tables, w, s.calls[id].names))
  {
    var start := before + [Read(id)];
    assert start[..|before|] == before;
    Fixed(rows, start, since);
    Reachable(rows, before);
    Reachable(rows, start + since);
    var s0, s := Exec(rows, before).value, Exec(rows, start + since).value;
    assert CallVersions(s0, m, s0.calls[m]) && CallVersions(s, id, s.calls[id]);
    if s.calls[id].names != map[] {
      VersionKept(s.tables, s.tables, s.started[id], s0.calls[m].commit.value, s.calls[id].names);
    }
  }

  // ---- When an answer is empty, and calls that run on their own ----

  /** List of call `id` failed in the run. */
  ghost predicate ListFailed(rows: seq<Device>, run: seq<Action>, id: nat) {
    exists k :: 0 <= k < |run| && ListFailedAt(rows, run, id, k)
  }

  ghost predicate ListFailedAt(rows: seq<Device>, run: seq<Action>, id: nat, k: nat)
    requires k < |run|
  {
    && Exec(rows, run[..k]).Some? && id in Exec(rows, run[..k]).value.calls
    && Exec(rows, run[..k]).value.calls[id] == Listing && run[k].Advance? && run[k].id == id && !run[k].ok
  }

  /** A reader is left without an answer of List exactly when its List failed: one that succeeds is what the table
      lists. */
  lemma ListAnswers(s: Sys, id: nat, ok: bool, any: seq<Device>)
    requires id in s.calls && s.calls[id] == Listing
    ensures StepCall(s, id, ok, any).Some?
    ensures StepCall(s, id, ok, any).value.calls[id] == Storing(if ok then Some(Names(Listed(s.rows))) else None)
  {
  }

  lemma {:induction false} NoAnswerMeansListFailed(rows: seq<Device>, run: seq<Action>, id: nat)
    requires Exec(rows, run).Some? && id in Exec(rows, run).value.calls
    requires Exec(rows, run).value.calls[id] == Storing(None)
    ensures ListFailed(rows, run, id)
  {
    var n := |run| - 1;
    var s, a := Exec(rows, run[..n]).value, run[n];
    if a.Advance? && a.id == id {
      assert ListFailedAt(rows, run, id, n);
    } else {
      NoAnswerMeansListFailed(rows, run[..n], id);
      var k :| 0 <= k < n && ListFailedAt(rows, run[..n], id, k);
      assert run[..n][..k] == run[..k];
      assert ListFailedAt(rows, run, id, k);
    }
  }

  /** So a reader whose List did not fail, and that no unfinished mutation overlaps, always gets the current names. */
  lemma WorkingReaderIsCurrent(rows: seq<Device>, run: seq<Action>, id: nat, ok: bool, any: seq<Device>)
    requires Exec(rows, run).Some? && id in Exec(rows, run).value.calls && IsReading(Exec(rows, run).value.calls[id])
    requires id !in Exec(rows, run).value.exposed && !ListFailed(rows, run, id)
    requires StepCall(Exec(rows, run).value, id, ok, any).Some?
    requires StepCall(Exec(rows, run).value, id, ok, any).value.calls[id].Got?
    ensures var s := Exec(rows, run).value; StepCall(s, id, ok, any).value.calls[id].names == Names(Listed(s.rows))
  {
    UnexposedReaderIsCurrent(rows, run, id, ok, any);
    if Exec(rows, run).value.calls[id] == Storing(None) { NoAnswerMeansListFailed(rows, run, id); }
  }

  lemma Go(rows: seq<Device>, run: seq<Action>, s: Sys, a: Action) returns (run': seq<Action>, s': Sys)
    requires Exec(rows, run) == Some(s) && Step(s, a).Some?
    ensures Exec(rows, run') == Some(s') == Step(s, a)
  {
    run', s' := run + [a], Step(s, a).value;
    assert run'[..|run|] == run;
  }

  /** An uninterrupted reader answers, and leaves the cache, as the sequential getNameMap does. */
  lemma ReadUninterrupted(rows: seq<Device>, run0: seq<Action>, s0: Sys, id: nat, ok: bool)
    returns (run: seq<Action>, s: Sys)
    requires Exec(rows, run0) == Some(s0) && id !in s0.calls && s0.holder == None
    ensures Exec(rows, run) == Some(s) && s.holder == None && s.rows == s0.rows && id in s.calls
    ensures var listing := if ok then Some(Listed(s0.rows)) else None;
      s.cache == (if IsFresh(s0.cache, s0.clock) then s0.cache else Refresh(s0.cache, listing, s0.clock))
    ensures s.calls[id] == Got(s.cache.names)
  {
    run, s := Go(rows, run0, s0, Read(id));
    run, s := Go(rows, run, s, Advance(id, ok, []));
    if !IsFresh(s0.cache, s0.clock) {
      run, s := Go(rows, run, s, Advance(id, ok, []));
      run, s := Go(rows, run, s, Advance(id, ok, []));
      run, s := Go(rows, run, s, Advance(id, ok, []));
    }
  }

  /** An uninterrupted mutator that commits leaves the new rows and an empty cache. */
  lemma MutateUninterrupted(rows: seq<Device>, run0: seq<Action>, s0: Sys, id: nat, newRows: seq<Device>)
    returns (run: seq<Action>, s: Sys)
    requires Exec(rows, run0) == Some(s0) && id !in s0.calls && s0.holder == None
    ensures Exec(rows, run) == Some(s) && s.rows == newRows && s.cache == EMPTY_CACHE && id in s.calls
    ensures s.calls[id] == Finished(Some(|s0.tables|)) && s.tables == s0.tables + [newRows]
  {
    run, s := Go(rows, run0, s0, Mutate(id));
    run, s := Go(rows, run, s, Advance(id, true, newRows));
    run, s := Go(rows, run, s, Advance(id, true, newRows));
  }
}
