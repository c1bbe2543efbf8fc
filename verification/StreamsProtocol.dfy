/**
 Publishers, subscriptions and cancellations of single-device streams interleaved. A publisher holds the
 read lock from its lookup to its send; a cancellation deletes the map entry under the write lock and
 closes its channel after letting the lock go.
 */
module StreamsProtocol {
  import opened Common
  import opened Streams

  /** Where a subscription's cleanup goroutine stands. */
  datatype Phase = Live | Removed | Gone

  /** `sent` is everything that went into the channel, `taken` how much of it the client received. */
  datatype Chan = Chan(serial: string, phase: Phase, open: bool, sent: seq<Reading>, taken: nat)

  datatype Publisher = Waiting(t: Reading) | Locked(t: Reading, target: Option<nat>) | Idle

  /** `panicked` records a send on, or a close of, a closed channel. */
  datatype Sys = Sys(subscribers: map<string, nat>, chans: map<nat, Chan>, pubs: map<nat, Publisher>, panicked: bool)

  const INIT := Sys(map[], map[], map[], false)

  datatype Action =
    | Subscribe(c: nat, serial: string) | Unsubscribe(c: nat) | Close(c: nat) | Receive(c: nat)
    | Publish(p: nat, t: Reading) | Lookup(p: nat) | Send(p: nat)

  ghost predicate Unlocked(s: Sys) { forall p :: p in s.pubs ==> !s.pubs[p].Locked? }

  ghost function Step(s: Sys, a: Action): Option<Sys> {
    match a
    case Subscribe(c, serial) =>
      if c in s.chans || !Unlocked(s) then None
      else Some(s.(subscribers := s.subscribers[serial := c], chans := s.chans[c := Chan(serial, Live, true, [], 0)]))
    case Unsubscribe(c) =>
      if c !in s.chans || s.chans[c].phase != Live || !Unlocked(s) then None
      else Some(s.(subscribers := s.subscribers - {s.chans[c].serial},
                   chans := s.chans[c := s.chans[c].(phase := Removed)]))
    case Close(c) =>
      if c !in s.chans || s.chans[c].phase != Removed then None
      else Some(s.(chans := s.chans[c := s.chans[c].(phase := Gone, open := false)],
                   panicked := s.panicked || !s.chans[c].open))
    case Receive(c) =>
      if c !in s.chans || s.chans[c].taken >= |s.chans[c].sent| then None
      else Some(s.(chans := s.chans[c := s.chans[c].(taken := s.chans[c].taken + 1)]))
    case Publish(p, t) =>
      if p in s.pubs && !s.pubs[p].Idle? then None else Some(s.(pubs := s.pubs[p := Waiting(t)]))
    case Lookup(p) =>
      if p !in s.pubs || !s.pubs[p].Waiting? then None else
      var t := s.pubs[p].t;
      var target := if t.serial in s.subscribers then Some(s.subscribers[t.serial]) else None;
      Some(s.(pubs := s.pubs[p := Locked(t, target)]))
    case Send(p) =>
      if p !in s.pubs || !s.pubs[p].Locked? then None else
      var s' := s.(pubs := s.pubs[p := Idle]);
      if s.pubs[p].target.None? || s.pubs[p].target.value !in s.chans then Some(s') else
      var c := s.pubs[p].target.value;
      var ch := s.chans[c];
      if !ch.open then Some(s'.(panicked := true))
      else if |ch.sent| - ch.taken < CAPACITY
        then Some(s'.(chans := s.chans[c := ch.(sent := ch.sent + [s.pubs[p].t])]))
      else Some(s')
  }

  ghost function Exec(run: seq<Action>): Option<Sys> {
    if run == [] then Some(INIT) else
    var before := Exec(run[..|run| - 1]);
    if before.None? then None else Step(before.value, run[|run| - 1])
  }

  /** A channel is open until its own cleanup closed it, and holds only its device's readings. */
  ghost predicate Sound(ch: Chan) {
    && (ch.open <==> ch.phase != Gone)
    && ch.taken <= |ch.sent| <= ch.taken + CAPACITY
    && forall k :: 0 <= k < |ch.sent| ==> ch.sent[k].serial == ch.serial
  }

  ghost predicate Registered(s: Sys, serial: string, c: nat) {
    c in s.chans && s.chans[c].phase == Live && s.chans[c].serial == serial
  }

  ghost predicate Inv(s: Sys) {
    && !s.panicked
    && (forall c :: c in s.chans ==> Sound(s.chans[c]))
    && (forall serial :: serial in s.subscribers ==> Registered(s, serial, s.subscribers[serial]))
    && (forall p :: p in s.pubs && s.pubs[p].Locked? && s.pubs[p].target.Some? ==>
          Registered(s, s.pubs[p].t.serial, s.pubs[p].target.value))
  }

  /** The target that a publisher looked up is still registered when it sends: it holds the read lock. */
  lemma SendKeepsInv(s: Sys, p: nat)
    requires Inv(s) && Step(s, Send(p)).Some?
    ensures Inv(Step(s, Send(p)).value)
  {
  }

  lemma StepKeepsInv(s: Sys, a: Action)
    requires Inv(s) && Step(s, a).Some?
    ensures Inv(Step(s, a).value)
  {
    if a.Send? { SendKeepsInv(s, a.p); }
  }

  lemma {:induction false} Reachable(run: seq<Action>)
    requires Exec(run).Some?
    ensures Inv(Exec(run).value)
  {
    if run != [] {
      Reachable(run[..|run| - 1]);
      StepKeepsInv(Exec(run[..|run| - 1]).value, run[|run| - 1]);
    }
  }

  /** In every interleaving nothing is sent on a closed channel and none is closed twice; every registered
      channel is open; and a client only ever gets readings of the device it asked for. */
  lemma NoSendOnClosedChannel(run: seq<Action>)
    requires Exec(run).Some?
    ensures var s := Exec(run).value;
      && !s.panicked
      && (forall serial :: serial in s.subscribers ==>
            s.subscribers[serial] in s.chans && s.chans[s.subscribers[serial]].open)
      && (forall c, k :: c in s.chans && 0 <= k < |s.chans[c].sent| ==> s.chans[c].sent[k].serial == s.chans[c].serial)
  {
    Reachable(run);
  }

  /** The action replaces or removes the entry of a device, whoever's channel it holds. */
  ghost predicate Touches(s: Sys, a: Action, serial: string) {
    (a.Subscribe? && a.serial == serial) || (a.Unsubscribe? && a.c in s.chans && s.chans[a.c].serial == serial)
  }

  ghost predicate Touched(run: seq<Action>, more: seq<Action>, serial: string) {
    exists k :: 0 <= k < |more| && Exec(run + more[..k]).Some? && Touches(Exec(run + more[..k]).value, more[k], serial)
  }

  ghost predicate HasEntry(s: Sys, serial: string, c: nat) { serial in s.subscribers && s.subscribers[serial] == c }

  lemma EntryStep(s: Sys, a: Action, serial: string, c: nat)
    requires Step(s, a).Some? && c in s.chans
    ensures c in Step(s, a).value.chans
    ensures HasEntry(Step(s, a).value, serial, c) <==> HasEntry(s, serial, c) && !Touches(s, a, serial)
  {
  }

  lemma TouchedStep(run: seq<Action>, init: seq<Action>, a: Action, serial: string)
    requires Exec(run + init).Some?
    ensures Touched(run, init + [a], serial) <==>
        Touched(run, init, serial) || Touches(Exec(run + init).value, a, serial)
  {
    var more := init + [a];
    assert more[..|init|] == init;
    assert forall k :: 0 <= k < |init| ==> init[k] == more[k] && init[..k] == more[..k];
    if Touched(run, init, serial) {
      var k :| 0 <= k < |init| && Exec(run + init[..k]).Some? && Touches(Exec(run + init[..k]).value, init[k], serial);
      assert Touches(Exec(run + more[..k]).value, more[k], serial);
    }
    if Touches(Exec(run + init).value, a, serial) {
      assert Touches(Exec(run + more[..|init|]).value, more[|init|], serial);
    }
  }

  /** A subscription stays registered exactly as long as nobody subscribes to its device again and no
      subscription to that device, its own or an overwritten earlier one, is cancelled. */
  lemma {:induction false} RegisteredUntilTouched(run: seq<Action>, c: nat, serial: string, more: seq<Action>)
    requires Exec(run + more).Some? && Exec(run).Some?
    requires c in Exec(run).value.chans && HasEntry(Exec(run).value, serial, c)
    ensures c in Exec(run + more).value.chans
    ensures HasEntry(Exec(run + more).value, serial, c) <==> !Touched(run, more, serial)
    decreases |more|
  {
    if more == [] {
      assert run + more == run;
    } else {
      var init, a := more[..|more| - 1], more[|more| - 1];
      assert (run + more)[..|run + more| - 1] == run + init;
      assert more == init + [a];
      RegisteredUntilTouched(run, c, serial, init);
      EntryStep(Exec(run + init).value, a, serial, c);
      TouchedStep(run, init, a, serial);
    }
  }

  // ---- Delivery ----

  /** When no publisher is between look-up and send, a client can subscribe, and then its fresh open channel is the one
      registered for the device. */
  lemma SubscribingRegisters(s: Sys, c: nat, serial: string)
    requires c !in s.chans && Unlocked(s)
    ensures Step(s, Subscribe(c, serial)).Some?
    ensures var s' := Step(s, Subscribe(c, serial)).value;
      HasEntry(s', serial, c) && c in s'.chans && s'.chans[c] == Chan(serial, Live, true, [], 0)
  {
  }

  /** An idle publisher can take up any reading. */
  lemma PublisherTakesUp(s: Sys, p: nat, t: Reading)
    requires p in s.pubs ==> s.pubs[p].Idle?
    ensures Step(s, Publish(p, t)) == Some(s.(pubs := s.pubs[p := Waiting(t)]))
  {
  }

  /** A publisher finds the channel that is registered for its reading's device, and none exactly when none is. */
  lemma LookupFindsSubscriber(s: Sys, p: nat)
    requires p in s.pubs && s.pubs[p].Waiting?
    ensures Step(s, Lookup(p)).Some?
    ensures var t := s.pubs[p].t; var s' := Step(s, Lookup(p)).value;
      && p in s'.pubs && s'.pubs[p].Locked? && s'.pubs[p].t == t
      && (t.serial in s.subscribers ==> s'.pubs[p].target == Some(s.subscribers[t.serial]))
      && (t.serial !in s.subscribers ==> s'.pubs[p].target == None)
  {
  }

  lemma LockedStep(s: Sys, a: Action, p: nat)
    requires Step(s, a).Some? && a != Send(p) && p in s.pubs && s.pubs[p].Locked?
    ensures p in Step(s, a).value.pubs && Step(s, a).value.pubs[p] == s.pubs[p]
  {
  }

  lemma ExecStep(run: seq<Action>, more: seq<Action>)
    requires more != [] && Exec(run + more).Some?
    ensures var init, a := more[..|more| - 1], more[|more| - 1];
      Exec(run + init).Some? && Exec(run + more) == Step(Exec(run + init).value, a)
  {
    hide Step;
    assert (run + more)[..|run + more| - 1] == run + more[..|more| - 1];
  }

  ghost predicate IsLocked(s: Sys, p: nat) { p in s.pubs && s.pubs[p].Locked? }

  /** What it found it keeps until it sends, whatever others do meanwhile. */
  lemma {:induction false} LockedUntilSent(run: seq<Action>, p: nat, more: seq<Action>)
    requires Exec(run + more).Some? && forall k :: 0 <= k < |more| ==> more[k] != Send(p)
    ensures Exec(run).Some?
    ensures IsLocked(Exec(run).value, p) ==>
      IsLocked(Exec(run + more).value, p) && Exec(run + more).value.pubs[p] == Exec(run).value.pubs[p]
    decreases |more|
  {
    hide Exec, Step;
    if more == [] {
      assert run + more == run;
    } else {
      var init := more[..|more| - 1];
      ExecStep(run, more);
      LockedUntilSent(run, p, init);
      if IsLocked(Exec(run).value, p) { LockedStep(Exec(run + init).value, more[|more| - 1], p); }
    }
  }

  /** Then it delivers: the reading goes to the end of that channel if there is room, and is dropped if there is not;
      no other channel changes. */
  lemma FoundIsDelivered(run: seq<Action>, p: nat)
    requires Exec(run).Some? && p in Exec(run).value.pubs && Exec(run).value.pubs[p].Locked?
    requires Exec(run).value.pubs[p].target.Some?
    ensures var s := Exec(run).value; var c := s.pubs[p].target.value;
      && c in s.chans && Step(s, Send(p)).Some?
      && var s', room := Step(s, Send(p)).value, |s.chans[c].sent| - s.chans[c].taken < 100;
      s'.chans == s.chans[c := s.chans[c].(sent := s.chans[c].sent + if room then [s.pubs[p].t] else [])]
  {
    Reachable(run);
    var s := Exec(run).value;
    var ch := s.chans[s.pubs[p].target.value];
    assert ch.sent + [] == ch.sent;
  }

  /** A client receives what is in its channel, oldest first. */
  lemma ClientReceives(s: Sys, c: nat)
    requires c in s.chans
    ensures Step(s, Receive(c)).Some? <==> s.chans[c].taken < |s.chans[c].sent|
    ensures Step(s, Receive(c)).Some? ==>
      Step(s, Receive(c)).value == s.(chans := s.chans[c := s.chans[c].(taken := s.chans[c].taken + 1)])
  {
  }
}
