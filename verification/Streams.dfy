/**
 The publish/subscribe hub of the telemetry service, run sequentially: buffered channels as objects,
 non-blocking dispatch, subscription and cancellation
 (internal/service/telemetry/telemetry_service_impl.go).
 */
module Streams {
  datatype Reading = Reading(serial: string, payload: int)

  const CAPACITY := 100

  /** A buffer after a non-blocking send: a full one drops the reading. */
  function Offered(buffer: seq<Reading>, t: Reading): seq<Reading> {
    if |buffer| < CAPACITY then buffer + [t] else buffer
  }

  /** A buffer after the readings were offered in turn. */
  function OfferedAll(buffer: seq<Reading>, ts: seq<Reading>): seq<Reading> {
    if ts == [] then buffer else Offered(OfferedAll(buffer, ts[..|ts| - 1]), ts[|ts| - 1])
  }

  function OfDevice(ts: seq<Reading>, serial: string): seq<Reading> {
    if ts == [] then [] else
    var t := ts[|ts| - 1];
    if t.serial == serial then OfDevice(ts[..|ts| - 1], serial) + [t] else OfDevice(ts[..|ts| - 1], serial)
  }

  /** Offering drops from the end only: what is in the buffer is the old contents and then the first of the
      readings offered, as many as there was room for. */
  lemma {:induction false} OfferedKeepsFirst(buffer: seq<Reading>, ts: seq<Reading>)
    requires |buffer| <= CAPACITY
    ensures var room := CAPACITY - |buffer|;
      OfferedAll(buffer, ts) == buffer + ts[..if |ts| <= room then |ts| else room]
  {
    if ts != [] {
      OfferedKeepsFirst(buffer, ts[..|ts| - 1]);
      var room := CAPACITY - |buffer|;
      if |ts| <= room {
        assert ts == ts[..|ts| - 1] + [ts[|ts| - 1]];
      } else {
        assert ts[..|ts| - 1][..room] == ts[..room];
      }
    }
  }

  lemma OfDeviceStep(data: seq<Reading>, i: nat, serial: string)
    requires i < |data|
    ensures OfDevice(data[..i + 1], serial) ==
            if data[i].serial == serial then OfDevice(data[..i], serial) + [data[i]] else OfDevice(data[..i], serial)
  {
    assert data[..i + 1][..i] == data[..i];
  }

  lemma OfferedStep(buffer: seq<Reading>, ts: seq<Reading>, t: Reading)
    ensures OfferedAll(buffer, ts + [t]) == Offered(OfferedAll(buffer, ts), t)
  {
    assert (ts + [t])[..|ts|] == ts;
  }

  class Channel {
    var buffer: seq<Reading>
    var open: bool

    constructor ()
      ensures buffer == [] && open
    {
      buffer, open := [], true;
    }

    /** A select with a default branch. Sending on a closed channel would panic. */
    method TrySend(t: Reading)
      requires open
      modifies this`buffer
      ensures buffer == Offered(old(buffer), t)
    {
      if |buffer| < CAPACITY {
        buffer := buffer + [t];
      }
    }

    /** Closing a closed channel would panic. */
    method Close()
      requires open
      modifies this`open
      ensures !open
    {
      open := false;
    }
  }

  class Hub {
    var subscribers: map<string, Channel>
    const allDevices: Channel

    /** Registered channels are open, and no channel is registered twice. */
    ghost predicate Valid()
      reads this, allDevices, subscribers.Values
    {
      && allDevices.open && allDevices !in subscribers.Values
      && (forall s :: s in subscribers ==> subscribers[s].open)
      && (forall s, t :: s in subscribers && t in subscribers && subscribers[s] == subscribers[t] ==> s == t)
    }

    constructor ()
      ensures Valid() && subscribers == map[] && fresh(allDevices) && allDevices.buffer == []
    {
      subscribers := map[];
      allDevices := new Channel();
    }

    /** The dispatch of one reading, in startPublisher and in WriteTelemetry. */
    method Dispatch(t: Reading)
      requires Valid()
      modifies allDevices`buffer, (set s | s in subscribers :: subscribers[s])`buffer
      ensures Valid()
      ensures allDevices.buffer == Offered(old(allDevices.buffer), t)
      ensures forall s :: s in subscribers ==>
        subscribers[s].buffer ==
        if s == t.serial then Offered(old(subscribers[s].buffer), t) else old(subscribers[s].buffer)
    {
      allDevices.TrySend(t);
      if t.serial in subscribers {
        subscribers[t.serial].TrySend(t);
      }
    }

    /** One tick of the publisher: each registered channel is offered its own device's readings, in order. */
    method PublishAll(data: seq<Reading>)
      requires Valid()
      modifies allDevices`buffer, (set s | s in subscribers :: subscribers[s])`buffer
      ensures Valid()
      ensures allDevices.buffer == OfferedAll(old(allDevices.buffer), data)
      ensures forall s :: s in subscribers ==>
          subscribers[s].buffer == OfferedAll(old(subscribers[s].buffer), OfDevice(data, s))
    {
      for i := 0 to |data|
        invariant Valid()
        invariant allDevices.buffer == OfferedAll(old(allDevices.buffer), data[..i])
        invariant forall s :: s in subscribers ==>
          subscribers[s].buffer == OfferedAll(old(subscribers[s].buffer), OfDevice(data[..i], s))
      {
        assert data[..i + 1] == data[..i] + [data[i]];
        OfferedStep(old(allDevices.buffer), data[..i], data[i]);
        Dispatch(data[i]);
        forall s | s in subscribers
          ensures subscribers[s].buffer == OfferedAll(old(subscribers[s].buffer), OfDevice(data[..i + 1], s))
        {
          OfDeviceStep(data, i, s);
          OfferedStep(old(subscribers[s].buffer), OfDevice(data[..i], s), data[i]);
        }
      }
      assert data[..|data|] == data;
    }

    /** A second subscription to one device takes the place of the first. */
    method StreamDevice(serial: string) returns (c: Channel)
      requires Valid()
      modifies this
      ensures Valid() && fresh(c) && c.buffer == []
      ensures subscribers == old(subscribers)[serial := c]
    {
      c := new Channel();
      subscribers := subscribers[serial := c];
    }

    /** The goroutine that runs when a subscription's context ends: it removes whatever is registered
        for the device, which need not be its own channel. */
    method EndStream(serial: string, c: Channel)
      requires Valid() && c.open && c != allDevices
      requires forall s :: s in subscribers && subscribers[s] == c ==> s == serial
      modifies this, c`open
      ensures Valid() && !c.open
      ensures subscribers == old(subscribers) - {serial}
    {
      subscribers := subscribers - {serial};
      c.Close();
    }
  }
}
