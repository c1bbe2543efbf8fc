/**
 Registered devices, the name cache of the telemetry service and the device service that invalidates it
 (internal/service/device/device_service_impl.go and getNameMap, InvalidateDeviceCache in
 internal/service/telemetry/telemetry_service_impl.go), run sequentially.

 The database is a table with the order in which List returns its rows, newest first; whether an
 access fails is a parameter of the call that makes it.
 */
module Devices {
  import opened Common

  datatype Device = Device(guid: string, kind: string, serial: string, alias: string, notes: string, active: bool)

  const LIST_LIMIT := 1000
  const FIVE_MINUTES := 300_000_000_000

  /** What List returns to the telemetry service. */
  function Listed(rows: seq<Device>): seq<Device> {
    if |rows| <= LIST_LIMIT then rows else rows[..LIST_LIMIT]
  }

  lemma ListedIsFirstThousand(rows: seq<Device>)
    ensures Listed(rows) <= rows && |Listed(rows)| == if |rows| < 1000 then |rows| else 1000
  {
  }

  /** Serial number to alias; of two rows with one serial number the later one counts. */
  function Names(rows: seq<Device>): map<string, string> {
    if rows == [] then map[] else Names(rows[..|rows| - 1])[rows[|rows| - 1].serial := rows[|rows| - 1].alias]
  }

  /** `updated` is None for the zero time, from which any amount of time has passed. */
  datatype Cache = Cache(names: map<string, string>, updated: Option<int>)

  const EMPTY_CACHE := Cache(map[], None)

  predicate IsFresh(c: Cache, now: int) {
    |c.names| > 0 && c.updated.Some? && now - c.updated.value < FIVE_MINUTES
  }

  function Refresh(c: Cache, listing: Option<seq<Device>>, now: int): Cache {
    if listing.Some? then Cache(Names(listing.value), Some(now)) else c
  }

  /** Whatever is cached is what the table would list now. */
  ghost predicate Coherent(c: Cache, rows: seq<Device>) {
    c.names != map[] ==> c.names == Names(Listed(rows))
  }

  class NameCache {
    var nameCache: map<string, string>
    var lastCacheUpdate: Option<int>

    function View(): Cache
      reads this
    {
      Cache(nameCache, lastCacheUpdate)
    }

    constructor ()
      ensures View() == EMPTY_CACHE
    {
      nameCache, lastCacheUpdate := map[], None;
    }

    /** `listing` is what List answers if asked, None for an error. */
    method GetNameMap(now: int, listing: Option<seq<Device>>) returns (names: map<string, string>)
      modifies this
      ensures View() == if IsFresh(old(View()), now) then old(View()) else Refresh(old(View()), listing, now)
      ensures names == View().names
      ensures var young := |old(nameCache)| > 0 && old(lastCacheUpdate).Some?
                           && now - old(lastCacheUpdate).value < 300_000_000_000;
        && (young || listing.None? ==> names == old(nameCache) && lastCacheUpdate == old(lastCacheUpdate))
        && (!young && listing.Some? ==> names == Names(listing.value) && lastCacheUpdate == Some(now))
      ensures forall rows :: Coherent(old(View()), rows) && listing == Some(Listed(rows)) ==>
        names == Names(Listed(rows)) && Coherent(View(), rows)
    {
      if |nameCache| > 0 && lastCacheUpdate.Some? && now - lastCacheUpdate.value < FIVE_MINUTES {
        return nameCache;
      }
      if listing.Some? {
        var devices := listing.value;
        var newMap := map[];
        for i := 0 to |devices|
          invariant newMap == Names(devices[..i])
        {
          assert devices[..i + 1][..i] == devices[..i];
          newMap := newMap[devices[i].serial := devices[i].alias];
        }
        assert devices[..|devices|] == devices;
        nameCache := newMap;
        lastCacheUpdate := Some(now);
      }
      return nameCache;
    }

    method InvalidateDeviceCache()
      modifies this
      ensures View() == EMPTY_CACHE
    {
      nameCache, lastCacheUpdate := map[], None;
    }
  }

  ghost predicate DistinctSerials(rows: seq<Device>) {
    forall i, j :: 0 <= i < j < |rows| ==> rows[i].serial != rows[j].serial && rows[i].guid != rows[j].guid
  }

  /** Over rows with distinct serial numbers the name map has each device's alias under its serial number,
      and nothing else. */
  lemma {:induction false} NamesAreAliases(rows: seq<Device>)
    requires DistinctSerials(rows)
    ensures forall i :: 0 <= i < |rows| ==>
        rows[i].serial in Names(rows) && Names(rows)[rows[i].serial] == rows[i].alias
    ensures forall serial :: serial in Names(rows) ==> HasSerial(rows, serial)
  {
    if rows != [] {
      var n := |rows| - 1;
      NamesAreAliases(rows[..n]);
      forall serial | serial in Names(rows) ensures HasSerial(rows, serial) {
        if serial == rows[n].serial {
          assert rows[n] in rows;
        } else {
          assert HasSerial(rows[..n], serial);
          var d :| d in rows[..n] && d.serial == serial;
          assert d in rows;
        }
      }
    }
  }

  predicate HasSerial(rows: seq<Device>, serial: string) { exists d :: d in rows && d.serial == serial }

  function Find(rows: seq<Device>, guid: string): Option<Device>
    ensures Find(rows, guid).Some? ==> Find(rows, guid).value in rows && Find(rows, guid).value.guid == guid
    ensures Find(rows, guid).None? ==> forall d :: d in rows ==> d.guid != guid
  {
    if rows == [] then None else if rows[0].guid == guid then Some(rows[0]) else Find(rows[1..], guid)
  }

  function Overwrite(rows: seq<Device>, device: Device): seq<Device> {
    seq(|rows|, i requires 0 <= i < |rows| => if rows[i].guid == device.guid then device else rows[i])
  }

  function Without(rows: seq<Device>, guid: string): (kept: seq<Device>)
    ensures forall d :: d in kept <==> d in rows && d.guid != guid
  {
    if rows == [] then []
    else if rows[0].guid == guid then Without(rows[1..], guid)
    else [rows[0]] + Without(rows[1..], guid)
  }

  lemma WithoutKeepsDistinct(rows: seq<Device>, guid: string)
    requires DistinctSerials(rows)
    ensures DistinctSerials(Without(rows, guid))
  {
    if rows != [] {
      WithoutKeepsDistinct(rows[1..], guid);
      var kept := Without(rows[1..], guid);
      forall k | 0 <= k < |kept| ensures kept[k].serial != rows[0].serial && kept[k].guid != rows[0].guid {
        assert kept[k] in rows[1..];
        var i :| 0 <= i < |rows[1..]| && rows[1..][i] == kept[k];
        assert rows[i + 1] == kept[k];
      }
    }
  }

  lemma OverwriteKeepsDistinct(rows: seq<Device>, device: Device)
    requires DistinctSerials(rows)
    requires forall d :: d in rows && d.guid != device.guid ==> d.serial != device.serial
    ensures DistinctSerials(Overwrite(rows, device))
  {
    forall i, j | 0 <= i < j < |rows|
      ensures Overwrite(rows, device)[i].serial != Overwrite(rows, device)[j].serial
      ensures Overwrite(rows, device)[i].guid != Overwrite(rows, device)[j].guid
    {
      assert rows[i] in rows && rows[j] in rows;
    }
  }

  /** An update request: absent members leave the device as it is. */
  datatype Changes = Changes(serial: Option<string>, kind: Option<string>, alias: Option<string>,
                             notes: Option<string>, active: Option<bool>)

  function Changed(d: Device, c: Changes): Device {
    Device(d.guid, Or(c.kind, d.kind), Or(c.serial, d.serial), Or(c.alias, d.alias), Or(c.notes, d.notes),
           Or(c.active, d.active))
  }

  /** Each member takes the requested value, and without one keeps its own; the guid never changes. */
  ghost predicate IsUpdate(d: Device, c: Changes, d': Device) {
    && d'.guid == d.guid
    && (c.kind.Some? ==> d'.kind == c.kind.value) && (c.kind.None? ==> d'.kind == d.kind)
    && (c.serial.Some? ==> d'.serial == c.serial.value) && (c.serial.None? ==> d'.serial == d.serial)
    && (c.alias.Some? ==> d'.alias == c.alias.value) && (c.alias.None? ==> d'.alias == d.alias)
    && (c.notes.Some? ==> d'.notes == c.notes.value) && (c.notes.None? ==> d'.notes == d.notes)
    && (c.active.Some? ==> d'.active == c.active.value) && (c.active.None? ==> d'.active == d.active)
  }

  /** Overwriting with the changed device updates its row, found by guid, and no other. */
  lemma OverwriteUpdates(rows: seq<Device>, guid: string, c: Changes)
    requires DistinctSerials(rows) && Find(rows, guid).Some?
    ensures var rows' := Overwrite(rows, Changed(Find(rows, guid).value, c));
      && |rows'| == |rows|
      && forall i :: 0 <= i < |rows| ==>
           if rows[i].guid == guid then IsUpdate(rows[i], c, rows'[i]) else rows'[i] == rows[i]
  {
    var d := Find(rows, guid).value;
    var k :| 0 <= k < |rows| && rows[k] == d;
    forall i | 0 <= i < |rows| && rows[i].guid == guid ensures i == k {
    }
  }

  datatype Outcome = Done | SerialExists | NotFound | DatabaseError

  class DeviceService {
    var rows: seq<Device>
    const cache: NameCache

    constructor (cache: NameCache)
      ensures rows == [] && this.cache == cache
    {
      rows, this.cache := [], cache;
    }

    ghost predicate Valid()
      reads this, cache
    {
      DistinctSerials(rows) && Coherent(cache.View(), rows)
    }

    /** `checkFails` and `writeFails` say whether ExistsBySerialNumber and Create return a database error. */
    method CreateDevice(guid: string, kind: string, serial: string, alias: string, notes: string,
                        checkFails: bool, writeFails: bool)
      returns (r: Outcome)
      requires Valid() && forall d :: d in rows ==> d.guid != guid
      modifies this, cache
      ensures Valid()
      ensures r == DatabaseError <==> checkFails || (!HasSerial(old(rows), serial) && writeFails)
      ensures r == SerialExists <==> !checkFails && HasSerial(old(rows), serial)
      ensures r != NotFound
      ensures r == Done ==>
        rows == [Device(guid, kind, serial, alias, notes, true)] + old(rows) && cache.View() == EMPTY_CACHE
      ensures r != Done ==> rows == old(rows) && cache.View() == old(cache.View())
    {
      if checkFails {
        return DatabaseError;
      }
      if HasSerial(rows, serial) {
        return SerialExists;
      }
      if writeFails {
        return DatabaseError;
      }
      rows := [Device(guid, kind, serial, alias, notes, true)] + rows;
      cache.InvalidateDeviceCache();
      return Done;
    }

    /** An update checks for the serial number only when it asks for a different one. */
    predicate Renames(d: Device, c: Changes) { c.serial.Some? && c.serial.value != d.serial }

    /** `fetchFails`, `checkFails` and `writeFails` say whether GetByGUID, ExistsBySerialNumber and Update return a
        database error. */
    method UpdateDevice(guid: string, changes: Changes, fetchFails: bool, checkFails: bool, writeFails: bool)
      returns (r: Outcome)
      requires Valid()
      modifies this, cache
      ensures Valid()
      ensures r == NotFound <==> !fetchFails && Find(old(rows), guid).None?
      ensures var found := Find(old(rows), guid);
        var taken := found.Some? && Renames(found.value, changes) && HasSerial(old(rows), changes.serial.value);
        && (r == SerialExists <==> !fetchFails && taken && !checkFails)
        && (r == DatabaseError <==>
              fetchFails || (found.Some? && ((Renames(found.value, changes) && checkFails) || (!taken && writeFails))))
        && (r == Done ==> rows == Overwrite(old(rows), Changed(found.value, changes)) && cache.View() == EMPTY_CACHE)
      ensures r == Done ==> |rows| == |old(rows)|
      ensures r == Done ==> forall i :: 0 <= i < |rows| ==>
        if old(rows)[i].guid == guid then IsUpdate(old(rows)[i], changes, rows[i]) else rows[i] == old(rows)[i]
      ensures r != Done ==> rows == old(rows) && cache.View() == old(cache.View())
    {
      if fetchFails {
        return DatabaseError;
      }
      var found := Find(rows, guid);
      if found.None? {
        return NotFound;
      }
      var device := found.value;
      if changes.serial.Some? && changes.serial.value != device.serial {
        if checkFails {
          return DatabaseError;
        }
        if HasSerial(rows, changes.serial.value) {
          return SerialExists;
        }
        device := device.(serial := changes.serial.value);
      }
      if changes.kind.Some? { device := device.(kind := changes.kind.value); }
      if changes.alias.Some? { device := device.(alias := changes.alias.value); }
      if changes.notes.Some? { device := device.(notes := changes.notes.value); }
      if changes.active.Some? { device := device.(active := changes.active.value); }
      if writeFails {
        return DatabaseError;
      }
      assert device == Changed(found.value, changes);
      assert forall d :: d in rows && d.guid != guid ==> d.serial != found.value.serial;
      OverwriteKeepsDistinct(rows, device);
      OverwriteUpdates(rows, guid, changes);
      rows := Overwrite(rows, device);
      cache.InvalidateDeviceCache();
      return Done;
    }

    method DeleteDevice(guid: string, dbFails: bool) returns (r: Outcome)
      requires Valid()
      modifies this, cache
      ensures Valid()
      ensures r == if dbFails then DatabaseError else Done
      ensures r == Done ==> rows == Without(old(rows), guid) && cache.View() == EMPTY_CACHE
      ensures r == Done ==> forall d :: d in rows <==> d in old(rows) && d.guid != guid
      ensures r != Done ==> rows == old(rows) && cache.View() == old(cache.View())
    {
      if dbFails {
        return DatabaseError;
      }
      WithoutKeepsDistinct(rows, guid);
      rows := Without(rows, guid);
      cache.InvalidateDeviceCache();
      return Done;
    }
  }
}
