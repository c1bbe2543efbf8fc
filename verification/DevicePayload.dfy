/**
 StreamAllDevicesWithHealth: the listed devices joined with their health and telemetry and grouped by type
 (internal/service/telemetry/telemetry_service_impl.go).
 */
module DevicePayload {
  import opened Common
  import opened Devices
  import opened Flux
  import opened Grouping
  import opened Telemetry

  type Payload = map<string, seq<DeviceEntry>>

  function KindOf(d: Device): string { if d.kind == "" then "unknown" else d.kind }

  function Kinds(devices: seq<Device>): seq<string> {
    seq(|devices|, i requires 0 <= i < |devices| => KindOf(devices[i]))
  }

  /** The last health entry of a serial number. */
  function LastHealth(list: seq<HealthData>, sn: string): Option<HealthData> {
    if list == [] then None
    else if list[|list| - 1].deviceSN == sn then Some(list[|list| - 1])
    else LastHealth(list[..|list| - 1], sn)
  }

  function Join(list: seq<HealthData>, telemetry: map<string, TelemetryData>, d: Device): DeviceEntry {
    var found := LastHealth(list, d.serial);
    var health := if found.Some? then found.value.(deviceName := d.alias)
                  else BlankHealth(d.serial).(deviceName := d.alias, kind := KindOf(d), status := "offline");
    DeviceEntry(health, if d.serial in telemetry then telemetry[d.serial] else map[])
  }

  /** Group k holds the joined devices of kind k, in the order of the list. */
  ghost predicate IsPayload(list: seq<HealthData>, telemetry: map<string, TelemetryData>, devices: seq<Device>,
                            payload: Payload) {
    && (forall k :: k in payload <==> k in Kinds(devices))
    && (forall k :: k in payload ==> IsGroup(list, telemetry, devices, k, payload[k]))
  }

  ghost predicate IsGroup(list: seq<HealthData>, telemetry: map<string, TelemetryData>, devices: seq<Device>,
                          k: string, group: seq<DeviceEntry>) {
    var at := Positions(Kinds(devices), k);
    && |group| == |at|
    && forall p :: 0 <= p < |at| ==> at[p] < |devices| && group[p] == Join(list, telemetry, devices[at[p]])
  }

  lemma KindsStep(devices: seq<Device>, d: Device, k: string)
    ensures Kinds(devices + [d]) == Kinds(devices) + [KindOf(d)]
    ensures k in Kinds(devices + [d]) <==> k in Kinds(devices) || k == KindOf(d)
  {
    assert Kinds(devices + [d]) == Kinds(devices) + [KindOf(d)];
  }

  lemma GroupStep(list: seq<HealthData>, telemetry: map<string, TelemetryData>, devices: seq<Device>, d: Device,
                  k: string, group: seq<DeviceEntry>)
    requires IsGroup(list, telemetry, devices, k, group)
    ensures IsGroup(list, telemetry, devices + [d], k,
                    if KindOf(d) == k then group + [Join(list, telemetry, d)] else group)
  {
    KindsStep(devices, d, k);
    Extend(Kinds(devices), KindOf(d), k);
  }

  lemma AbsentGroupIsEmpty(list: seq<HealthData>, telemetry: map<string, TelemetryData>, devices: seq<Device>,
                           k: string)
    requires k !in Kinds(devices)
    ensures IsGroup(list, telemetry, devices, k, [])
  {
    PositionsExact(Kinds(devices), k);
  }

  lemma PayloadStep(list: seq<HealthData>, telemetry: map<string, TelemetryData>, devices: seq<Device>, d: Device,
                    payload: Payload)
    requires IsPayload(list, telemetry, devices, payload)
    ensures var k := KindOf(d); var group := if k in payload then payload[k] else [];
      IsPayload(list, telemetry, devices + [d], payload[k := group + [Join(list, telemetry, d)]])
  {
    var k := KindOf(d);
    var group := if k in payload then payload[k] else [];
    var payload' := payload[k := group + [Join(list, telemetry, d)]];
    if k !in payload { AbsentGroupIsEmpty(list, telemetry, devices, k); }
    forall j ensures j in payload' <==> j in Kinds(devices + [d]) {
      KindsStep(devices, d, j);
    }
    forall j | j in payload' ensures IsGroup(list, telemetry, devices + [d], j, payload'[j]) {
      GroupStep(list, telemetry, devices, d, j, if j == k then group else payload[j]);
    }
  }

  // ---- The entries of a payload, member by member ----

  /** Entry i is the last health entry of a serial number. */
  ghost predicate LastOf(list: seq<HealthData>, sn: string, i: nat) {
    i < |list| && list[i].deviceSN == sn && forall j :: i < j < |list| ==> list[j].deviceSN != sn
  }

  /** The entry has the device's telemetry, or none; and its last health under its alias or, without any, is offline
      and blank but for serial number, alias and type. */
  ghost predicate Shows(list: seq<HealthData>, telemetry: map<string, TelemetryData>, d: Device, e: DeviceEntry) {
    && e.telemetry == (if d.serial in telemetry then telemetry[d.serial] else map[])
    && (forall i: nat :: LastOf(list, d.serial, i) ==> e.health == list[i].(deviceName := d.alias))
    && ((forall i :: 0 <= i < |list| ==> list[i].deviceSN != d.serial) ==>
         e.health == HealthData(d.serial, d.alias, "", "", if d.kind == "" then "unknown" else d.kind, "", "offline",
                                Finite(0.0), Finite(0.0), Finite(0.0), Finite(0.0), "", 0))
  }

  lemma {:induction false} LastHealthIsLast(list: seq<HealthData>, sn: string)
    ensures forall i: nat :: LastOf(list, sn, i) ==> LastHealth(list, sn) == Some(list[i])
    ensures LastHealth(list, sn).Some? ==> exists i :: 0 <= i < |list| && list[i].deviceSN == sn
  {
    if list != [] {
      var n := |list| - 1;
      LastHealthIsLast(list[..n], sn);
      forall i: nat | LastOf(list, sn, i) ensures LastHealth(list, sn) == Some(list[i]) {
        if i < n { assert LastOf(list[..n], sn, i); }
      }
      if LastHealth(list, sn).Some? && list[n].deviceSN != sn {
        var i :| 0 <= i < n && list[..n][i].deviceSN == sn;
        assert list[i].deviceSN == sn;
      }
    }
  }

  lemma JoinShows(list: seq<HealthData>, telemetry: map<string, TelemetryData>, d: Device)
    ensures Shows(list, telemetry, d, Join(list, telemetry, d))
  {
    LastHealthIsLast(list, d.serial);
  }

  ghost predicate IsHealthMap(m: map<string, HealthData>, list: seq<HealthData>) {
    forall sn :: if sn in m then LastHealth(list, sn) == Some(m[sn]) else LastHealth(list, sn) == None
  }

  method MapHealth(list: seq<HealthData>) returns (m: map<string, HealthData>)
    ensures IsHealthMap(m, list)
  {
    m := map[];
    for i := 0 to |list|
      invariant IsHealthMap(m, list[..i])
    {
      assert list[..i + 1][..i] == list[..i];
      m := m[list[i].deviceSN := list[i]];
    }
    assert list[..|list|] == list;
  }

  /** The three arguments are what GetLatestHealthSSE, GetLatestTelemetrySSE and List answer, None for an error. */
  method StreamAllDevicesWithHealth(health: Option<seq<HealthData>>, telemetry: Option<map<string, TelemetryData>>,
                                    listing: Option<seq<Device>>)
    returns (result: Option<Payload>)
    ensures result.None? <==> health.None? || telemetry.None? || listing.None?
    ensures result.Some? ==> IsPayload(health.value, telemetry.value, listing.value, result.value)
    ensures result.Some? ==> AllShown(health.value, telemetry.value, listing.value, result.value)
  {
    if health.None? || telemetry.None? {
      return None;
    }
    var healthMap := MapHealth(health.value);
    var payload: Payload := map[];
    if listing.None? {
      return None;
    }
    var devices := listing.value;
    for i := 0 to |devices|
      invariant IsPayload(health.value, telemetry.value, devices[..i], payload)
    {
      var dev := devices[i];
      var sn, typeName := dev.serial, dev.kind;
      if typeName == "" {
        typeName := "unknown";
      }
      var h: HealthData;
      if sn !in healthMap {
        h := BlankHealth(sn).(deviceName := dev.alias, kind := typeName, status := "offline");
      } else {
        h := healthMap[sn].(deviceName := dev.alias);
      }
      var t := if sn in telemetry.value then telemetry.value[sn] else map[];
      PayloadStep(health.value, telemetry.value, devices[..i], dev, payload);
      assert devices[..i + 1] == devices[..i] + [dev];
      payload := payload[typeName := (if typeName in payload then payload[typeName] else []) + [DeviceEntry(h, t)]];
    }
    assert devices[..|devices|] == devices;
    PayloadShowsDevices(health.value, telemetry.value, devices, payload);
    result := Some(payload);
  }

  // ---- What the payload means ----

  /** The number of entries in the groups of some kinds. */
  function Total(payload: Payload, keys: seq<string>): nat {
    if keys == [] then 0 else
    var k := keys[|keys| - 1];
    Total(payload, keys[..|keys| - 1]) + if k in payload then |payload[k]| else 0
  }

  function Counted(ks: seq<string>, keys: seq<string>): nat {
    if keys == [] then 0 else Counted(ks, keys[..|keys| - 1]) + |Positions(ks, keys[|keys| - 1])|
  }

  lemma PositionsGrow(ks: seq<string>, k: string, key: string)
    ensures |Positions(ks + [k], key)| == |Positions(ks, key)| + if k == key then 1 else 0
  {
    Extend(ks, k, key);
  }

  lemma LastOrEarlier(keys: seq<string>, k: string)
    requires keys != []
    ensures k in keys <==> k in keys[..|keys| - 1] || k == keys[|keys| - 1]
  {
    assert keys == keys[..|keys| - 1] + [keys[|keys| - 1]];
  }

  lemma {:induction false} CountedStep(ks: seq<string>, k: string, keys: seq<string>)
    requires forall i, j :: 0 <= i < j < |keys| ==> keys[i] != keys[j]
    ensures Counted(ks + [k], keys) == Counted(ks, keys) + if k in keys then 1 else 0
  {
    if keys != [] {
      var n := |keys| - 1;
      CountedStep(ks, k, keys[..n]);
      PositionsGrow(ks, k, keys[n]);
      LastOrEarlier(keys, k);
    }
  }

  lemma {:induction false} CountedNothing(keys: seq<string>)
    ensures Counted([], keys) == 0
  {
    if keys != [] { CountedNothing(keys[..|keys| - 1]); }
  }

  lemma {:induction false} CountedIsAll(ks: seq<string>, keys: seq<string>)
    requires forall i, j :: 0 <= i < j < |keys| ==> keys[i] != keys[j]
    requires forall i :: 0 <= i < |ks| ==> ks[i] in keys
    ensures Counted(ks, keys) == |ks|
  {
    if ks == [] {
      CountedNothing(keys);
    } else {
      var n := |ks| - 1;
      CountedIsAll(ks[..n], keys);
      CountedStep(ks[..n], ks[n], keys);
      assert ks == ks[..n] + [ks[n]];
    }
  }

  lemma {:induction false} TotalIsCounted(list: seq<HealthData>, telemetry: map<string, TelemetryData>,
                                          devices: seq<Device>, payload: Payload, keys: seq<string>)
    requires IsPayload(list, telemetry, devices, payload) && forall i :: 0 <= i < |keys| ==> keys[i] in payload
    ensures Total(payload, keys) == Counted(Kinds(devices), keys)
  {
    if keys != [] {
      TotalIsCounted(list, telemetry, devices, payload, keys[..|keys| - 1]);
      assert IsGroup(list, telemetry, devices, keys[|keys| - 1], payload[keys[|keys| - 1]]);
    }
  }

  /** Device n stands at place p of group k. */
  ghost predicate StandsAt(devices: seq<Device>, payload: Payload, k: string, p: nat, n: nat) {
    var at := Positions(Kinds(devices), k);
    k in payload && p < |payload[k]| && p < |at| && at[p] == n
  }

  ghost predicate Stands(devices: seq<Device>, payload: Payload, k: string, n: nat) {
    exists p: nat :: StandsAt(devices, payload, k, p, n)
  }

  /** The entry at a place is the joined entry of a device of the group's kind that stands there. */
  ghost predicate IsJoined(list: seq<HealthData>, telemetry: map<string, TelemetryData>, devices: seq<Device>,
                           payload: Payload, k: string, p: nat)
    requires k in payload && p < |payload[k]|
  {
    exists n: nat :: StandsAt(devices, payload, k, p, n) && n < |devices| && KindOf(devices[n]) == k
                     && payload[k][p] == Join(list, telemetry, devices[n])
  }

  /** Every place of the payload is in the group of its device's type, "unknown" for none, and shows that device. */
  ghost predicate AllShown(list: seq<HealthData>, telemetry: map<string, TelemetryData>, devices: seq<Device>,
                           payload: Payload)
  {
    forall k, p: nat, n: nat :: StandsAt(devices, payload, k, p, n) ==>
      && n < |devices| && k == (if devices[n].kind == "" then "unknown" else devices[n].kind)
      && Shows(list, telemetry, devices[n], payload[k][p])
  }

  lemma PayloadShowsDevices(list: seq<HealthData>, telemetry: map<string, TelemetryData>, devices: seq<Device>,
                            payload: Payload)
    requires IsPayload(list, telemetry, devices, payload)
    ensures AllShown(list, telemetry, devices, payload)
  {
    forall k, p: nat, n: nat | StandsAt(devices, payload, k, p, n)
      ensures n < |devices| && k == (if devices[n].kind == "" then "unknown" else devices[n].kind)
      ensures Shows(list, telemetry, devices[n], payload[k][p])
    {
      PositionsExact(Kinds(devices), k);
      assert IsGroup(list, telemetry, devices, k, payload[k]);
      JoinShows(list, telemetry, devices[n]);
    }
  }

  lemma PlaceOfDevice(list: seq<HealthData>, telemetry: map<string, TelemetryData>, devices: seq<Device>,
                      payload: Payload, n: nat)
    returns (p: nat)
    requires IsPayload(list, telemetry, devices, payload) && n < |devices|
    ensures StandsAt(devices, payload, KindOf(devices[n]), p, n)
    ensures payload[KindOf(devices[n])][p] == Join(list, telemetry, devices[n])
  {
    var ks := Kinds(devices);
    var k := ks[n];
    PositionsExact(ks, k);
    assert k in ks && k in payload && IsGroup(list, telemetry, devices, k, payload[k]);
    p :| 0 <= p < |Positions(ks, k)| && Positions(ks, k)[p] == n;
  }

  /** The payload is an order-preserving partition of the device list: each entry is the joined entry of the
      device that stands at its place; every device stands at exactly one place, in the group of its kind;
      within a group the devices keep their order; and the group sizes add up to the number of devices. */
  lemma PayloadPartitionsDevices(list: seq<HealthData>, telemetry: map<string, TelemetryData>, devices: seq<Device>,
                                 payload: Payload)
    requires IsPayload(list, telemetry, devices, payload)
    ensures forall k, p: nat :: k in payload && p < |payload[k]| ==> IsJoined(list, telemetry, devices, payload, k, p)
    ensures forall n: nat :: n < |devices| ==> Stands(devices, payload, KindOf(devices[n]), n)
    ensures forall j, k, p: nat, q: nat, m: nat, n: nat ::
      StandsAt(devices, payload, j, p, m) && StandsAt(devices, payload, k, q, n) ==>
      (m == n ==> j == k && p == q) && (j == k && p < q ==> m < n)
    ensures Total(payload, Distinct(Kinds(devices))) == |devices|
  {
    var ks := Kinds(devices);
    forall k, p: nat | k in payload && p < |payload[k]| ensures IsJoined(list, telemetry, devices, payload, k, p) {
      PositionsExact(ks, k);
      assert IsGroup(list, telemetry, devices, k, payload[k]);
      assert StandsAt(devices, payload, k, p, Positions(ks, k)[p]);
    }
    forall n: nat | n < |devices| ensures Stands(devices, payload, KindOf(devices[n]), n) {
      var p := PlaceOfDevice(list, telemetry, devices, payload, n);
    }
    forall j, k, p: nat, q: nat, m: nat, n: nat
      | StandsAt(devices, payload, j, p, m) && StandsAt(devices, payload, k, q, n)
      ensures (m == n ==> j == k && p == q) && (j == k && p < q ==> m < n)
    {
      PositionsExact(ks, j);
      PositionsExact(ks, k);
    }
    DistinctExact(ks);
    CountedIsAll(ks, Distinct(ks));
    TotalIsCounted(list, telemetry, devices, payload, Distinct(ks));
  }

  ghost predicate FollowsHealthType(payload: Payload) {
    forall k, p: nat :: k in payload && p < |payload[k]| ==> payload[k][p].health.kind == k
  }

  ghost predicate TypesAgree(list: seq<HealthData>, devices: seq<Device>) {
    forall n: nat :: n < |devices| && LastHealth(list, devices[n].serial).Some? ==>
      LastHealth(list, devices[n].serial).value.kind == KindOf(devices[n])
  }

  /** The groups go by the type in the device table. They go by the type in the health data, as the service's
      own test expects, exactly when the two agree for every listed device that has health data. */
  lemma FollowsHealthTypeExactlyWhenTypesAgree(list: seq<HealthData>, telemetry: map<string, TelemetryData>,
                                               devices: seq<Device>, payload: Payload)
    requires IsPayload(list, telemetry, devices, payload)
    ensures FollowsHealthType(payload) <==> TypesAgree(list, devices)
  {
    if FollowsHealthType(payload) {
      forall n: nat | n < |devices| && LastHealth(list, devices[n].serial).Some?
        ensures LastHealth(list, devices[n].serial).value.kind == KindOf(devices[n])
      {
        var p := PlaceOfDevice(list, telemetry, devices, payload, n);
        assert payload[KindOf(devices[n])][p].health.kind == KindOf(devices[n]);
      }
    }
    if TypesAgree(list, devices) {
      PayloadPartitionsDevices(list, telemetry, devices, payload);
      forall k, p: nat | k in payload && p < |payload[k]| ensures payload[k][p].health.kind == k {
        assert IsJoined(list, telemetry, devices, payload, k, p);
      }
    }
  }
}
