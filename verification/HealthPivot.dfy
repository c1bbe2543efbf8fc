/**
 parseHealthResult: one pass over all rows that gathers each device's tags, fields and latest timestamp
 (internal/repository/telemetry/telemetry_repository_impl.go).
 */
module HealthPivot {
  import opened Common
  import opened Flux
  import opened Telemetry

  const OFFLINE_THRESHOLD := 30_000_000_000

  /** What one row says: its device, the tags it has cells for, one field, and when. */
  datatype Report = Report(sn: string, gateway: Option<string>, project: Option<string>, kind: Option<string>,
                           model: Option<string>, field: string, value: Value, seen: Option<int>)

  function SeenAt(lib: Lib, cell: Option<Value>): Option<int> {
    if cell.Some? && cell.value.Text? && lib.time(cell.value.s).Some?
    then Some(lib.time(cell.value.s).value.instant)
    else None
  }

  function ReportOf(lib: Lib, columns: seq<string>, row: seq<Value>): Report {
    Report(Or(TextField(lib, columns, row, "device_sn"), ""),
           TextField(lib, columns, row, "gateway_sn"), TextField(lib, columns, row, "project"),
           TextField(lib, columns, row, "type"), TextField(lib, columns, row, "model"),
           Or(TextField(lib, columns, row, "_field"), ""), Or(Field(columns, row, "_value"), Nil),
           SeenAt(lib, Field(columns, row, "timestamp")))
  }

  function RowReports(lib: Lib, columns: seq<string>, rows: seq<seq<Value>>): seq<Report> {
    seq(|rows|, i requires 0 <= i < |rows| => ReportOf(lib, columns, rows[i]))
  }

  /** The reports of all rows, in the order in which they are read; a series without columns is skipped. */
  function Reports(lib: Lib, series: seq<Series>): seq<Report> {
    if series == [] then [] else
    var s := series[|series| - 1];
    Reports(lib, series[..|series| - 1]) + if s.columns == [] then [] else RowReports(lib, s.columns, s.values)
  }

  // ---- The declarative specification ----

  datatype Slot = Gateway | Project | Kind | Model | Uptime | Temp | Hum | Rssi | ResetReason

  /** The slot that a _field value names. */
  function FieldSlot(field: string): Option<Slot> {
    if field == "uptime" then Some(Uptime)
    else if field == "temp" then Some(Temp)
    else if field == "hum" then Some(Hum)
    else if field == "rssi" then Some(Rssi)
    else if field == "reset_reason" then Some(ResetReason)
    else None
  }

  /** What a report writes to a slot of its device. */
  function Written(lib: Lib, r: Report, slot: Slot): Option<Value> {
    match slot
    case Gateway => if r.gateway.Some? then Some(Text(r.gateway.value)) else None
    case Project => if r.project.Some? then Some(Text(r.project.value)) else None
    case Kind => if r.kind.Some? then Some(Text(r.kind.value)) else None
    case Model => if r.model.Some? then Some(Text(r.model.value)) else None
    case Uptime => if FieldSlot(r.field) == Some(Uptime) then Some(Float(ToFloat(r.value))) else None
    case Temp => if FieldSlot(r.field) == Some(Temp) then Some(Float(ToFloat(r.value))) else None
    case Hum => if FieldSlot(r.field) == Some(Hum) then Some(Float(ToFloat(r.value))) else None
    case Rssi => if FieldSlot(r.field) == Some(Rssi) then Some(Float(ToFloat(r.value))) else None
    case ResetReason => if FieldSlot(r.field) == Some(ResetReason) then Some(Text(ToText(lib, r.value))) else None
  }

  function Get(d: HealthData, slot: Slot): Value {
    match slot
    case Gateway => Text(d.gatewaySN)
    case Project => Text(d.project)
    case Kind => Text(d.kind)
    case Model => Text(d.model)
    case Uptime => Float(d.uptime)
    case Temp => Float(d.temp)
    case Hum => Float(d.hum)
    case Rssi => Float(d.rssi)
    case ResetReason => Text(d.resetReason)
  }

  predicate Writes(lib: Lib, r: Report, sn: string, slot: Slot) { r.sn == sn && Written(lib, r, slot).Some? }

  /** The last write to a slot of a device. */
  function LastWritten(lib: Lib, rs: seq<Report>, sn: string, slot: Slot): Option<Value> {
    if rs == [] then None
    else if Writes(lib, rs[|rs| - 1], sn, slot) then Written(lib, rs[|rs| - 1], slot)
    else LastWritten(lib, rs[..|rs| - 1], sn, slot)
  }

  /** The maximum of the readable timestamps of a device and the zero time. */
  function Latest(rs: seq<Report>, sn: string): int {
    if rs == [] then 0 else
    var before, r := Latest(rs[..|rs| - 1], sn), rs[|rs| - 1];
    if r.sn == sn && r.seen.Some? && r.seen.value > before then r.seen.value else before
  }

  ghost predicate Mentions(rs: seq<Report>, sn: string) { exists i :: 0 <= i < |rs| && rs[i].sn == sn }

  /** A device's entry, apart from its status. */
  ghost predicate IsEntry(lib: Lib, rs: seq<Report>, sn: string, d: HealthData) {
    && d.deviceSN == sn && d.deviceName == "" && d.lastSeen == Latest(rs, sn)
    && forall slot :: Get(d, slot) == Or(LastWritten(lib, rs, sn, slot), Get(BlankHealth(sn), slot))
  }

  /** Offline without a timestamp, or with one more than the threshold before now. */
  function Status(now: int, lastSeen: int): string {
    if lastSeen == 0 || now - lastSeen > OFFLINE_THRESHOLD then "offline" else "online"
  }

  ghost predicate IsGood(lib: Lib, rs: seq<Report>, now: int, d: HealthData) {
    && d.deviceSN != "" && Mentions(rs, d.deviceSN)
    && IsEntry(lib, rs, d.deviceSN, d) && d.status == Status(now, d.lastSeen)
  }

  ghost predicate AllGood(lib: Lib, rs: seq<Report>, now: int, list: seq<HealthData>) {
    && (forall i :: 0 <= i < |list| ==> IsGood(lib, rs, now, list[i]))
    && (forall i, j :: 0 <= i < j < |list| ==> list[i].deviceSN != list[j].deviceSN)
  }

  ghost predicate Listed(list: seq<HealthData>, sn: string) { exists i :: 0 <= i < |list| && list[i].deviceSN == sn }

  /** One entry per device with a nonempty serial number that some row mentions, in any order. */
  ghost predicate IsHealthList(lib: Lib, rs: seq<Report>, now: int, list: seq<HealthData>) {
    && AllGood(lib, rs, now, list)
    && (forall sn :: sn != "" && Mentions(rs, sn) ==> Listed(list, sn))
  }

  // ---- The pass ----

  function WithTags(d: HealthData, r: Report): HealthData {
    d.(gatewaySN := Or(r.gateway, d.gatewaySN), project := Or(r.project, d.project),
       kind := Or(r.kind, d.kind), model := Or(r.model, d.model))
  }

  function WithField(lib: Lib, d: HealthData, slot: Option<Slot>, value: Value): HealthData {
    if slot.None? then d else
    match slot.value
    case Uptime => d.(uptime := ToFloat(value))
    case Temp => d.(temp := ToFloat(value))
    case Hum => d.(hum := ToFloat(value))
    case Rssi => d.(rssi := ToFloat(value))
    case ResetReason => d.(resetReason := ToText(lib, value))
    case _ => d
  }

  function WithSeen(d: HealthData, seen: Option<int>): HealthData {
    if seen.Some? && seen.value > d.lastSeen then d.(lastSeen := seen.value) else d
  }

  function Update(lib: Lib, d: HealthData, r: Report): HealthData {
    WithSeen(WithField(lib, WithTags(d, r), FieldSlot(r.field), r.value), r.seen)
  }

  ghost predicate IsPivot(lib: Lib, rs: seq<Report>, m: map<string, HealthData>) {
    && (forall sn :: sn in m <==> sn != "" && Mentions(rs, sn))
    && (forall sn :: sn in m ==> IsEntry(lib, rs, sn, m[sn]))
  }

  lemma MentionsStep(rs: seq<Report>, r: Report, sn: string)
    ensures Mentions(rs + [r], sn) <==> Mentions(rs, sn) || r.sn == sn
  {
    if Mentions(rs, sn) {
      var i :| 0 <= i < |rs| && rs[i].sn == sn;
      assert (rs + [r])[i].sn == sn;
    }
    if r.sn == sn { assert (rs + [r])[|rs|].sn == sn; }
  }

  lemma {:induction false} UnmentionedIsBlank(lib: Lib, rs: seq<Report>, sn: string)
    requires !Mentions(rs, sn)
    ensures IsEntry(lib, rs, sn, BlankHealth(sn))
  {
    if rs != [] {
      var init := rs[..|rs| - 1];
      assert rs == init + [rs[|rs| - 1]];
      MentionsStep(init, rs[|rs| - 1], sn);
      UnmentionedIsBlank(lib, init, sn);
      forall slot ensures LastWritten(lib, rs, sn, slot) == LastWritten(lib, init, sn, slot) {
      }
    }
  }

  /** One row's update writes to each slot what its report says, and nothing else. */
  lemma UpdateWrites(lib: Lib, d: HealthData, r: Report, slot: Slot)
    ensures Get(Update(lib, d, r), slot) == Or(Written(lib, r, slot), Get(d, slot))
  {
    var tagged := WithTags(d, r);
    TagsWrite(lib, d, r, slot);
    FieldWrites(lib, tagged, r, slot);
    var updated := WithField(lib, tagged, FieldSlot(r.field), r.value);
    assert Get(WithSeen(updated, r.seen), slot) == Get(updated, slot);
  }

  predicate IsTag(slot: Slot) { slot.Gateway? || slot.Project? || slot.Kind? || slot.Model? }

  lemma TagsWrite(lib: Lib, d: HealthData, r: Report, slot: Slot)
    ensures Get(WithTags(d, r), slot) == if IsTag(slot) then Or(Written(lib, r, slot), Get(d, slot)) else Get(d, slot)
  {
  }

  lemma FieldWrites(lib: Lib, d: HealthData, r: Report, slot: Slot)
    ensures Get(WithField(lib, d, FieldSlot(r.field), r.value), slot) ==
            if IsTag(slot) then Get(d, slot) else Or(Written(lib, r, slot), Get(d, slot))
  {
    var named := FieldSlot(r.field);
    assert named.Some? ==> !IsTag(named.value);
    assert !IsTag(slot) ==> (Written(lib, r, slot).Some? <==> named == Some(slot));
  }

  lemma LastStep(lib: Lib, rs: seq<Report>, r: Report, sn: string, slot: Slot)
    ensures LastWritten(lib, rs + [r], sn, slot) ==
            if Writes(lib, r, sn, slot) then Written(lib, r, slot) else LastWritten(lib, rs, sn, slot)
    ensures Latest(rs + [r], sn) ==
            if r.sn == sn && r.seen.Some? && r.seen.value > Latest(rs, sn) then r.seen.value else Latest(rs, sn)
  {
    assert (rs + [r])[..|rs|] == rs;
  }

  lemma EntryStep(lib: Lib, rs: seq<Report>, r: Report, sn: string, d: HealthData)
    requires IsEntry(lib, rs, sn, d)
    ensures IsEntry(lib, rs + [r], sn, if r.sn == sn then Update(lib, d, r) else d)
  {
    var d' := if r.sn == sn then Update(lib, d, r) else d;
    SeenStep(lib, rs, r, sn, d);
    forall slot ensures Get(d', slot) == Or(LastWritten(lib, rs + [r], sn, slot), Get(BlankHealth(sn), slot)) {
      SlotStep(lib, rs, r, sn, d, slot);
    }
  }

  lemma SeenStep(lib: Lib, rs: seq<Report>, r: Report, sn: string, d: HealthData)
    requires d.deviceSN == sn && d.deviceName == "" && d.lastSeen == Latest(rs, sn)
    ensures var d' := if r.sn == sn then Update(lib, d, r) else d;
      d'.deviceSN == sn && d'.deviceName == "" && d'.lastSeen == Latest(rs + [r], sn)
  {
    LastStep(lib, rs, r, sn, Gateway);
    UpdateSees(lib, d, r);
  }

  lemma UpdateSees(lib: Lib, d: HealthData, r: Report)
    ensures var d' := Update(lib, d, r);
      && d'.deviceSN == d.deviceSN && d'.deviceName == d.deviceName
      && d'.lastSeen == if r.seen.Some? && r.seen.value > d.lastSeen then r.seen.value else d.lastSeen
  {
    assert WithField(lib, WithTags(d, r), FieldSlot(r.field), r.value).lastSeen == d.lastSeen;
  }

  lemma SlotStep(lib: Lib, rs: seq<Report>, r: Report, sn: string, d: HealthData, slot: Slot)
    requires Get(d, slot) == Or(LastWritten(lib, rs, sn, slot), Get(BlankHealth(sn), slot))
    ensures Get(if r.sn == sn then Update(lib, d, r) else d, slot) ==
            Or(LastWritten(lib, rs + [r], sn, slot), Get(BlankHealth(sn), slot))
  {
    UpdateWrites(lib, d, r, slot);
    LastStep(lib, rs, r, sn, slot);
  }

  lemma MentionedNow(rs: seq<Report>, r: Report)
    ensures forall sn :: Mentions(rs + [r], sn) <==> Mentions(rs, sn) || r.sn == sn
  {
    forall sn ensures Mentions(rs + [r], sn) <==> Mentions(rs, sn) || r.sn == sn {
      MentionsStep(rs, r, sn);
    }
  }

  /** The entry that the row's device has before the row is read. */
  function EntryOf(m: map<string, HealthData>, sn: string): HealthData { if sn in m then m[sn] else BlankHealth(sn) }

  lemma EntryBefore(lib: Lib, rs: seq<Report>, m: map<string, HealthData>, sn: string)
    requires IsPivot(lib, rs, m) && sn != ""
    ensures IsEntry(lib, rs, sn, EntryOf(m, sn))
  {
    if sn !in m { UnmentionedIsBlank(lib, rs, sn); }
  }

  /** What the pass makes of the map at a row. */
  function Pivoted(lib: Lib, m: map<string, HealthData>, r: Report): map<string, HealthData> {
    if r.sn == "" then m else m[r.sn := Update(lib, EntryOf(m, r.sn), r)]
  }

  lemma PivotStep(lib: Lib, rs: seq<Report>, r: Report, m: map<string, HealthData>)
    requires IsPivot(lib, rs, m)
    ensures IsPivot(lib, rs + [r], Pivoted(lib, m, r))
  {
    MentionedNow(rs, r);
    forall sn | sn in Pivoted(lib, m, r) ensures IsEntry(lib, rs + [r], sn, Pivoted(lib, m, r)[sn]) {
      EntryBefore(lib, rs, m, sn);
      EntryStep(lib, rs, r, sn, EntryOf(m, sn));
    }
  }

  method ReadReport(lib: Lib, index: map<string, nat>, columns: seq<string>, row: seq<Value>) returns (r: Report)
    requires IsIndex(index, columns)
    ensures r == ReportOf(lib, columns, row)
  {
    var deviceSN := ReadText(lib, index, columns, row, "device_sn");
    var gateway := ReadText(lib, index, columns, row, "gateway_sn");
    var project := ReadText(lib, index, columns, row, "project");
    var kind := ReadText(lib, index, columns, row, "type");
    var model := ReadText(lib, index, columns, row, "model");
    var fieldName := ReadText(lib, index, columns, row, "_field");
    var fieldValue := ReadField(index, columns, row, "_value");
    var ts := ReadField(index, columns, row, "timestamp");
    var seen := None;
    if ts.Some? && ts.value.Text? {
      var t := lib.time(ts.value.s);
      if t.Some? { seen := Some(t.value.instant); }
    }
    r := Report(Or(deviceSN, ""), gateway, project, kind, model, Or(fieldName, ""), Or(fieldValue, Nil), seen);
  }

  /** The body of the row loop, on the cells it reads. */
  method PivotRow(lib: Lib, r: Report, m: map<string, HealthData>) returns (m': map<string, HealthData>)
    ensures m' == Pivoted(lib, m, r)
  {
    if r.sn == "" {
      return m;
    }
    var dev := if r.sn in m then m[r.sn] else BlankHealth(r.sn);
    if r.gateway.Some? { dev := dev.(gatewaySN := r.gateway.value); }
    if r.project.Some? { dev := dev.(project := r.project.value); }
    if r.kind.Some? { dev := dev.(kind := r.kind.value); }
    if r.model.Some? { dev := dev.(model := r.model.value); }
    assert dev == WithTags(EntryOf(m, r.sn), r);
    dev := WithField(lib, dev, FieldSlot(r.field), r.value);
    if r.seen.Some? && r.seen.value > dev.lastSeen { dev := dev.(lastSeen := r.seen.value); }
    m' := m[r.sn := dev];
  }

  lemma RowReportsStep(lib: Lib, before: seq<Report>, columns: seq<string>, rows: seq<seq<Value>>, j: nat)
    requires j < |rows|
    ensures before + RowReports(lib, columns, rows[..j + 1]) ==
            before + RowReports(lib, columns, rows[..j]) + [ReportOf(lib, columns, rows[j])]
  {
  }

  method PivotSeries(lib: Lib, s: Series, ghost before: seq<Report>, m: map<string, HealthData>)
    returns (m': map<string, HealthData>)
    requires IsPivot(lib, before, m)
    ensures IsPivot(lib, before + RowReports(lib, s.columns, s.values), m')
  {
    m' := m;
    var index := IndexColumns(s.columns);
    assert before + RowReports(lib, s.columns, s.values[..0]) == before;
    for j := 0 to |s.values|
      invariant IsPivot(lib, before + RowReports(lib, s.columns, s.values[..j]), m')
    {
      var r := ReadReport(lib, index, s.columns, s.values[j]);
      PivotStep(lib, before + RowReports(lib, s.columns, s.values[..j]), r, m');
      RowReportsStep(lib, before, s.columns, s.values, j);
      m' := PivotRow(lib, r, m');
    }
    assert s.values[..|s.values|] == s.values;
  }

  method ParseHealthResult(lib: Lib, series: seq<Series>, now: int) returns (list: seq<HealthData>)
    ensures IsHealthList(lib, Reports(lib, series), now, list)
  {
    var deviceMap: map<string, HealthData> := map[];
    for i := 0 to |series|
      invariant IsPivot(lib, Reports(lib, series[..i]), deviceMap)
    {
      var s := series[i];
      ghost var before := Reports(lib, series[..i]);
      assert series[..i + 1][..i] == series[..i];
      if |s.columns| == 0 || |s.values| == 0 {
        assert Reports(lib, series[..i + 1]) == before;
        continue;
      }
      deviceMap := PivotSeries(lib, s, before, deviceMap);
    }
    assert series[..|series|] == series;
    list := CollectHealth(lib, Reports(lib, series), deviceMap, now);
  }

  lemma CollectStep(lib: Lib, rs: seq<Report>, now: int, list: seq<HealthData>, d: HealthData)
    requires AllGood(lib, rs, now, list) && IsGood(lib, rs, now, d) && !Listed(list, d.deviceSN)
    ensures AllGood(lib, rs, now, list + [d])
    ensures forall sn :: Listed(list + [d], sn) <==> Listed(list, sn) || sn == d.deviceSN
  {
    forall sn ensures Listed(list + [d], sn) <==> Listed(list, sn) || sn == d.deviceSN {
      if Listed(list, sn) {
        var i :| 0 <= i < |list| && list[i].deviceSN == sn;
        assert (list + [d])[i].deviceSN == sn;
      }
      assert (list + [d])[|list|] == d;
    }
    forall i | 0 <= i < |list| ensures list[i].deviceSN != d.deviceSN {
    }
  }

  /** The slice made from the map, in whatever order the map is walked. */
  method CollectHealth(lib: Lib, ghost rs: seq<Report>, deviceMap: map<string, HealthData>, now: int)
    returns (list: seq<HealthData>)
    requires IsPivot(lib, rs, deviceMap)
    ensures IsHealthList(lib, rs, now, list)
  {
    list := [];
    var keys := deviceMap.Keys;
    while keys != {}
      invariant keys <= deviceMap.Keys
      invariant AllGood(lib, rs, now, list)
      invariant forall sn :: Listed(list, sn) <==> sn in deviceMap && sn !in keys
      decreases keys
    {
      var sn :| sn in keys;
      var dev := deviceMap[sn];
      if dev.lastSeen == 0 {
        dev := dev.(status := "offline");
      } else if now - dev.lastSeen > OFFLINE_THRESHOLD {
        dev := dev.(status := "offline");
      } else {
        dev := dev.(status := "online");
      }
      StatusKeepsEntry(lib, rs, sn, deviceMap[sn], dev.status);
      CollectStep(lib, rs, now, list, dev);
      list := list + [dev];
      keys := keys - {sn};
    }
  }

  lemma StatusKeepsEntry(lib: Lib, rs: seq<Report>, sn: string, d: HealthData, status: string)
    requires IsEntry(lib, rs, sn, d)
    ensures IsEntry(lib, rs, sn, d.(status := status))
  {
    forall slot ensures Get(d.(status := status), slot) == Get(d, slot) {
    }
  }

  /** The specification leaves no freedom: two entries for one device over the same rows have the same
      contents, and two lists over the same rows hold the same entries. */
  lemma EntryIsDetermined(lib: Lib, rs: seq<Report>, sn: string, c: HealthData, d: HealthData)
    requires IsEntry(lib, rs, sn, c) && IsEntry(lib, rs, sn, d) && c.status == d.status
    ensures c == d
  {
    forall slot ensures Get(c, slot) == Get(d, slot) {
    }
    assert Get(c, Gateway) == Get(d, Gateway) && Get(c, Project) == Get(d, Project) && Get(c, Kind) == Get(d, Kind);
    assert Get(c, Model) == Get(d, Model) && Get(c, Uptime) == Get(d, Uptime) && Get(c, Temp) == Get(d, Temp);
    assert Get(c, Hum) == Get(d, Hum) && Get(c, Rssi) == Get(d, Rssi) && Get(c, ResetReason) == Get(d, ResetReason);
  }

  // ---- Order of the rows ----

  /** The two rows write different values to one slot of one device. */
  predicate Conflict(lib: Lib, a: Report, b: Report, slot: Slot) {
    && a.sn == b.sn != ""
    && Written(lib, a, slot).Some? && Written(lib, b, slot).Some?
    && Written(lib, a, slot) != Written(lib, b, slot)
  }

  ghost predicate Agree(lib: Lib, rs: seq<Report>) {
    forall i, j, slot :: 0 <= i < |rs| && 0 <= j < |rs| ==> !Conflict(lib, rs[i], rs[j], slot)
  }

  /** The two sequences of rows yield the same entries. */
  ghost predicate SameHealth(lib: Lib, a: seq<Report>, b: seq<Report>) {
    && (forall sn :: sn != "" ==> (Mentions(a, sn) <==> Mentions(b, sn)) && Latest(a, sn) == Latest(b, sn))
    && (forall sn, slot :: sn != "" ==> LastWritten(lib, a, sn, slot) == LastWritten(lib, b, sn, slot))
  }

  lemma {:induction false} LastWrittenExact(lib: Lib, rs: seq<Report>, sn: string, slot: Slot)
    ensures LastWritten(lib, rs, sn, slot).Some? ==>
      exists i :: 0 <= i < |rs| && Writes(lib, rs[i], sn, slot) &&
        Written(lib, rs[i], slot) == LastWritten(lib, rs, sn, slot)
    ensures LastWritten(lib, rs, sn, slot).None? ==> forall i :: 0 <= i < |rs| ==> !Writes(lib, rs[i], sn, slot)
  {
    if rs != [] {
      var init := rs[..|rs| - 1];
      LastWrittenExact(lib, init, sn, slot);
      if Writes(lib, rs[|rs| - 1], sn, slot) {
      } else if LastWritten(lib, init, sn, slot).Some? {
        var i :| 0 <= i < |init| && Writes(lib, init[i], sn, slot) &&
            Written(lib, init[i], slot) == LastWritten(lib, init, sn, slot);
        assert Writes(lib, rs[i], sn, slot);
      }
    }
  }

  lemma {:induction false} LatestExact(rs: seq<Report>, sn: string)
    ensures Latest(rs, sn) >= 0
    ensures forall i :: 0 <= i < |rs| && rs[i].sn == sn && rs[i].seen.Some? ==> rs[i].seen.value <= Latest(rs, sn)
    ensures Latest(rs, sn) == 0 || exists i :: 0 <= i < |rs| && rs[i].sn == sn && rs[i].seen == Some(Latest(rs, sn))
  {
    if rs != [] {
      var init := rs[..|rs| - 1];
      LatestExact(init, sn);
      if Latest(rs, sn) == Latest(init, sn) != 0 {
        var i :| 0 <= i < |init| && init[i].sn == sn && init[i].seen == Some(Latest(init, sn));
        assert rs[i].sn == sn;
      }
    }
  }

  lemma Relocate(a: seq<Report>, b: seq<Report>, i: nat) returns (j: nat)
    requires multiset(a) == multiset(b) && i < |a|
    ensures j < |b| && b[j] == a[i]
  {
    assert a[i] in multiset(a);
    assert a[i] in b;
    j :| 0 <= j < |b| && b[j] == a[i];
  }

  lemma LatestIgnoresOrder(a: seq<Report>, b: seq<Report>, sn: string)
    requires multiset(a) == multiset(b)
    ensures Latest(a, sn) <= Latest(b, sn)
  {
    LatestExact(a, sn);
    LatestExact(b, sn);
    if Latest(a, sn) != 0 {
      var i :| 0 <= i < |a| && a[i].sn == sn && a[i].seen == Some(Latest(a, sn));
      var j := Relocate(a, b, i);
    }
  }

  lemma WrittenIgnoresOrder(lib: Lib, a: seq<Report>, b: seq<Report>, sn: string, slot: Slot)
    requires multiset(a) == multiset(b) && Agree(lib, a) && sn != ""
    ensures LastWritten(lib, a, sn, slot) == LastWritten(lib, b, sn, slot)
  {
    LastWrittenExact(lib, a, sn, slot);
    LastWrittenExact(lib, b, sn, slot);
    if LastWritten(lib, a, sn, slot).Some? {
      var i :| 0 <= i < |a| && Writes(lib, a[i], sn, slot) && Written(lib, a[i], slot) == LastWritten(lib, a, sn, slot);
      var j := Relocate(a, b, i);
      assert Writes(lib, b[j], sn, slot);
    }
    if LastWritten(lib, b, sn, slot).Some? {
      var j :| 0 <= j < |b| && Writes(lib, b[j], sn, slot) && Written(lib, b[j], slot) == LastWritten(lib, b, sn, slot);
      var k := Relocate(b, a, j);
      assert Writes(lib, a[k], sn, slot);
      var i :| 0 <= i < |a| && Writes(lib, a[i], sn, slot) && Written(lib, a[i], slot) == LastWritten(lib, a, sn, slot);
      assert !Conflict(lib, a[i], a[k], slot);
    }
  }

  lemma MentionsIgnoresOrder(a: seq<Report>, b: seq<Report>, sn: string)
    requires multiset(a) == multiset(b) && Mentions(a, sn)
    ensures Mentions(b, sn)
  {
    var i :| 0 <= i < |a| && a[i].sn == sn;
    var j := Relocate(a, b, i);
  }

  /** Row i moved to the end. */
  function MovedLast(rs: seq<Report>, i: nat): seq<Report>
    requires i < |rs|
  {
    rs[..i] + rs[i + 1..] + [rs[i]]
  }

  lemma MovedLastIsPermutation(rs: seq<Report>, i: nat)
    requires i < |rs|
    ensures multiset(MovedLast(rs, i)) == multiset(rs)
  {
    assert rs == rs[..i] + [rs[i]] + rs[i + 1..];
  }

  lemma MovedLastWins(lib: Lib, rs: seq<Report>, i: nat, slot: Slot)
    requires i < |rs| && Written(lib, rs[i], slot).Some?
    ensures LastWritten(lib, MovedLast(rs, i), rs[i].sn, slot) == Written(lib, rs[i], slot)
  {
  }

  lemma AgreedOrderIrrelevant(lib: Lib, a: seq<Report>, b: seq<Report>)
    requires Agree(lib, a) && multiset(a) == multiset(b)
    ensures SameHealth(lib, a, b)
  {
    forall sn ensures Mentions(a, sn) <==> Mentions(b, sn) {
      if Mentions(a, sn) { MentionsIgnoresOrder(a, b, sn); }
      if Mentions(b, sn) { MentionsIgnoresOrder(b, a, sn); }
    }
    forall sn ensures Latest(a, sn) == Latest(b, sn) {
      LatestIgnoresOrder(a, b, sn);
      LatestIgnoresOrder(b, a, sn);
    }
    forall sn, slot | sn != "" ensures LastWritten(lib, a, sn, slot) == LastWritten(lib, b, sn, slot) {
      WrittenIgnoresOrder(lib, a, b, sn, slot);
    }
  }

  ghost predicate OrderIrrelevant(lib: Lib, rs: seq<Report>) {
    forall b :: multiset(b) == multiset(rs) ==> SameHealth(lib, rs, b)
  }

  lemma LastRowDecides(lib: Lib, rs: seq<Report>, i: nat, slot: Slot)
    requires OrderIrrelevant(lib, rs) && i < |rs| && rs[i].sn != "" && Written(lib, rs[i], slot).Some?
    ensures LastWritten(lib, rs, rs[i].sn, slot) == Written(lib, rs[i], slot)
  {
    MovedLastIsPermutation(rs, i);
    MovedLastWins(lib, rs, i, slot);
    assert SameHealth(lib, rs, MovedLast(rs, i));
  }

  /** The entries are the same for every order of the rows, hence of series and of rows within them, exactly
      when no two rows write different values to one slot of one device. */
  lemma OrderIrrelevantExactlyWhenAgreed(lib: Lib, rs: seq<Report>)
    ensures OrderIrrelevant(lib, rs) <==> Agree(lib, rs)
  {
    if Agree(lib, rs) {
      forall b | multiset(b) == multiset(rs) ensures SameHealth(lib, rs, b) {
        AgreedOrderIrrelevant(lib, rs, b);
      }
    }
    if OrderIrrelevant(lib, rs) {
      forall i, j, slot | 0 <= i < |rs| && 0 <= j < |rs| ensures !Conflict(lib, rs[i], rs[j], slot) {
        if rs[i].sn != "" && Written(lib, rs[i], slot).Some? { LastRowDecides(lib, rs, i, slot); }
        if rs[j].sn != "" && Written(lib, rs[j], slot).Some? { LastRowDecides(lib, rs, j, slot); }
      }
    }
  }

  lemma SameHealthSameDevice(lib: Lib, a: seq<Report>, b: seq<Report>, now: int, la: seq<HealthData>,
                             lb: seq<HealthData>, d: HealthData)
    requires SameHealth(lib, a, b) && IsHealthList(lib, a, now, la) && IsHealthList(lib, b, now, lb) && d in la
    ensures d in lb
  {
    var i :| 0 <= i < |la| && la[i] == d;
    assert IsGood(lib, a, now, la[i]);
    var sn := d.deviceSN;
    assert Listed(lb, sn);
    var j :| 0 <= j < |lb| && lb[j].deviceSN == sn;
    assert IsGood(lib, b, now, lb[j]);
    assert IsEntry(lib, a, sn, lb[j]);
    EntryIsDetermined(lib, a, sn, d, lb[j]);
  }

  /** So when the rows agree, any two results, whatever the order of the rows and of the map, hold the same devices. */
  lemma AgreedListsHoldSameDevices(lib: Lib, a: seq<Report>, b: seq<Report>, now: int, la: seq<HealthData>,
                                   lb: seq<HealthData>)
    requires Agree(lib, a) && multiset(a) == multiset(b)
    requires IsHealthList(lib, a, now, la) && IsHealthList(lib, b, now, lb)
    ensures forall d :: d in la <==> d in lb
  {
    AgreedOrderIrrelevant(lib, a, b);
    forall d | d in la ensures d in lb { SameHealthSameDevice(lib, a, b, now, la, lb, d); }
    forall d | d in lb ensures d in la { SameHealthSameDevice(lib, b, a, now, lb, la, d); }
  }
}
