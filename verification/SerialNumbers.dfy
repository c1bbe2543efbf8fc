/**
 A serial number on its way from the cell of a Flux result to the payload of all devices: parseValue
 reads it, toString writes it back, and the payload looks the device's serial number up under the
 result (internal/repository/telemetry/telemetry_repository_impl.go,
 internal/service/telemetry/telemetry_service_impl.go).
 */
module SerialNumbers {
  import opened Common
  import opened Decimal
  import opened DevicePayload
  import opened Devices
  import opened Flux
  import opened FluxCsv
  import opened History
  import opened LastWrites
  import opened Telemetry
  import Grouping
  import HealthPivot

  /** strconv.Atoi: an optional sign, then digits, for a 64-bit integer. */
  function Atoi(s: string): Option<int> {
    var unsigned := if s != "" && (s[0] == '+' || s[0] == '-') then s[1..] else s;
    if unsigned == "" || !AllDigits(unsigned) then None else
    var i := if s[0] == '-' then -(ReadDigits(unsigned) as int) else ReadDigits(unsigned);
    if MIN_INT <= i <= MAX_INT then Some(i) else None
  }

  /** The library reads integers as strconv.Atoi does. */
  ghost predicate ReadsIntegers(lib: Lib) { forall s :: lib.atoi(s) == Atoi(s) }

  /** Text that is read as an integer but is not how that integer is written: leading zeros, a plus sign, "-0". */
  predicate Padded(s: string) { Atoi(s).Some? && !WellFormed(s) }

  /** What becomes of a cell's text. */
  function Rewritten(lib: Lib, s: string): string { ToText(lib, ParseValue(lib, s)) }

  /** When a text comes back as it was: one that is read as an integer exactly when it is not padded, one that is
      read as a float exactly when it is how that float is printed, and one that is no number always. */
  lemma TextSurvivesExactlyWhen(lib: Lib, s: string)
    requires ReadsIntegers(lib)
    ensures Atoi(s).Some? ==> (Rewritten(lib, s) == s <==> !Padded(s))
    ensures Atoi(s).Some? ==> WellFormed(Rewritten(lib, s)) && Read(Rewritten(lib, s)) == Atoi(s).value
    ensures s != "" && Atoi(s).None? && lib.float(s).Some? ==>
      (Rewritten(lib, s) == s <==> lib.showFloat(lib.float(s).value) == s)
    ensures Atoi(s).None? && lib.float(s).None? ==> Rewritten(lib, s) == s
  {
    if Atoi(s).Some? {
      NumeralReads(Atoi(s).value);
      if WellFormed(s) {
        WellFormedIsNumeral(s);
      }
    }
  }

  /** "007" is read as 7 and comes back as "7". */
  lemma LeadingZerosAreLost(lib: Lib)
    requires ReadsIntegers(lib)
    ensures Padded("007") && Rewritten(lib, "007") == "7"
  {
    assert ReadDigits("") == 0;
    assert "0"[..0] == "" && "00"[..1] == "0" && "007"[..2] == "00";
    assert ReadDigits("0") == 0;
    assert ReadDigits("00") == 0;
    assert ReadDigits("007") == 7;
    assert Digits(7) == Digits(0) + "7";
  }

  // ---- Serial numbers that no result can have ----

  /** No cell comes back as this text. */
  ghost predicate Missed(lib: Lib, sn: string) { forall s :: Rewritten(lib, s) != sn }

  /** The text of a float is read as that float, or as an integer of which it is the numeral. */
  predicate ReadsBack(lib: Lib, x: Number) {
    var t := lib.showFloat(x);
    if Atoi(t).Some? then WellFormed(t) else lib.float(t) == Some(x)
  }

  /** The library prints floats in their shortest form, as %v does: what it prints it reads back, but for negative
      zero, which is printed as "-0". */
  ghost predicate PrintsFloats(lib: Lib) {
    && lib.float("-0.0") == Some(NegativeZero) && lib.showFloat(NegativeZero) == "-0"
    && forall s :: lib.float(s).Some? && lib.float(s).value != NegativeZero ==> ReadsBack(lib, lib.float(s).value)
  }

  /** What was rewritten once is not rewritten again, but for "-0". */
  lemma RewrittenStays(lib: Lib, s: string)
    requires ReadsIntegers(lib) && PrintsFloats(lib) && Rewritten(lib, s) != "-0"
    ensures Rewritten(lib, Rewritten(lib, s)) == Rewritten(lib, s)
  {
    var t := Rewritten(lib, s);
    TextSurvivesExactlyWhen(lib, s);
    TextSurvivesExactlyWhen(lib, t);
    if ParseValue(lib, s).Float? { assert ReadsBack(lib, lib.float(s).value); }
  }

  lemma NegativeZeroIsPrinted(lib: Lib)
    requires ReadsIntegers(lib) && PrintsFloats(lib)
    ensures Rewritten(lib, "-0.0") == "-0"
  {
    assert "-0.0"[1..] == "0.0" && !IsDigit("0.0"[1]);
    assert Atoi("-0.0") == None;
  }

  /** No cell comes back as a text exactly when the text itself does not, "-0" apart: that one is rewritten to "0",
      but it is what becomes of "-0.0". */
  lemma MissedExactlyWhenRewritten(lib: Lib, sn: string)
    requires ReadsIntegers(lib) && PrintsFloats(lib)
    ensures Missed(lib, sn) <==> Rewritten(lib, sn) != sn && sn != "-0"
  {
    if Missed(lib, sn) {
      NegativeZeroIsPrinted(lib);
      assert Rewritten(lib, "-0.0") != sn;
    } else {
      var s :| Rewritten(lib, s) == sn;
      if sn != "-0" { RewrittenStays(lib, s); }
    }
  }

  /** Such a library exists. */
  lemma SomeLibraryPrintsSo()
    ensures exists lib :: ReadsIntegers(lib) && PrintsFloats(lib)
  {
    var lib := Lib(s => Atoi(s), s => if s == "-0.0" then Some(NegativeZero) else None, x => "-0", t => None);
    assert ReadsIntegers(lib) && PrintsFloats(lib);
  }

  ghost predicate OfCell(lib: Lib, v: Value) { exists s :: v == ParseValue(lib, s) }

  ghost predicate RowOfCells(lib: Lib, row: seq<Value>) { forall k :: 0 <= k < |row| ==> OfCell(lib, row[k]) }

  ghost predicate SeriesOfCells(lib: Lib, s: Series) {
    forall j :: 0 <= j < |s.values| ==> RowOfCells(lib, s.values[j])
  }

  ghost predicate OfCells(lib: Lib, series: seq<Series>) {
    forall i :: 0 <= i < |series| ==> SeriesOfCells(lib, series[i])
  }

  lemma {:induction false} RowHoldsCells(lib: Lib, header: seq<string>, row: seq<string>)
    ensures RowOfCells(lib, RowValues(lib, header, row))
  {
    if header != [] {
      var n := |header| - 1;
      RowHoldsCells(lib, header[..n], row);
      assert CellValue(lib, row, n) == ParseValue(lib, if n < |row| then row[n] else "");
    }
  }

  /** Whatever parseFluxCSV returns holds parsed cells only. */
  lemma ParsedSeriesHoldCells(lib: Lib, header: seq<string>, rows: seq<seq<string>>, series: seq<Series>)
    requires IsGrouping(lib, header, rows, series)
    ensures OfCells(lib, series)
  {
    var ks := KeysOf(lib, header, rows);
    forall i, j | 0 <= i < |series| && 0 <= j < |series[i].values| ensures RowOfCells(lib, series[i].values[j]) {
      assert IsSeries(lib, header, rows, Grouping.Distinct(ks)[i], series[i]);
      RowHoldsCells(lib, header, rows[Grouping.Positions(ks, Grouping.Distinct(ks)[i])[j]]);
    }
  }

  lemma FieldMisses(lib: Lib, columns: seq<string>, row: seq<Value>, name: string, sn: string)
    requires Missed(lib, sn) && RowOfCells(lib, row)
    ensures Or(TextField(lib, columns, row, name), "") != sn
  {
    var cell := Field(columns, row, name);
    assert Rewritten(lib, "") == "";
    if cell.Some? {
      var s :| cell.value == ParseValue(lib, s);
      assert Rewritten(lib, s) != sn;
    }
  }

  lemma {:induction false} NoReportOf(lib: Lib, series: seq<Series>, sn: string)
    requires Missed(lib, sn) && OfCells(lib, series)
    ensures !HealthPivot.Mentions(HealthPivot.Reports(lib, series), sn)
  {
    if series != [] {
      var n := |series| - 1;
      NoReportOf(lib, series[..n], sn);
      var s := series[n];
      forall j | 0 <= j < |s.values| ensures HealthPivot.ReportOf(lib, s.columns, s.values[j]).sn != sn {
        FieldMisses(lib, s.columns, s.values[j], "device_sn", sn);
      }
      NotMentioned(HealthPivot.Reports(lib, series[..n]), HealthPivot.RowReports(lib, s.columns, s.values), sn);
    }
  }

  lemma NotMentioned(a: seq<HealthPivot.Report>, b: seq<HealthPivot.Report>, sn: string)
    requires !HealthPivot.Mentions(a, sn) && forall i :: 0 <= i < |b| ==> b[i].sn != sn
    ensures !HealthPivot.Mentions(a + b, sn) && a + [] == a
  {
  }

  lemma {:induction false} NoRowOf(lib: Lib, columns: seq<string>, rows: seq<seq<Value>>, sn: string)
    requires Missed(lib, sn) && forall j :: 0 <= j < |rows| ==> RowOfCells(lib, rows[j])
    ensures !Occurs(LatestRows(lib, columns, rows), sn)
  {
    if rows != [] {
      var n := |rows| - 1;
      NoRowOf(lib, columns, rows[..n], sn);
      FieldMisses(lib, columns, rows[n], "device_sn", sn);
      var cell := LatestCell(lib, columns, rows[n]);
      NotOccurring(LatestRows(lib, columns, rows[..n]), if cell.Some? then [cell.value] else [], sn);
    }
  }

  lemma NotOccurring(a: seq<Cell<string>>, b: seq<Cell<string>>, sn: string)
    requires !Occurs(a, sn) && !Occurs(b, sn)
    ensures !Occurs(a + b, sn)
  {
  }

  lemma {:induction false} NoCellOf(lib: Lib, series: seq<Series>, sn: string)
    requires Missed(lib, sn) && OfCells(lib, series)
    ensures !Occurs(LatestCells(lib, series), sn)
  {
    if series != [] {
      var n := |series| - 1;
      var s := series[n];
      NoCellOf(lib, series[..n], sn);
      NoRowOf(lib, s.columns, s.values, sn);
      NotOccurring(LatestCells(lib, series[..n]),
                   if s.columns == [] then [] else LatestRows(lib, s.columns, s.values), sn);
    }
  }

  // ---- What the payload shows of a device ----

  lemma {:induction false} LastHealthExact(list: seq<HealthData>, sn: string)
    ensures LastHealth(list, sn).Some? <==> HealthPivot.Listed(list, sn)
    ensures LastHealth(list, sn).Some? ==>
      exists i :: 0 <= i < |list| && list[i].deviceSN == sn && LastHealth(list, sn) == Some(list[i])
  {
    if list != [] {
      var n := |list| - 1;
      LastHealthExact(list[..n], sn);
      if list[n].deviceSN != sn && HealthPivot.Listed(list, sn) {
        var i :| 0 <= i < |list| && list[i].deviceSN == sn;
        assert list[..n][i].deviceSN == sn;
      }
    }
  }

  /** The payload finds the health of a device exactly when its serial number is not empty and some row reports it,
      and then it is the entry that the rows determine. */
  lemma HealthFoundExactlyWhenReported(lib: Lib, rs: seq<HealthPivot.Report>, now: int, list: seq<HealthData>,
                                       sn: string)
    requires HealthPivot.IsHealthList(lib, rs, now, list)
    ensures LastHealth(list, sn).Some? <==> sn != "" && HealthPivot.Mentions(rs, sn)
    ensures LastHealth(list, sn).Some? ==>
      LastHealth(list, sn).value.deviceSN == sn && HealthPivot.IsGood(lib, rs, now, LastHealth(list, sn).value)
  {
    LastHealthExact(list, sn);
    if HealthPivot.Listed(list, sn) {
      var i :| 0 <= i < |list| && list[i].deviceSN == sn;
      assert HealthPivot.IsGood(lib, rs, now, list[i]);
    }
  }

  /** What the service makes of the two query results. */
  ghost predicate Results(lib: Lib, health: seq<Series>, latest: seq<Series>, now: int, list: seq<HealthData>,
                          telemetry: map<string, TelemetryData>)
  {
    && OfCells(lib, health) && OfCells(lib, latest)
    && HealthPivot.IsHealthList(lib, HealthPivot.Reports(lib, health), now, list)
    && telemetry == Gather(LatestCells(lib, latest))
  }

  function OfflineEntry(d: Device): DeviceEntry {
    DeviceEntry(BlankHealth(d.serial).(deviceName := d.alias, kind := KindOf(d), status := "offline"), map[])
  }

  /** Whatever the database holds, the device is shown offline and without telemetry. */
  ghost predicate AlwaysOffline(lib: Lib, d: Device) {
    forall health, latest, now, list, telemetry :: Results(lib, health, latest, now, list, telemetry) ==>
      Join(list, telemetry, d) == OfflineEntry(d)
  }

  lemma UnreportedIsOffline(lib: Lib, health: seq<Series>, latest: seq<Series>, now: int, list: seq<HealthData>,
                            telemetry: map<string, TelemetryData>, d: Device)
    requires Results(lib, health, latest, now, list, telemetry) && (d.serial == "" || Missed(lib, d.serial))
    ensures Join(list, telemetry, d) == OfflineEntry(d)
  {
    HealthFoundExactlyWhenReported(lib, HealthPivot.Reports(lib, health), now, list, d.serial);
    GatherIsLastWrites(LatestCells(lib, latest), d.serial);
    if d.serial == "" {
      LatestHasSerial(lib, latest);
    } else {
      NoReportOf(lib, health, d.serial);
      NoCellOf(lib, latest, d.serial);
    }
  }

  /** A result of one row with one cell, the serial number. */
  function OneRow(lib: Lib, s: string): Series { Series("", map[], ["device_sn"], [[ParseValue(lib, s)]]) }

  lemma OneRowIsRead(lib: Lib, s: string)
    ensures OfCells(lib, [OneRow(lib, s)])
    ensures var o := OneRow(lib, s);
      HealthPivot.Reports(lib, [o]) == [HealthPivot.ReportOf(lib, o.columns, o.values[0])]
    ensures HealthPivot.Reports(lib, [OneRow(lib, s)])[0].sn == Rewritten(lib, s)
  {
    var o := OneRow(lib, s);
    assert [o][..0] == [];
    assert HealthPivot.Reports(lib, [o]) == [] + HealthPivot.RowReports(lib, o.columns, o.values);
    assert LastIndex(["device_sn"], "device_sn") == Some(0);
    assert OfCell(lib, ParseValue(lib, s));
  }

  /** The health entries that a single report makes. */
  lemma OneReport(lib: Lib, r: HealthPivot.Report, now: int) returns (list: seq<HealthData>)
    ensures HealthPivot.IsHealthList(lib, [r], now, list)
  {
    list := [];
    HealthPivot.PivotStep(lib, [], r, map[]);
    assert [] + [r] == [r];
    var m := HealthPivot.Pivoted(lib, map[], r);
    if r.sn != "" {
      var d := m[r.sn].(status := HealthPivot.Status(now, m[r.sn].lastSeen));
      HealthPivot.StatusKeepsEntry(lib, [r], r.sn, m[r.sn], d.status);
      HealthPivot.CollectStep(lib, [r], now, [], d);
      list := [] + [d];
    }
  }

  lemma OneRowResults(lib: Lib, s: string, now: int) returns (list: seq<HealthData>)
    ensures var o := [OneRow(lib, s)]; Results(lib, o, o, now, list, Gather(LatestCells(lib, o)))
    ensures forall sn :: LastHealth(list, sn).Some? <==> sn != "" && sn == Rewritten(lib, s)
  {
    var rs := HealthPivot.Reports(lib, [OneRow(lib, s)]);
    OneRowIsRead(lib, s);
    list := OneReport(lib, rs[0], now);
    forall sn ensures LastHealth(list, sn).Some? <==> sn != "" && sn == Rewritten(lib, s) {
      HealthFoundExactlyWhenReported(lib, rs, now, list, sn);
      assert HealthPivot.Mentions(rs, sn) <==> rs[0].sn == sn;
    }
  }

  /** A device is always shown offline exactly when its serial number is empty or is one that the parser rewrites,
      "-0" apart. */
  lemma AlwaysOfflineExactlyWhen(lib: Lib, d: Device)
    requires ReadsIntegers(lib) && PrintsFloats(lib)
    ensures AlwaysOffline(lib, d) <==> d.serial == "" || (Rewritten(lib, d.serial) != d.serial && d.serial != "-0")
  {
    MissedExactlyWhenRewritten(lib, d.serial);
    if d.serial == "" || Missed(lib, d.serial) {
      forall health, latest, now, list, telemetry | Results(lib, health, latest, now, list, telemetry)
        ensures Join(list, telemetry, d) == OfflineEntry(d)
      {
        UnreportedIsOffline(lib, health, latest, now, list, telemetry, d);
      }
    } else {
      var s :| Rewritten(lib, s) == d.serial;
      CanBeShown(lib, s, d);
    }
  }

  lemma CanBeShown(lib: Lib, s: string, d: Device)
    requires d.serial != "" && Rewritten(lib, s) == d.serial
    ensures !AlwaysOffline(lib, d)
  {
    var o := [OneRow(lib, s)];
    var list := OneRowResults(lib, s, 0);
    var telemetry := Gather(LatestCells(lib, o));
    assert Results(lib, o, o, 0, list, telemetry);
    OneRowKind(lib, s, 0, list, d.serial);
    assert Join(list, telemetry, d).health.kind == "";
  }

  /** A row without a type cell leaves the type empty. */
  lemma OneRowKind(lib: Lib, s: string, now: int, list: seq<HealthData>, sn: string)
    requires HealthPivot.IsHealthList(lib, HealthPivot.Reports(lib, [OneRow(lib, s)]), now, list)
    requires LastHealth(list, sn).Some?
    ensures LastHealth(list, sn).value.kind == ""
  {
    var rs := HealthPivot.Reports(lib, [OneRow(lib, s)]);
    var o := OneRow(lib, s);
    OneRowIsRead(lib, s);
    HealthFoundExactlyWhenReported(lib, rs, now, list, sn);
    assert o.columns[0][0] != "type"[0];
    assert "type" !in o.columns;
    assert LastIndex(o.columns, "type") == None;
    assert rs[0].kind == None;
    assert rs[..0] == [];
    assert HealthPivot.Written(lib, rs[0], HealthPivot.Kind) == None;
    assert HealthPivot.LastWritten(lib, rs, sn, HealthPivot.Kind) == None;
    var d := LastHealth(list, sn).value;
    assert HealthPivot.Get(d, HealthPivot.Kind) == HealthPivot.Get(BlankHealth(sn), HealthPivot.Kind);
  }

  /** In terms a caller can check: what is read as an integer is always offline when padded ("-0" apart), what is read
      as a float when it is not how that float is printed, and what is no number never. */
  lemma OfflineSerials(lib: Lib, d: Device)
    requires ReadsIntegers(lib) && PrintsFloats(lib) && d.serial != ""
    ensures Atoi(d.serial).Some? ==> (AlwaysOffline(lib, d) <==> Padded(d.serial) && d.serial != "-0")
    ensures Atoi(d.serial).None? && lib.float(d.serial).Some? && d.serial != "-0" ==>
      (AlwaysOffline(lib, d) <==> lib.showFloat(lib.float(d.serial).value) != d.serial)
    ensures Atoi(d.serial).None? && lib.float(d.serial).None? ==> !AlwaysOffline(lib, d)
  {
    AlwaysOfflineExactlyWhen(lib, d);
    TextSurvivesExactlyWhen(lib, d.serial);
  }

  // ---- Devices whose own rows are in the database ----

  /** A row's serial number cell is this text. */
  ghost predicate IsRowOf(lib: Lib, columns: seq<string>, row: seq<Value>, sn: string) {
    Field(columns, row, "device_sn") == Some(ParseValue(lib, sn))
  }

  ghost predicate HasRowOf(lib: Lib, s: Series, sn: string) {
    exists j :: 0 <= j < |s.values| && IsRowOf(lib, s.columns, s.values[j], sn)
  }

  ghost predicate HoldsRowOf(lib: Lib, series: seq<Series>, sn: string) {
    exists i :: 0 <= i < |series| && HasRowOf(lib, series[i], sn)
  }

  ghost predicate BothHold(lib: Lib, health: seq<Series>, latest: seq<Series>, sn: string) {
    HoldsRowOf(lib, health, sn) && HoldsRowOf(lib, latest, sn)
  }

  /** Every place of a device with this serial number has the telemetry of that number, and its last health entry
      under the device's alias. */
  ghost predicate ShownIn(list: seq<HealthData>, telemetry: map<string, TelemetryData>, sn: string) {
    forall devices: seq<Device>, payload: Payload, k, p: nat, n: nat ::
      IsPayload(list, telemetry, devices, payload) && StandsAt(devices, payload, k, p, n) ==>
      n < |devices| && (devices[n].serial == sn ==> HasBoth(list, telemetry, devices[n], payload[k][p]))
  }

  ghost predicate HasBoth(list: seq<HealthData>, telemetry: map<string, TelemetryData>, d: Device, e: DeviceEntry) {
    && d.serial in telemetry && e.telemetry == telemetry[d.serial]
    && exists i: nat :: LastOf(list, d.serial, i) && e.health == list[i].(deviceName := d.alias)
  }

  /** Whenever both results hold rows of the device, the payload shows its health and its telemetry. */
  ghost predicate ShownWhenHeld(lib: Lib, sn: string) {
    forall health, latest, now, list, telemetry ::
      Results(lib, health, latest, now, list, telemetry) && BothHold(lib, health, latest, sn) ==>
      LastHealth(list, sn).Some? && sn in telemetry && ShownIn(list, telemetry, sn)
  }

  lemma MentionedInSum(a: seq<HealthPivot.Report>, b: seq<HealthPivot.Report>, sn: string)
    requires HealthPivot.Mentions(a, sn) || HealthPivot.Mentions(b, sn)
    ensures HealthPivot.Mentions(a + b, sn)
  {
    if HealthPivot.Mentions(a, sn) {
      var i :| 0 <= i < |a| && a[i].sn == sn;
      assert (a + b)[i].sn == sn;
    } else {
      var i :| 0 <= i < |b| && b[i].sn == sn;
      assert (a + b)[|a| + i].sn == sn;
    }
  }

  /** What one series adds to the reports. */
  function Added(lib: Lib, s: Series): seq<HealthPivot.Report> {
    if s.columns == [] then [] else HealthPivot.RowReports(lib, s.columns, s.values)
  }

  lemma RowsAreReported(lib: Lib, s: Series, sn: string)
    requires HasRowOf(lib, s, sn)
    ensures HealthPivot.Mentions(Added(lib, s), Rewritten(lib, sn))
  {
    var j :| 0 <= j < |s.values| && IsRowOf(lib, s.columns, s.values[j], sn);
    assert Added(lib, s)[j].sn == Rewritten(lib, sn);
  }

  lemma ReportsAdded(lib: Lib, series: seq<Series>)
    requires series != []
    ensures HealthPivot.Reports(lib, series) ==
            HealthPivot.Reports(lib, series[..|series| - 1]) + Added(lib, series[|series| - 1])
  {
  }

  lemma {:induction false} RowIsReported(lib: Lib, series: seq<Series>, sn: string, i: nat)
    requires i < |series| && HasRowOf(lib, series[i], sn)
    ensures HealthPivot.Mentions(HealthPivot.Reports(lib, series), Rewritten(lib, sn))
  {
    hide *;
    var n := |series| - 1;
    if i < n { RowIsReported(lib, series[..n], sn, i); } else { RowsAreReported(lib, series[n], sn); }
    MentionedInSum(HealthPivot.Reports(lib, series[..n]), Added(lib, series[n]), Rewritten(lib, sn));
    ReportsAdded(lib, series);
  }

  lemma OccursInSum(a: seq<Cell<string>>, b: seq<Cell<string>>, sn: string)
    requires Occurs(a, sn) || Occurs(b, sn)
    ensures Occurs(a + b, sn)
  {
    if Occurs(a, sn) {
      var i :| 0 <= i < |a| && a[i].key == sn;
      assert (a + b)[i].key == sn;
    } else {
      var i :| 0 <= i < |b| && b[i].key == sn;
      assert (a + b)[|a| + i].key == sn;
    }
  }

  lemma {:induction false} RowOccurs(lib: Lib, columns: seq<string>, rows: seq<seq<Value>>, sn: string, j: nat)
    requires j < |rows| && IsRowOf(lib, columns, rows[j], sn) && Rewritten(lib, sn) != ""
    ensures Occurs(LatestRows(lib, columns, rows), Rewritten(lib, sn))
  {
    var n := |rows| - 1;
    var cell := LatestCell(lib, columns, rows[n]);
    var last := if cell.Some? then [cell.value] else [];
    if j < n {
      RowOccurs(lib, columns, rows[..n], sn, j);
    } else {
      assert last[0].key == Rewritten(lib, sn);
    }
    OccursInSum(LatestRows(lib, columns, rows[..n]), last, Rewritten(lib, sn));
  }

  lemma RowsOccur(lib: Lib, s: Series, sn: string)
    requires HasRowOf(lib, s, sn) && Rewritten(lib, sn) != ""
    ensures s.columns != [] && Occurs(LatestRows(lib, s.columns, s.values), Rewritten(lib, sn))
  {
    var j :| 0 <= j < |s.values| && IsRowOf(lib, s.columns, s.values[j], sn);
    RowOccurs(lib, s.columns, s.values, sn, j);
  }

  lemma {:induction false} RowIsGathered(lib: Lib, series: seq<Series>, sn: string, i: nat)
    requires i < |series| && HasRowOf(lib, series[i], sn) && Rewritten(lib, sn) != ""
    ensures Occurs(LatestCells(lib, series), Rewritten(lib, sn))
  {
    var n := |series| - 1;
    var s := series[n];
    var last := if s.columns == [] then [] else LatestRows(lib, s.columns, s.values);
    if i < n {
      RowIsGathered(lib, series[..n], sn, i);
    } else {
      RowsOccur(lib, s, sn);
    }
    OccursInSum(LatestCells(lib, series[..n]), last, Rewritten(lib, sn));
  }

  lemma KeptIsShown(lib: Lib, health: seq<Series>, latest: seq<Series>, now: int, list: seq<HealthData>,
                    telemetry: map<string, TelemetryData>, sn: string)
    requires Results(lib, health, latest, now, list, telemetry) && BothHold(lib, health, latest, sn)
    requires sn != "" && Rewritten(lib, sn) == sn
    ensures LastHealth(list, sn).Some? && sn in telemetry
  {
    var i :| 0 <= i < |health| && HasRowOf(lib, health[i], sn);
    RowIsReported(lib, health, sn, i);
    HealthFoundExactlyWhenReported(lib, HealthPivot.Reports(lib, health), now, list, sn);
    var k :| 0 <= k < |latest| && HasRowOf(lib, latest[k], sn);
    RowIsGathered(lib, latest, sn, k);
    GatherIsLastWrites(LatestCells(lib, latest), sn);
  }

  lemma {:induction false} LastOfExists(list: seq<HealthData>, sn: string) returns (i: nat)
    requires LastHealth(list, sn).Some?
    ensures LastOf(list, sn, i)
  {
    i := |list| - 1;
    if list[i].deviceSN != sn { i := LastOfExists(list[..i], sn); }
  }

  lemma FoundIsShown(list: seq<HealthData>, telemetry: map<string, TelemetryData>, sn: string)
    requires LastHealth(list, sn).Some? && sn in telemetry
    ensures ShownIn(list, telemetry, sn)
  {
    var i := LastOfExists(list, sn);
    forall devices: seq<Device>, payload: Payload, k, p: nat, n: nat
      | IsPayload(list, telemetry, devices, payload) && StandsAt(devices, payload, k, p, n)
      ensures n < |devices| && (devices[n].serial == sn ==> HasBoth(list, telemetry, devices[n], payload[k][p]))
    {
      PayloadShowsDevices(list, telemetry, devices, payload);
      assert Shows(list, telemetry, devices[n], payload[k][p]);
    }
  }

  /** The payload shows a device whenever the database holds its rows exactly when the parser keeps its serial number
      as it is: for every library, and for "-0" too. */
  lemma ShownWhenHeldExactlyWhenKept(lib: Lib, sn: string)
    requires sn != ""
    ensures ShownWhenHeld(lib, sn) <==> Rewritten(lib, sn) == sn
  {
    if Rewritten(lib, sn) == sn {
      forall health, latest, now, list, telemetry
        | Results(lib, health, latest, now, list, telemetry) && BothHold(lib, health, latest, sn)
        ensures LastHealth(list, sn).Some? && sn in telemetry && ShownIn(list, telemetry, sn)
      {
        KeptIsShown(lib, health, latest, now, list, telemetry, sn);
        FoundIsShown(list, telemetry, sn);
      }
    } else {
      var o := [OneRow(lib, sn)];
      var list := OneRowResults(lib, sn, 0);
      assert IsRowOf(lib, o[0].columns, o[0].values[0], sn) && HasRowOf(lib, o[0], sn);
      assert Results(lib, o, o, 0, list, Gather(LatestCells(lib, o))) && BothHold(lib, o, o, sn);
    }
  }
}
