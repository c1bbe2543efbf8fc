/**
 What parseHealthResult makes of a result, in terms of the cells of its lines
 (internal/repository/telemetry/telemetry_repository_impl.go).
 */
module HealthCells {
  import opened Common
  import opened Flux
  import opened HealthPivot
  import opened Lines
  import opened Telemetry

  /** Line k is the last about a field of a device. */
  ghost predicate LastSays(lib: Lib, ls: seq<Line>, sn: string, field: string, k: nat) {
    && k < |ls| && Says(lib, ls[k], sn, field)
    && forall j :: k < j < |ls| ==> !Says(lib, ls[j], sn, field)
  }

  ghost predicate NoneSays(lib: Lib, ls: seq<Line>, sn: string, field: string) {
    forall j :: 0 <= j < |ls| ==> !Says(lib, ls[j], sn, field)
  }

  /** The number in the "_value" cell of the last line about the field; 0 without such a line. */
  ghost predicate IsNumber(lib: Lib, ls: seq<Line>, sn: string, field: string, x: Number) {
    && (forall k: nat :: LastSays(lib, ls, sn, field, k) ==> x == ToFloat(ValueIn(ls[k], "_value")))
    && (NoneSays(lib, ls, sn, field) ==> x == Finite(0.0))
  }

  /** The text of the "_value" cell of the last line about the field; empty without such a line. */
  ghost predicate IsText(lib: Lib, ls: seq<Line>, sn: string, field: string, s: string) {
    && (forall k: nat :: LastSays(lib, ls, sn, field, k) ==> s == TextIn(lib, ls[k], "_value"))
    && (NoneSays(lib, ls, sn, field) ==> s == "")
  }

  ghost predicate Tags(lib: Lib, l: Line, sn: string, tag: string) {
    IsOf(lib, l, sn) && CellOf(l.columns, l.row, tag).Some?
  }

  ghost predicate LastTags(lib: Lib, ls: seq<Line>, sn: string, tag: string, k: nat) {
    && k < |ls| && Tags(lib, ls[k], sn, tag)
    && forall j :: k < j < |ls| ==> !Tags(lib, ls[j], sn, tag)
  }

  ghost predicate NoneTags(lib: Lib, ls: seq<Line>, sn: string, tag: string) {
    forall j :: 0 <= j < |ls| ==> !Tags(lib, ls[j], sn, tag)
  }

  /** The text of the tag's cell in the device's last line that has one; empty without such a line. */
  ghost predicate IsTagText(lib: Lib, ls: seq<Line>, sn: string, tag: string, s: string) {
    && (forall k: nat :: LastTags(lib, ls, sn, tag, k) ==> s == TextIn(lib, ls[k], tag))
    && (NoneTags(lib, ls, sn, tag) ==> s == "")
  }

  /** A line of the device has a readable "timestamp" cell, for this instant. */
  ghost predicate SeenIn(lib: Lib, l: Line, sn: string, instant: int) {
    var cell := CellOf(l.columns, l.row, "timestamp");
    IsOf(lib, l, sn) && cell.Some? && cell.value.Text? && lib.time(cell.value.s).Some?
    && lib.time(cell.value.s).value.instant == instant
  }

  /** The latest of those instants and 0. */
  ghost predicate IsLatest(lib: Lib, ls: seq<Line>, sn: string, instant: int) {
    && instant >= 0
    && (forall k: nat, t :: k < |ls| && SeenIn(lib, ls[k], sn, t) ==> t <= instant)
    && (instant == 0 || exists k: nat :: k < |ls| && SeenIn(lib, ls[k], sn, instant))
  }

  ghost predicate HasFieldsOf(lib: Lib, ls: seq<Line>, d: HealthData) {
    && IsNumber(lib, ls, d.deviceSN, "uptime", d.uptime) && IsNumber(lib, ls, d.deviceSN, "temp", d.temp)
    && IsNumber(lib, ls, d.deviceSN, "hum", d.hum) && IsNumber(lib, ls, d.deviceSN, "rssi", d.rssi)
    && IsText(lib, ls, d.deviceSN, "reset_reason", d.resetReason)
  }

  ghost predicate HasTagsOf(lib: Lib, ls: seq<Line>, d: HealthData) {
    && IsTagText(lib, ls, d.deviceSN, "gateway_sn", d.gatewaySN) && IsTagText(lib, ls, d.deviceSN, "project", d.project)
    && IsTagText(lib, ls, d.deviceSN, "type", d.kind) && IsTagText(lib, ls, d.deviceSN, "model", d.model)
  }

  /** An entry member by member. */
  ghost predicate IsEntryOf(lib: Lib, ls: seq<Line>, now: int, d: HealthData) {
    && d.deviceSN != "" && (exists k: nat :: k < |ls| && IsOf(lib, ls[k], d.deviceSN)) && d.deviceName == ""
    && HasFieldsOf(lib, ls, d) && HasTagsOf(lib, ls, d) && IsLatest(lib, ls, d.deviceSN, d.lastSeen)
    && d.status == if d.lastSeen != 0 && now - d.lastSeen <= 30_000_000_000 then "online" else "offline"
  }

  lemma {:induction false} ReportsAreLines(lib: Lib, series: seq<Series>)
    ensures |Reports(lib, series)| == |LinesOf(series)|
    ensures forall k :: 0 <= k < |LinesOf(series)| ==>
      Reports(lib, series)[k] == ReportOf(lib, LinesOf(series)[k].columns, LinesOf(series)[k].row)
  {
    if series != [] {
      ReportsAreLines(lib, series[..|series| - 1]);
    }
  }

  /** What a report takes from its line. */
  lemma ReportReadsLine(lib: Lib, l: Line)
    ensures var r := ReportOf(lib, l.columns, l.row);
      && r.sn == TextIn(lib, l, "device_sn") && r.field == TextIn(lib, l, "_field") && r.value == ValueIn(l, "_value")
      && (forall t :: r.seen == Some(t) <==> SeenIn(lib, l, r.sn, t))
    ensures var r := ReportOf(lib, l.columns, l.row);
      && (r.gateway.Some? <==> Tags(lib, l, r.sn, "gateway_sn")) && Or(r.gateway, "") == TextIn(lib, l, "gateway_sn")
      && (r.project.Some? <==> Tags(lib, l, r.sn, "project")) && Or(r.project, "") == TextIn(lib, l, "project")
      && (r.kind.Some? <==> Tags(lib, l, r.sn, "type")) && Or(r.kind, "") == TextIn(lib, l, "type")
      && (r.model.Some? <==> Tags(lib, l, r.sn, "model")) && Or(r.model, "") == TextIn(lib, l, "model")
  {
    CellIsField(l.columns, l.row, "device_sn");
    CellIsField(l.columns, l.row, "_field");
    CellIsField(l.columns, l.row, "_value");
    CellIsField(l.columns, l.row, "timestamp");
    CellIsField(l.columns, l.row, "gateway_sn");
    CellIsField(l.columns, l.row, "project");
    CellIsField(l.columns, l.row, "type");
    CellIsField(l.columns, l.row, "model");
  }

  /** The last write to a slot is that of the last report that writes it. */
  lemma {:induction false} LastWriteIsLast(lib: Lib, rs: seq<Report>, sn: string, slot: Slot, k: nat)
    requires k < |rs| && Writes(lib, rs[k], sn, slot)
    requires forall j :: k < j < |rs| ==> !Writes(lib, rs[j], sn, slot)
    ensures LastWritten(lib, rs, sn, slot) == Written(lib, rs[k], slot)
  {
    var n := |rs| - 1;
    if k < n { LastWriteIsLast(lib, rs[..n], sn, slot, k); }
  }

  lemma {:induction false} NoWrite(lib: Lib, rs: seq<Report>, sn: string, slot: Slot)
    requires forall j :: 0 <= j < |rs| ==> !Writes(lib, rs[j], sn, slot)
    ensures LastWritten(lib, rs, sn, slot) == None
  {
    if rs != [] { NoWrite(lib, rs[..|rs| - 1], sn, slot); }
  }

  /** The reports are those of the lines. */
  ghost predicate Match(lib: Lib, ls: seq<Line>, rs: seq<Report>) {
    |rs| == |ls| && forall k :: 0 <= k < |ls| ==> rs[k] == ReportOf(lib, ls[k].columns, ls[k].row)
  }

  predicate HoldsNumber(slot: Slot, field: string) {
    (slot == Uptime && field == "uptime") || (slot == Temp && field == "temp") || (slot == Hum && field == "hum")
    || (slot == Rssi && field == "rssi")
  }

  predicate HoldsField(slot: Slot, field: string) {
    HoldsNumber(slot, field) || (slot == ResetReason && field == "reset_reason")
  }

  predicate HoldsTag(slot: Slot, tag: string) {
    (slot == Gateway && tag == "gateway_sn") || (slot == Project && tag == "project") || (slot == Kind && tag == "type")
    || (slot == Model && tag == "model")
  }

  lemma FieldNames(slot: Slot, field: string, f: string)
    requires HoldsField(slot, field)
    ensures FieldSlot(f) == Some(slot) <==> f == field
  {
    assert "uptime"[0] != "temp"[0] && "uptime"[0] != "hum"[0];
    assert "uptime"[0] != "rssi"[0] && "uptime"[0] != "reset_reason"[0];
    assert "temp"[0] != "hum"[0] && "temp"[0] != "rssi"[0] && "temp"[0] != "reset_reason"[0];
    assert "hum"[0] != "rssi"[0] && "hum"[0] != "reset_reason"[0] && "rssi"[1] != "reset_reason"[1];
  }

  lemma FieldWritten(lib: Lib, l: Line, sn: string, slot: Slot, field: string)
    requires HoldsField(slot, field)
    ensures Writes(lib, ReportOf(lib, l.columns, l.row), sn, slot) <==> Says(lib, l, sn, field)
  {
    hide CellOf, FieldSlot;
    ReportReadsLine(lib, l);
    FieldNames(slot, field, TextIn(lib, l, "_field"));
  }

  lemma NumberWritten(lib: Lib, l: Line, sn: string, slot: Slot, field: string)
    requires HoldsNumber(slot, field) && Says(lib, l, sn, field)
    ensures Written(lib, ReportOf(lib, l.columns, l.row), slot) == Some(Float(ToFloat(ValueIn(l, "_value"))))
  {
    hide CellOf, FieldSlot, ReportOf;
    ReportReadsLine(lib, l);
    FieldNames(slot, field, TextIn(lib, l, "_field"));
  }

  lemma TextWritten(lib: Lib, l: Line, sn: string)
    requires Says(lib, l, sn, "reset_reason")
    ensures Written(lib, ReportOf(lib, l.columns, l.row), ResetReason) == Some(Text(TextIn(lib, l, "_value")))
  {
    ValueIsWrittenAsText(lib, l);
    hide CellOf, FieldSlot, ReportOf;
    ReportReadsLine(lib, l);
    FieldNames(ResetReason, "reset_reason", TextIn(lib, l, "_field"));
  }

  lemma ValueIsWrittenAsText(lib: Lib, l: Line)
    ensures ToText(lib, ValueIn(l, "_value")) == TextIn(lib, l, "_value")
  {
  }

  lemma TagWritten(lib: Lib, l: Line, sn: string, slot: Slot, tag: string)
    requires HoldsTag(slot, tag)
    ensures var r := ReportOf(lib, l.columns, l.row);
      && (Writes(lib, r, sn, slot) <==> Tags(lib, l, sn, tag))
      && (Tags(lib, l, sn, tag) ==> Written(lib, r, slot) == Some(Text(TextIn(lib, l, tag))))
  {
    hide CellOf, ReportOf;
    ReportReadsLine(lib, l);
  }

  lemma FieldGathered(lib: Lib, ls: seq<Line>, rs: seq<Report>, sn: string, slot: Slot, field: string)
    requires HoldsField(slot, field) && Match(lib, ls, rs)
    ensures forall k: nat :: LastSays(lib, ls, sn, field, k) ==>
      LastWritten(lib, rs, sn, slot) == Written(lib, ReportOf(lib, ls[k].columns, ls[k].row), slot)
    ensures NoneSays(lib, ls, sn, field) ==> LastWritten(lib, rs, sn, slot) == None
  {
    hide Says, Writes, Written, ReportOf, HoldsField;
    forall k | 0 <= k < |ls| ensures Writes(lib, rs[k], sn, slot) <==> Says(lib, ls[k], sn, field) {
      FieldWritten(lib, ls[k], sn, slot, field);
    }
    forall k: nat | LastSays(lib, ls, sn, field, k)
      ensures LastWritten(lib, rs, sn, slot) == Written(lib, ReportOf(lib, ls[k].columns, ls[k].row), slot)
    {
      LastWriteIsLast(lib, rs, sn, slot, k);
    }
    if NoneSays(lib, ls, sn, field) { NoWrite(lib, rs, sn, slot); }
  }

  lemma SlotIsGathered(lib: Lib, rs: seq<Report>, sn: string, slot: Slot, d: HealthData)
    requires IsEntry(lib, rs, sn, d)
    ensures Get(d, slot) == Or(LastWritten(lib, rs, sn, slot), Get(BlankHealth(sn), slot))
  {
  }

  lemma NumberGathered(lib: Lib, ls: seq<Line>, rs: seq<Report>, sn: string, slot: Slot, field: string, d: HealthData)
    requires HoldsNumber(slot, field) && Match(lib, ls, rs) && IsEntry(lib, rs, sn, d)
    ensures Get(d, slot).Float? && IsNumber(lib, ls, sn, field, Get(d, slot).x)
  {
    hide LastSays, NoneSays, Match, IsEntry, ValueIn, ToFloat;
    forall k: nat | LastSays(lib, ls, sn, field, k)
      ensures k < |ls| && Get(d, slot) == Float(ToFloat(ValueIn(ls[k], "_value")))
    {
      NumberSaid(lib, ls, rs, sn, slot, field, d, k);
    }
    if NoneSays(lib, ls, sn, field) { NumberUnsaid(lib, ls, rs, sn, slot, field, d); }
  }

  lemma NumberUnsaid(lib: Lib, ls: seq<Line>, rs: seq<Report>, sn: string, slot: Slot, field: string, d: HealthData)
    requires HoldsNumber(slot, field) && Match(lib, ls, rs) && IsEntry(lib, rs, sn, d) && NoneSays(lib, ls, sn, field)
    ensures Get(d, slot) == Float(Finite(0.0))
  {
    hide NoneSays, Match, IsEntry;
    FieldGathered(lib, ls, rs, sn, slot, field);
    SlotIsGathered(lib, rs, sn, slot, d);
  }

  lemma NumberSaid(lib: Lib, ls: seq<Line>, rs: seq<Report>, sn: string, slot: Slot, field: string, d: HealthData,
                   k: nat)
    requires HoldsNumber(slot, field) && Match(lib, ls, rs) && IsEntry(lib, rs, sn, d)
    requires LastSays(lib, ls, sn, field, k)
    ensures k < |ls| && Get(d, slot) == Float(ToFloat(ValueIn(ls[k], "_value")))
  {
    hide Match, IsEntry, ValueIn, ToFloat, ReportOf, Written, LastWritten;
    FieldGathered(lib, ls, rs, sn, slot, field);
    SlotIsGathered(lib, rs, sn, slot, d);
    NumberWritten(lib, ls[k], sn, slot, field);
  }

  lemma TextGathered(lib: Lib, ls: seq<Line>, rs: seq<Report>, sn: string, d: HealthData)
    requires Match(lib, ls, rs) && IsEntry(lib, rs, sn, d)
    ensures IsText(lib, ls, sn, "reset_reason", d.resetReason)
  {
    hide Says, ReportOf, Written;
    FieldGathered(lib, ls, rs, sn, ResetReason, "reset_reason");
    SlotIsGathered(lib, rs, sn, ResetReason, d);
    forall k: nat | LastSays(lib, ls, sn, "reset_reason", k) ensures d.resetReason == TextIn(lib, ls[k], "_value") {
      TextWritten(lib, ls[k], sn);
    }
  }

  lemma TagGathered(lib: Lib, ls: seq<Line>, rs: seq<Report>, sn: string, slot: Slot, tag: string, d: HealthData)
    requires HoldsTag(slot, tag) && Match(lib, ls, rs) && IsEntry(lib, rs, sn, d)
    ensures Get(d, slot).Text? && IsTagText(lib, ls, sn, tag, Get(d, slot).s)
  {
    hide Tags, ReportOf, Writes, Written, TextIn;
    forall k | 0 <= k < |ls|
      ensures Writes(lib, rs[k], sn, slot) <==> Tags(lib, ls[k], sn, tag)
      ensures Tags(lib, ls[k], sn, tag) ==> Written(lib, rs[k], slot) == Some(Text(TextIn(lib, ls[k], tag)))
    {
      TagWritten(lib, ls[k], sn, slot, tag);
    }
    SlotIsGathered(lib, rs, sn, slot, d);
    forall k: nat | LastTags(lib, ls, sn, tag, k) ensures Get(d, slot) == Text(TextIn(lib, ls[k], tag)) {
      LastWriteIsLast(lib, rs, sn, slot, k);
    }
    if NoneTags(lib, ls, sn, tag) { NoWrite(lib, rs, sn, slot); }
  }

  lemma LineIsSeen(lib: Lib, l: Line, sn: string, t: int)
    ensures var r := ReportOf(lib, l.columns, l.row); SeenIn(lib, l, sn, t) <==> r.sn == sn && r.seen == Some(t)
  {
    ReportReadsLine(lib, l);
  }

  lemma SeenGathered(lib: Lib, ls: seq<Line>, rs: seq<Report>, sn: string)
    requires Match(lib, ls, rs)
    ensures IsLatest(lib, ls, sn, Latest(rs, sn))
  {
    hide SeenIn, ReportOf, Latest;
    LatestExact(rs, sn);
    forall k: nat, t | k < |ls| && SeenIn(lib, ls[k], sn, t) ensures t <= Latest(rs, sn) {
      LineIsSeen(lib, ls[k], sn, t);
      assert rs[k].seen == Some(t);
    }
    if Latest(rs, sn) != 0 {
      var k: nat :| k < |rs| && rs[k].sn == sn && rs[k].seen == Some(Latest(rs, sn));
      LineIsSeen(lib, ls[k], sn, Latest(rs, sn));
      assert SeenIn(lib, ls[k], sn, Latest(rs, sn));
    }
  }

  lemma EntryHasFields(lib: Lib, ls: seq<Line>, rs: seq<Report>, d: HealthData)
    requires Match(lib, ls, rs) && IsEntry(lib, rs, d.deviceSN, d)
    ensures HasFieldsOf(lib, ls, d)
  {
    hide IsNumber, IsText, IsEntry, Match;
    NumberGathered(lib, ls, rs, d.deviceSN, Uptime, "uptime", d);
    NumberGathered(lib, ls, rs, d.deviceSN, Temp, "temp", d);
    NumberGathered(lib, ls, rs, d.deviceSN, Hum, "hum", d);
    NumberGathered(lib, ls, rs, d.deviceSN, Rssi, "rssi", d);
    TextGathered(lib, ls, rs, d.deviceSN, d);
  }

  lemma EntryHasTags(lib: Lib, ls: seq<Line>, rs: seq<Report>, d: HealthData)
    requires Match(lib, ls, rs) && IsEntry(lib, rs, d.deviceSN, d)
    ensures HasTagsOf(lib, ls, d)
  {
    hide IsTagText, IsEntry, Match;
    TagGathered(lib, ls, rs, d.deviceSN, Gateway, "gateway_sn", d);
    TagGathered(lib, ls, rs, d.deviceSN, Project, "project", d);
    TagGathered(lib, ls, rs, d.deviceSN, Kind, "type", d);
    TagGathered(lib, ls, rs, d.deviceSN, Model, "model", d);
  }

  lemma MentionedIsOf(lib: Lib, ls: seq<Line>, rs: seq<Report>, sn: string)
    requires Match(lib, ls, rs)
    ensures Mentions(rs, sn) <==> exists k: nat :: k < |ls| && IsOf(lib, ls[k], sn)
  {
    hide ReportOf, TextIn;
    forall k | 0 <= k < |ls| ensures rs[k].sn == TextIn(lib, ls[k], "device_sn") {
      ReportReadsLine(lib, ls[k]);
    }
  }

  lemma GoodIsEntryOf(lib: Lib, ls: seq<Line>, rs: seq<Report>, now: int, d: HealthData)
    requires Match(lib, ls, rs) && IsGood(lib, rs, now, d)
    ensures IsEntryOf(lib, ls, now, d)
  {
    hide Match, HasFieldsOf, HasTagsOf, IsLatest, Mentions, IsOf;
    MentionedIsOf(lib, ls, rs, d.deviceSN);
    EntryHasFields(lib, ls, rs, d);
    EntryHasTags(lib, ls, rs, d);
    SeenGathered(lib, ls, rs, d.deviceSN);
  }

  /** Every entry is, member by member, what the cells of the device's lines say; and every device that a line is about
      has exactly one entry. */
  lemma HealthIsInCells(lib: Lib, series: seq<Series>, now: int, list: seq<HealthData>)
    requires IsHealthList(lib, Reports(lib, series), now, list)
    ensures forall i :: 0 <= i < |list| ==> IsEntryOf(lib, LinesOf(series), now, list[i])
    ensures forall i, j :: 0 <= i < j < |list| ==> list[i].deviceSN != list[j].deviceSN
    ensures forall k :: 0 <= k < |LinesOf(series)| && TextIn(lib, LinesOf(series)[k], "device_sn") != "" ==>
      exists i :: 0 <= i < |list| && list[i].deviceSN == TextIn(lib, LinesOf(series)[k], "device_sn")
  {
    var ls, rs := LinesOf(series), Reports(lib, series);
    ReportsAreLines(lib, series);
    forall i | 0 <= i < |list| ensures IsEntryOf(lib, ls, now, list[i]) {
      GoodIsEntryOf(lib, ls, rs, now, list[i]);
    }
    forall k | 0 <= k < |ls| && TextIn(lib, ls[k], "device_sn") != ""
      ensures exists i :: 0 <= i < |list| && list[i].deviceSN == TextIn(lib, ls[k], "device_sn")
    {
      MentionedIsOf(lib, ls, rs, TextIn(lib, ls[k], "device_sn"));
      assert IsOf(lib, ls[k], TextIn(lib, ls[k], "device_sn"));
    }
  }
}
