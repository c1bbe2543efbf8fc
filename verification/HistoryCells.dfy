/**
 What parseTelemetryLatest and parseTelemetryHistory make of a result, in terms of the cells of its lines
 (internal/repository/telemetry/telemetry_repository_impl.go).
 */
module HistoryCells {
  import opened Common
  import opened Flux
  import opened History
  import opened LastWrites
  import opened Lines
  import opened Telemetry

  // ---- Latest telemetry ----

  /** The line gives a field of a device a value. */
  ghost predicate GivesLatest(lib: Lib, l: Line, sn: string, field: string) {
    sn != "" && Says(lib, l, sn, field) && ValueIn(l, "_value") != Nil
  }

  ghost predicate LastGives(lib: Lib, ls: seq<Line>, sn: string, field: string, k: nat) {
    && k < |ls| && GivesLatest(lib, ls[k], sn, field)
    && forall j :: k < j < |ls| ==> !GivesLatest(lib, ls[j], sn, field)
  }

  ghost predicate HasLineOf(lib: Lib, ls: seq<Line>, sn: string) { exists k: nat :: k < |ls| && IsOf(lib, ls[k], sn) }

  /** Known are the devices that lines are about, and of each of them the fields that some line gives a value, with the
      last such value. */
  ghost predicate IsLatestOf(lib: Lib, ls: seq<Line>, m: map<string, TelemetryData>) {
    && (forall sn :: sn in m <==> sn != "" && HasLineOf(lib, ls, sn))
    && (forall sn, f, k: nat :: LastGives(lib, ls, sn, f, k) ==>
          sn in m && f in m[sn] && m[sn][f] == ValueIn(ls[k], "_value"))
    && (forall sn, f :: sn in m && f in m[sn] ==> exists k: nat :: LastGives(lib, ls, sn, f, k))
  }

  /** What a line contributes. */
  function LatestOfLine(lib: Lib, l: Line): seq<Cell<string>> {
    var cell := LatestCell(lib, l.columns, l.row);
    if cell.Some? then [cell.value] else []
  }

  function LatestOfLines(lib: Lib, ls: seq<Line>): seq<Cell<string>> {
    if ls == [] then [] else LatestOfLines(lib, ls[..|ls| - 1]) + LatestOfLine(lib, ls[|ls| - 1])
  }

  lemma {:induction false} LatestOfSum(lib: Lib, a: seq<Line>, b: seq<Line>)
    ensures LatestOfLines(lib, a + b) == LatestOfLines(lib, a) + LatestOfLines(lib, b)
  {
    if b == [] {
      assert a + b == a;
    } else {
      assert (a + b)[..|a + b| - 1] == a + b[..|b| - 1];
      LatestOfSum(lib, a, b[..|b| - 1]);
    }
  }

  function LinesOfRows(columns: seq<string>, rows: seq<seq<Value>>): seq<Line> {
    seq(|rows|, j requires 0 <= j < |rows| => Line(columns, rows[j]))
  }

  lemma {:induction false} LatestOfRows(lib: Lib, columns: seq<string>, rows: seq<seq<Value>>)
    ensures LatestOfLines(lib, LinesOfRows(columns, rows)) == LatestRows(lib, columns, rows)
  {
    if rows != [] {
      var n := |rows| - 1;
      LatestOfRows(lib, columns, rows[..n]);
      assert LinesOfRows(columns, rows)[..n] == LinesOfRows(columns, rows[..n]);
    }
  }

  lemma LinesSplit(series: seq<Series>)
    requires series != []
    ensures var n := |series| - 1; var s := series[n];
      LinesOf(series) == LinesOf(series[..n]) + if s.columns == [] then [] else LinesOfRows(s.columns, s.values)
  {
  }

  lemma {:induction false} LatestCellsAreOfLines(lib: Lib, series: seq<Series>)
    ensures LatestCells(lib, series) == LatestOfLines(lib, LinesOf(series))
  {
    if series != [] {
      var n := |series| - 1;
      var s := series[n];
      var last := if s.columns == [] then [] else LinesOfRows(s.columns, s.values);
      LatestCellsAreOfLines(lib, series[..n]);
      LinesSplit(series);
      LatestOfSum(lib, LinesOf(series[..n]), last);
      LatestOfRows(lib, s.columns, s.values);
    }
  }

  lemma LineGives(lib: Lib, l: Line)
    ensures var sn, f, v := TextIn(lib, l, "device_sn"), TextIn(lib, l, "_field"), ValueIn(l, "_value");
      LatestOfLine(lib, l) == if sn == "" then [] else [Cell(sn, if v == Nil then None else Some((f, v)))]
  {
    CellIsField(l.columns, l.row, "device_sn");
    CellIsField(l.columns, l.row, "_field");
    CellIsField(l.columns, l.row, "_value");
  }

  /** The last write of a line's cells. */
  lemma LatestLineStep(lib: Lib, cells: seq<Cell<string>>, l: Line, sn: string, f: string)
    ensures LastWrite(cells + LatestOfLine(lib, l), sn, f) ==
            if GivesLatest(lib, l, sn, f) then Some(ValueIn(l, "_value")) else LastWrite(cells, sn, f)
    ensures Occurs(cells + LatestOfLine(lib, l), sn) <==> Occurs(cells, sn) || (sn != "" && IsOf(lib, l, sn))
  {
    LineGives(lib, l);
    var cell := LatestOfLine(lib, l);
    if cell == [] {
      assert cells + cell == cells;
    } else {
      assert (cells + cell)[..|cells + cell| - 1] == cells;
      OccursStep(cells, cell[0], sn);
      assert cells + cell == cells + [cell[0]];
    }
  }

  /** The value that the last such line gives. */
  ghost function LatestValue(lib: Lib, ls: seq<Line>, sn: string, f: string): Option<Value> {
    if ls == [] then None
    else if GivesLatest(lib, ls[|ls| - 1], sn, f) then Some(ValueIn(ls[|ls| - 1], "_value"))
    else LatestValue(lib, ls[..|ls| - 1], sn, f)
  }

  lemma {:induction false} LatestWritten(lib: Lib, ls: seq<Line>, sn: string, f: string)
    ensures LastWrite(LatestOfLines(lib, ls), sn, f) == LatestValue(lib, ls, sn, f)
  {
    if ls != [] {
      hide GivesLatest, ValueIn, LastWrite, LatestOfLine;
      LatestWritten(lib, ls[..|ls| - 1], sn, f);
      LatestLineStep(lib, LatestOfLines(lib, ls[..|ls| - 1]), ls[|ls| - 1], sn, f);
    }
  }

  lemma {:induction false} LatestValueOfLast(lib: Lib, ls: seq<Line>, sn: string, f: string, k: nat)
    requires LastGives(lib, ls, sn, f, k)
    ensures LatestValue(lib, ls, sn, f) == Some(ValueIn(ls[k], "_value"))
  {
    var n := |ls| - 1;
    hide GivesLatest, ValueIn;
    if k < n { LatestValueOfLast(lib, ls[..n], sn, f, k); }
  }

  lemma {:induction false} LatestValueIsGiven(lib: Lib, ls: seq<Line>, sn: string, f: string) returns (k: nat)
    requires LatestValue(lib, ls, sn, f).Some?
    ensures LastGives(lib, ls, sn, f, k)
  {
    hide GivesLatest, ValueIn;
    k := |ls| - 1;
    if !GivesLatest(lib, ls[k], sn, f) { k := LatestValueIsGiven(lib, ls[..k], sn, f); }
  }

  lemma {:induction false} LatestKnows(lib: Lib, ls: seq<Line>, sn: string)
    ensures Occurs(LatestOfLines(lib, ls), sn) <==> sn != "" && HasLineOf(lib, ls, sn)
  {
    if ls == [] {
      assert LatestOfLines(lib, ls) == [];
    } else {
      hide IsOf, Occurs, LatestOfLine;
      var n := |ls| - 1;
      LatestKnows(lib, ls[..n], sn);
      LatestLineStep(lib, LatestOfLines(lib, ls[..n]), ls[n], sn, "");
      if HasLineOf(lib, ls[..n], sn) {
        var k: nat :| k < n && IsOf(lib, ls[..n][k], sn);
        assert IsOf(lib, ls[k], sn);
      }
      if HasLineOf(lib, ls, sn) && !IsOf(lib, ls[n], sn) {
        var k: nat :| k < |ls| && IsOf(lib, ls[k], sn);
        assert IsOf(lib, ls[..n][k], sn);
      }
    }
  }

  lemma LastGivesIsOf(lib: Lib, ls: seq<Line>, sn: string, f: string, k: nat)
    requires LastGives(lib, ls, sn, f, k)
    ensures sn != "" && HasLineOf(lib, ls, sn) && k < |ls|
  {
    assert IsOf(lib, ls[k], sn);
  }

  lemma FieldIsGathered(lib: Lib, ls: seq<Line>, sn: string, f: string, k: nat)
    requires LastGives(lib, ls, sn, f, k)
    ensures var m := Gather(LatestOfLines(lib, ls)); sn in m && f in m[sn] && m[sn][f] == ValueIn(ls[k], "_value")
  {
    hide GivesLatest, HasLineOf, ValueIn, Occurs, LastWrite, LatestValue, LatestOfLines, Gather;
    LastGivesIsOf(lib, ls, sn, f, k);
    LatestKnows(lib, ls, sn);
    LatestWritten(lib, ls, sn, f);
    LatestValueOfLast(lib, ls, sn, f, k);
    GatherIsLastWrites(LatestOfLines(lib, ls), sn);
  }

  lemma GatheredIsGiven(lib: Lib, ls: seq<Line>, sn: string, f: string) returns (k: nat)
    requires var m := Gather(LatestOfLines(lib, ls)); sn in m && f in m[sn]
    ensures LastGives(lib, ls, sn, f, k)
  {
    hide *;
    LatestWritten(lib, ls, sn, f);
    GatherIsLastWrites(LatestOfLines(lib, ls), sn);
    k := LatestValueIsGiven(lib, ls, sn, f);
  }

  /** The result of parseTelemetryLatest is what the cells of the lines say. */
  lemma LatestIsInCells(lib: Lib, series: seq<Series>)
    ensures IsLatestOf(lib, LinesOf(series), Gather(LatestCells(lib, series)))
  {
    var ls := LinesOf(series);
    LatestCellsAreOfLines(lib, series);
    var m := Gather(LatestOfLines(lib, ls));
    hide LastGives, HasLineOf, ValueIn, LatestOfLines, Gather;
    forall sn ensures sn in m <==> sn != "" && HasLineOf(lib, ls, sn) {
      LatestKnows(lib, ls, sn);
      GatherIsLastWrites(LatestOfLines(lib, ls), sn);
    }
    forall sn, f, k: nat | LastGives(lib, ls, sn, f, k)
      ensures k < |ls| && sn in m && f in m[sn] && m[sn][f] == ValueIn(ls[k], "_value")
    {
      LastGivesIsOf(lib, ls, sn, f, k);
      FieldIsGathered(lib, ls, sn, f, k);
    }
    forall sn, f | sn in m && f in m[sn] ensures exists k: nat :: LastGives(lib, ls, sn, f, k) {
      var k := GatheredIsGiven(lib, ls, sn, f);
    }
  }

  // ---- History ----

  /** The line gives a field a value at a time. */
  ghost predicate GivesAt(lib: Lib, l: Line, t: Time, field: string) {
    field != "" && TimeIn(lib, l) == t && TextIn(lib, l, "_field") == field
  }

  ghost predicate LastGivesAt(lib: Lib, ls: seq<Line>, t: Time, field: string, k: nat) {
    && k < |ls| && GivesAt(lib, ls[k], t, field)
    && forall j :: k < j < |ls| ==> !GivesAt(lib, ls[j], t, field)
  }

  ghost predicate HasLineAt(lib: Lib, ls: seq<Line>, t: Time) { exists k: nat :: k < |ls| && TimeIn(lib, ls[k]) == t }

  ghost predicate HasRecordAt(records: seq<TelemetryRecord>, t: Time) {
    exists i :: 0 <= i < |records| && records[i].timestamp == t
  }

  /** The record has exactly the fields that lines of its time give, each with the last value. */
  ghost predicate IsRecordOf(lib: Lib, ls: seq<Line>, r: TelemetryRecord) {
    && (forall f, k: nat :: LastGivesAt(lib, ls, r.timestamp, f, k) ==>
          f in r.fields && r.fields[f] == ValueIn(ls[k], "_value"))
    && (forall f :: f in r.fields ==> exists k: nat :: LastGivesAt(lib, ls, r.timestamp, f, k))
  }

  /** There is one such record for exactly the times of the lines. */
  ghost predicate IsHistoryOf(lib: Lib, ls: seq<Line>, records: seq<TelemetryRecord>) {
    && (forall t :: HasRecordAt(records, t) <==> HasLineAt(lib, ls, t))
    && (forall i, j :: 0 <= i < j < |records| ==> records[i].timestamp != records[j].timestamp)
    && (forall i :: 0 <= i < |records| ==> IsRecordOf(lib, ls, records[i]))
  }

  lemma LineGivesAt(lib: Lib, l: Line)
    ensures var c, f := HistoryCell(lib, l.columns, l.row), TextIn(lib, l, "_field");
      c.key == TimeIn(lib, l) && c.write == if f == "" then None else Some((f, ValueIn(l, "_value")))
  {
    CellIsField(l.columns, l.row, "timestamp");
    CellIsField(l.columns, l.row, "_field");
    CellIsField(l.columns, l.row, "_value");
  }

  lemma {:induction false} HistoryCellsAreOfLines(lib: Lib, series: seq<Series>)
    ensures |HistoryCells(lib, series)| == |LinesOf(series)|
    ensures forall k :: 0 <= k < |LinesOf(series)| ==>
      HistoryCells(lib, series)[k] == HistoryCell(lib, LinesOf(series)[k].columns, LinesOf(series)[k].row)
  {
    if series != [] { HistoryCellsAreOfLines(lib, series[..|series| - 1]); }
  }

  ghost predicate MatchAt(lib: Lib, ls: seq<Line>, cells: seq<Cell<Time>>) {
    |cells| == |ls| && forall k :: 0 <= k < |ls| ==> cells[k] == HistoryCell(lib, ls[k].columns, ls[k].row)
  }

  /** The value that the last such line gives. */
  ghost function ValueAt(lib: Lib, ls: seq<Line>, t: Time, f: string): Option<Value> {
    if ls == [] then None
    else if GivesAt(lib, ls[|ls| - 1], t, f) then Some(ValueIn(ls[|ls| - 1], "_value"))
    else ValueAt(lib, ls[..|ls| - 1], t, f)
  }

  lemma {:induction false} WrittenAt(lib: Lib, ls: seq<Line>, cells: seq<Cell<Time>>, t: Time, f: string)
    requires MatchAt(lib, ls, cells)
    ensures LastWrite(cells, t, f) == ValueAt(lib, ls, t, f)
  {
    if ls != [] {
      hide GivesAt, ValueIn, HistoryCell, LastWrite;
      var n := |ls| - 1;
      WrittenAt(lib, ls[..n], cells[..n], t, f);
      WriteStep(lib, ls[n], cells, t, f);
    }
  }

  lemma {:induction false} ValueOfLast(lib: Lib, ls: seq<Line>, t: Time, f: string, k: nat)
    requires LastGivesAt(lib, ls, t, f, k)
    ensures ValueAt(lib, ls, t, f) == Some(ValueIn(ls[k], "_value"))
  {
    var n := |ls| - 1;
    hide GivesAt, ValueIn;
    if k < n { ValueOfLast(lib, ls[..n], t, f, k); }
  }

  lemma {:induction false} ValueIsGiven(lib: Lib, ls: seq<Line>, t: Time, f: string) returns (k: nat)
    requires ValueAt(lib, ls, t, f).Some?
    ensures LastGivesAt(lib, ls, t, f, k)
  {
    hide GivesAt, ValueIn;
    k := |ls| - 1;
    if !GivesAt(lib, ls[k], t, f) { k := ValueIsGiven(lib, ls[..k], t, f); }
  }

  lemma WriteStep(lib: Lib, l: Line, cells: seq<Cell<Time>>, t: Time, f: string)
    requires cells != [] && cells[|cells| - 1] == HistoryCell(lib, l.columns, l.row)
    ensures LastWrite(cells, t, f) ==
            if GivesAt(lib, l, t, f) then Some(ValueIn(l, "_value")) else LastWrite(cells[..|cells| - 1], t, f)
  {
    hide CellOf, HistoryCell;
    LineGivesAt(lib, l);
  }

  lemma OccursAt(lib: Lib, ls: seq<Line>, cells: seq<Cell<Time>>, t: Time)
    requires MatchAt(lib, ls, cells)
    ensures Occurs(cells, t) <==> HasLineAt(lib, ls, t)
  {
    hide HistoryCell, TimeIn;
    forall k | 0 <= k < |ls| ensures cells[k].key == TimeIn(lib, ls[k]) {
      LineGivesAt(lib, ls[k]);
    }
  }

  lemma RecordIsInCells(lib: Lib, ls: seq<Line>, cells: seq<Cell<Time>>, t: Time)
    requires MatchAt(lib, ls, cells) && t in Gather(cells)
    ensures IsRecordOf(lib, ls, TelemetryRecord(t, Gather(cells)[t]))
  {
    hide MatchAt, GivesAt, ValueIn, LastWrite, Occurs, Gather, ValueAt;
    GatherIsLastWrites(cells, t);
    forall f, k: nat | LastGivesAt(lib, ls, t, f, k)
      ensures f in Gather(cells)[t] && Gather(cells)[t][f] == ValueIn(ls[k], "_value")
    {
      WrittenAt(lib, ls, cells, t, f);
      ValueOfLast(lib, ls, t, f, k);
    }
    forall f | f in Gather(cells)[t] ensures exists k: nat :: LastGivesAt(lib, ls, t, f, k) {
      WrittenAt(lib, ls, cells, t, f);
      var k := ValueIsGiven(lib, ls, t, f);
    }
  }

  /** The result of parseTelemetryHistory is what the cells of the lines say. */
  lemma HistoryIsInCells(lib: Lib, series: seq<Series>, records: seq<TelemetryRecord>)
    requires IsRecords(Gather(HistoryCells(lib, series)), records)
    ensures IsHistoryOf(lib, LinesOf(series), records)
  {
    var ls, cells := LinesOf(series), HistoryCells(lib, series);
    HistoryCellsAreOfLines(lib, series);
    forall t ensures HasRecordAt(records, t) <==> HasLineAt(lib, ls, t) {
      OccursAt(lib, ls, cells, t);
      GatherIsLastWrites(cells, t);
      RecordAtKey(Gather(cells), records, t);
    }
    forall i | 0 <= i < |records| ensures IsRecordOf(lib, ls, records[i]) {
      RecordIsInCells(lib, ls, cells, records[i].timestamp);
    }
  }

  lemma RecordAtKey(m: map<Time, map<string, Value>>, records: seq<TelemetryRecord>, t: Time)
    requires IsRecords(m, records)
    ensures HasRecordAt(records, t) <==> t in m
  {
    if t in m { assert TelemetryRecord(t, m[t]) in records; }
  }
}
