/**
 parseTelemetryLatest and parseTelemetryHistory: fields gathered per device or per timestamp, and the
 history put in order by the exchange sort written out in the code
 (internal/repository/telemetry/telemetry_repository_impl.go).
 */
module History {
  import opened Common
  import opened Flux
  import opened LastWrites
  import opened Telemetry

  function NonNil(cell: Option<Value>): Value { if cell.Some? then cell.value else Nil }

  // ---- Latest telemetry, per device ----

  /** A row without a serial number is skipped; a nil value makes the device known and writes nothing. */
  function LatestCell(lib: Lib, columns: seq<string>, row: seq<Value>): Option<Cell<string>> {
    var sn := Or(TextField(lib, columns, row, "device_sn"), "");
    var value := NonNil(Field(columns, row, "_value"));
    if sn == "" then None
    else Some(Cell(sn, if value == Nil then None else Some((Or(TextField(lib, columns, row, "_field"), ""), value))))
  }

  function LatestRows(lib: Lib, columns: seq<string>, rows: seq<seq<Value>>): seq<Cell<string>> {
    if rows == [] then [] else
    var cell := LatestCell(lib, columns, rows[|rows| - 1]);
    LatestRows(lib, columns, rows[..|rows| - 1]) + if cell.Some? then [cell.value] else []
  }

  function LatestCells(lib: Lib, series: seq<Series>): seq<Cell<string>> {
    if series == [] then [] else
    var s := series[|series| - 1];
    LatestCells(lib, series[..|series| - 1]) + if s.columns == [] then [] else LatestRows(lib, s.columns, s.values)
  }

  method ReadLatestCell(lib: Lib, index: map<string, nat>, columns: seq<string>, row: seq<Value>)
    returns (cell: Option<Cell<string>>)
    requires IsIndex(index, columns)
    ensures cell == LatestCell(lib, columns, row)
  {
    var snCell := ReadText(lib, index, columns, row, "device_sn");
    var sn := Or(snCell, "");
    if sn == "" {
      return None;
    }
    var fieldName := ReadText(lib, index, columns, row, "_field");
    var value := ReadField(index, columns, row, "_value");
    if value.Some? && value.value != Nil {
      return Some(Cell(sn, Some((Or(fieldName, ""), value.value))));
    }
    return Some(Cell(sn, None));
  }

  lemma LatestRowsGrow(lib: Lib, columns: seq<string>, rows: seq<seq<Value>>, j: nat)
    requires j < |rows|
    ensures var cell := LatestCell(lib, columns, rows[j]);
      LatestRows(lib, columns, rows[..j + 1]) ==
      LatestRows(lib, columns, rows[..j]) + if cell.Some? then [cell.value] else []
  {
    assert rows[..j + 1][..j] == rows[..j];
  }

  lemma LatestRowsStep(lib: Lib, before: seq<Cell<string>>, columns: seq<string>, rows: seq<seq<Value>>, j: nat)
    requires j < |rows|
    ensures var cell := LatestCell(lib, columns, rows[j]); var done := before + LatestRows(lib, columns, rows[..j]);
      Gather(before + LatestRows(lib, columns, rows[..j + 1])) ==
      if cell.Some? then Add(Gather(done), cell.value) else Gather(done)
  {
    var cell, done := LatestCell(lib, columns, rows[j]), LatestRows(lib, columns, rows[..j]);
    LatestRowsGrow(lib, columns, rows, j);
    if cell.Some? {
      GatherStep(before + done, cell.value);
      assert before + (done + [cell.value]) == before + done + [cell.value];
    } else {
      assert done + [] == done;
    }
  }

  method LatestOfSeries(lib: Lib, s: Series, ghost before: seq<Cell<string>>, m: map<string, TelemetryData>)
    returns (m': map<string, TelemetryData>)
    requires m == Gather(before)
    ensures m' == Gather(before + LatestRows(lib, s.columns, s.values))
  {
    m' := m;
    var index := IndexColumns(s.columns);
    assert before + LatestRows(lib, s.columns, s.values[..0]) == before;
    for j := 0 to |s.values|
      invariant m' == Gather(before + LatestRows(lib, s.columns, s.values[..j]))
    {
      LatestRowsStep(lib, before, s.columns, s.values, j);
      var cell := ReadLatestCell(lib, index, s.columns, s.values[j]);
      if cell.None? {
        continue;
      }
      m' := AddCell(m', cell.value);
    }
    assert s.values[..|s.values|] == s.values;
  }

  method ParseTelemetryLatest(lib: Lib, series: seq<Series>) returns (m: map<string, TelemetryData>)
    ensures m == Gather(LatestCells(lib, series))
    ensures forall sn :: sn in m ==> sn != ""
  {
    m := map[];
    for i := 0 to |series|
      invariant m == Gather(LatestCells(lib, series[..i]))
    {
      var s := series[i];
      assert series[..i + 1][..i] == series[..i];
      ghost var before := LatestCells(lib, series[..i]);
      if |s.columns| == 0 || |s.values| == 0 {
        assert LatestCells(lib, series[..i + 1]) == before;
        continue;
      }
      m := LatestOfSeries(lib, s, before, m);
    }
    assert series[..|series|] == series;
    forall sn | sn in m ensures sn != "" {
      GatherIsLastWrites(LatestCells(lib, series), sn);
      LatestHasSerial(lib, series);
    }
  }

  lemma LatestRowsHaveSerial(lib: Lib, columns: seq<string>, rows: seq<seq<Value>>)
    ensures forall k :: 0 <= k < |LatestRows(lib, columns, rows)| ==> LatestRows(lib, columns, rows)[k].key != ""
  {
    if rows != [] { LatestRowsHaveSerial(lib, columns, rows[..|rows| - 1]); }
  }

  lemma LatestHasSerial(lib: Lib, series: seq<Series>)
    ensures forall k :: 0 <= k < |LatestCells(lib, series)| ==> LatestCells(lib, series)[k].key != ""
  {
    if series != [] {
      LatestHasSerial(lib, series[..|series| - 1]);
      var s := series[|series| - 1];
      LatestRowsHaveSerial(lib, s.columns, s.values);
    }
  }

  // ---- History, per timestamp ----

  /** A row without a readable timestamp counts for the zero time. */
  function TimeOf(lib: Lib, cell: Option<Value>): Time {
    if cell.Some? && cell.value.Text? && lib.time(cell.value.s).Some? then lib.time(cell.value.s).value else ZERO_TIME
  }

  function HistoryCell(lib: Lib, columns: seq<string>, row: seq<Value>): Cell<Time> {
    var field := Or(TextField(lib, columns, row, "_field"), "");
    Cell(TimeOf(lib, Field(columns, row, "timestamp")),
         if field == "" then None else Some((field, NonNil(Field(columns, row, "_value")))))
  }

  function HistoryRows(lib: Lib, columns: seq<string>, rows: seq<seq<Value>>): seq<Cell<Time>> {
    seq(|rows|, i requires 0 <= i < |rows| => HistoryCell(lib, columns, rows[i]))
  }

  function HistoryCells(lib: Lib, series: seq<Series>): seq<Cell<Time>> {
    if series == [] then [] else
    var s := series[|series| - 1];
    HistoryCells(lib, series[..|series| - 1]) + if s.columns == [] then [] else HistoryRows(lib, s.columns, s.values)
  }

  method ReadHistoryCell(lib: Lib, index: map<string, nat>, columns: seq<string>, row: seq<Value>)
    returns (cell: Cell<Time>)
    requires IsIndex(index, columns)
    ensures cell == HistoryCell(lib, columns, row)
  {
    var ts := ReadField(index, columns, row, "timestamp");
    var timestamp := ZERO_TIME;
    if ts.Some? && ts.value.Text? && lib.time(ts.value.s).Some? {
      timestamp := lib.time(ts.value.s).value;
    }
    var fieldName := ReadText(lib, index, columns, row, "_field");
    var value := ReadField(index, columns, row, "_value");
    var fieldValue := if value.Some? then value.value else Nil;
    if Or(fieldName, "") != "" {
      return Cell(timestamp, Some((Or(fieldName, ""), fieldValue)));
    }
    return Cell(timestamp, None);
  }

  lemma HistoryRowsGrow(lib: Lib, columns: seq<string>, rows: seq<seq<Value>>, j: nat)
    requires j < |rows|
    ensures HistoryRows(lib, columns, rows[..j + 1]) ==
            HistoryRows(lib, columns, rows[..j]) + [HistoryCell(lib, columns, rows[j])]
  {
  }

  lemma GatherMore(before: seq<Cell<Time>>, done: seq<Cell<Time>>, cell: Cell<Time>)
    ensures Gather(before + (done + [cell])) == Add(Gather(before + done), cell)
  {
    GatherStep(before + done, cell);
    assert before + done + [cell] == before + (done + [cell]);
  }

  lemma HistoryRowsStep(lib: Lib, before: seq<Cell<Time>>, columns: seq<string>, rows: seq<seq<Value>>, j: nat)
    requires j < |rows|
    ensures Gather(before + HistoryRows(lib, columns, rows[..j + 1])) ==
            Add(Gather(before + HistoryRows(lib, columns, rows[..j])), HistoryCell(lib, columns, rows[j]))
  {
    HistoryRowsGrow(lib, columns, rows, j);
    GatherMore(before, HistoryRows(lib, columns, rows[..j]), HistoryCell(lib, columns, rows[j]));
  }

  method HistoryOfSeries(lib: Lib, s: Series, ghost before: seq<Cell<Time>>, m: map<Time, map<string, Value>>)
    returns (m': map<Time, map<string, Value>>)
    requires m == Gather(before)
    ensures m' == Gather(before + HistoryRows(lib, s.columns, s.values))
  {
    m' := m;
    var index := IndexColumns(s.columns);
    assert before + HistoryRows(lib, s.columns, s.values[..0]) == before;
    for j := 0 to |s.values|
      invariant m' == Gather(before + HistoryRows(lib, s.columns, s.values[..j]))
    {
      HistoryRowsStep(lib, before, s.columns, s.values, j);
      var cell := ReadHistoryCell(lib, index, s.columns, s.values[j]);
      m' := AddCell(m', cell);
    }
    assert s.values[..|s.values|] == s.values;
  }

  /** One record per timestamp, each once, in any order. */
  ghost predicate IsRecords(m: map<Time, map<string, Value>>, s: seq<TelemetryRecord>) {
    && (forall i :: 0 <= i < |s| ==> s[i].timestamp in m && s[i].fields == m[s[i].timestamp])
    && (forall i, j :: 0 <= i < j < |s| ==> s[i].timestamp != s[j].timestamp)
    && (forall t :: t in m ==> TelemetryRecord(t, m[t]) in s)
  }

  method CollectRecords(m: map<Time, map<string, Value>>) returns (a: array<TelemetryRecord>)
    ensures fresh(a) && IsRecords(m, a[..])
  {
    var s: seq<TelemetryRecord> := [];
    var keys := m.Keys;
    while keys != {}
      invariant keys <= m.Keys
      invariant forall i :: 0 <= i < |s| ==>
          s[i].timestamp in m && s[i].timestamp !in keys && s[i].fields == m[s[i].timestamp]
      invariant forall i, j :: 0 <= i < j < |s| ==> s[i].timestamp != s[j].timestamp
      invariant forall t :: t in m && t !in keys ==> TelemetryRecord(t, m[t]) in s
      decreases keys
    {
      var t :| t in keys;
      s := s + [TelemetryRecord(t, m[t])];
      keys := keys - {t};
    }
    a := new TelemetryRecord[|s|](i requires 0 <= i < |s| => s[i]);
    assert a[..] == s;
  }

  method ParseTelemetryHistory(lib: Lib, series: seq<Series>) returns (records: array<TelemetryRecord>)
    ensures fresh(records)
    ensures IsRecords(Gather(HistoryCells(lib, series)), records[..]) && Ascending(records[..])
  {
    var m: map<Time, map<string, Value>> := map[];
    for i := 0 to |series|
      invariant m == Gather(HistoryCells(lib, series[..i]))
    {
      var s := series[i];
      ghost var before := HistoryCells(lib, series[..i]);
      assert series[..i + 1][..i] == series[..i];
      if |s.columns| == 0 || |s.values| == 0 {
        assert HistoryCells(lib, series[..i + 1]) == before;
        continue;
      }
      m := HistoryOfSeries(lib, s, before, m);
    }
    assert series[..|series|] == series;
    records := CollectRecords(m);
    ghost var collected := records[..];
    ExchangeSort(records);
    SortIsSorted(collected, 0);
    PermutedRecords(m, collected, records[..]);
  }

  // ---- The exchange sort ----

  predicate Before(a: TelemetryRecord, b: TelemetryRecord) { a.timestamp.instant < b.timestamp.instant }

  function Swap(s: seq<TelemetryRecord>, i: nat, j: nat): seq<TelemetryRecord>
    requires i < |s| && j < |s|
  {
    s[i := s[j]][j := s[i]]
  }

  /** The inner loop from j on: position i takes every earlier element it meets. */
  function Pass(s: seq<TelemetryRecord>, i: nat, j: nat): (r: seq<TelemetryRecord>)
    requires i < j
    ensures |r| == |s|
    decreases |s| - j
  {
    if j >= |s| then s else Pass(if Before(s[j], s[i]) then Swap(s, i, j) else s, i, j + 1)
  }

  /** The outer loop from i on. */
  function SortFrom(s: seq<TelemetryRecord>, i: nat): (r: seq<TelemetryRecord>)
    ensures |r| == |s|
    decreases |s| - i
  {
    if i + 1 >= |s| then s else SortFrom(Pass(s, i, i + 1), i + 1)
  }

  method ExchangeSort(a: array<TelemetryRecord>)
    modifies a
    ensures a[..] == SortFrom(old(a[..]), 0)
  {
    var i := 0;
    while i < a.Length - 1
      invariant 0 <= i && SortFrom(a[..], i) == SortFrom(old(a[..]), 0)
    {
      ghost var s := a[..];
      var j := i + 1;
      while j < a.Length
        invariant i < j
        invariant Pass(a[..], i, j) == Pass(s, i, i + 1)
      {
        if a[j].timestamp.instant < a[i].timestamp.instant {
          ghost var t := a[..];
          a[i], a[j] := a[j], a[i];
          assert a[..] == Swap(t, i, j);
        }
        j := j + 1;
      }
      i := i + 1;
    }
  }

  /** No later element before any of the first n. */
  ghost predicate SortedUpTo(s: seq<TelemetryRecord>, n: nat) {
    forall x, y :: 0 <= x < n && x < y < |s| ==> !Before(s[y], s[x])
  }

  ghost predicate Ascending(s: seq<TelemetryRecord>) { SortedUpTo(s, |s|) }

  ghost predicate PassInv(s: seq<TelemetryRecord>, i: nat, j: nat) {
    i < |s| && SortedUpTo(s, i) && forall k :: i < k < j && k < |s| ==> !Before(s[k], s[i])
  }

  lemma SwapPermutes(s: seq<TelemetryRecord>, i: nat, j: nat)
    requires i < |s| && j < |s|
    ensures multiset(Swap(s, i, j)) == multiset(s)
  {
  }

  lemma SwapKeepsPassInv(s: seq<TelemetryRecord>, i: nat, j: nat)
    requires PassInv(s, i, j) && i < j < |s| && Before(s[j], s[i])
    ensures PassInv(Swap(s, i, j), i, j + 1)
  {
  }

  lemma {:induction false} PassSelectsLeast(s: seq<TelemetryRecord>, i: nat, j: nat)
    requires i < j && PassInv(s, i, j)
    ensures PassInv(Pass(s, i, j), i, |s|) && multiset(Pass(s, i, j)) == multiset(s)
    decreases |s| - j
  {
    if j < |s| {
      if Before(s[j], s[i]) {
        SwapKeepsPassInv(s, i, j);
        SwapPermutes(s, i, j);
        PassSelectsLeast(Swap(s, i, j), i, j + 1);
      } else {
        PassSelectsLeast(s, i, j + 1);
      }
    }
  }

  /** The exchange sort yields a nondecreasing permutation. */
  lemma {:induction false} SortIsSorted(s: seq<TelemetryRecord>, i: nat)
    requires SortedUpTo(s, i)
    ensures Ascending(SortFrom(s, i)) && multiset(SortFrom(s, i)) == multiset(s)
    decreases |s| - i
  {
    if i + 1 < |s| {
      PassSelectsLeast(s, i, i + 1);
      SortIsSorted(Pass(s, i, i + 1), i + 1);
    }
  }

  lemma {:induction false} SortedIsFixed(s: seq<TelemetryRecord>, i: nat)
    requires Ascending(s)
    ensures SortFrom(s, i) == s
    decreases |s| - i
  {
    if i + 1 < |s| {
      PassIsFixed(s, i, i + 1);
      SortedIsFixed(s, i + 1);
    }
  }

  lemma {:induction false} PassIsFixed(s: seq<TelemetryRecord>, i: nat, j: nat)
    requires Ascending(s) && i < j
    ensures Pass(s, i, j) == s
    decreases |s| - j
  {
    if j < |s| { PassIsFixed(s, i, j + 1); }
  }

  lemma SameElements(a: seq<TelemetryRecord>, b: seq<TelemetryRecord>, r: TelemetryRecord)
    requires multiset(a) == multiset(b)
    ensures r in a <==> r in b
  {
    assert r in a <==> r in multiset(a);
    assert r in b <==> r in multiset(b);
  }

  /** Two indices of a permuted record list never carry one timestamp. */
  lemma PermutedRecords(m: map<Time, map<string, Value>>, a: seq<TelemetryRecord>, b: seq<TelemetryRecord>)
    requires IsRecords(m, a) && multiset(a) == multiset(b)
    ensures IsRecords(m, b)
  {
    forall r ensures r in a <==> r in b { SameElements(a, b, r); }
    forall i | 0 <= i < |b| ensures b[i].timestamp in m && b[i].fields == m[b[i].timestamp] {
      assert b[i] in a;
    }
    forall i, j | 0 <= i < j < |b| ensures b[i].timestamp != b[j].timestamp {
      if b[i].timestamp == b[j].timestamp {
        OccursOnce(a, b[i]);
        TwiceCountsTwo(b, i, j);
        assert false;
      }
    }
  }

  lemma TwiceCountsTwo(s: seq<TelemetryRecord>, i: nat, j: nat)
    requires i < j < |s| && s[i] == s[j]
    ensures multiset(s)[s[i]] >= 2
  {
    assert s == s[..j] + [s[j]] + s[j + 1..];
    assert s[..j][i] == s[i];
  }

  lemma {:induction false} OccursOnce(a: seq<TelemetryRecord>, r: TelemetryRecord)
    requires forall i, j :: 0 <= i < j < |a| ==> a[i].timestamp != a[j].timestamp
    ensures multiset(a)[r] <= 1
    ensures r in a ==> multiset(a)[r] == 1
  {
    if a != [] {
      var n := |a| - 1;
      OccursOnce(a[..n], r);
      assert a == a[..n] + [a[n]];
    }
  }

  // ---- Independence of the order in which the map is walked ----

  ghost predicate DistinctInstants(m: map<Time, map<string, Value>>) {
    forall t, u :: t in m && u in m && t.instant == u.instant ==> t == u
  }

  lemma RecordsArePermutations(m: map<Time, map<string, Value>>, a: seq<TelemetryRecord>, b: seq<TelemetryRecord>)
    requires IsRecords(m, a) && IsRecords(m, b)
    ensures multiset(a) == multiset(b)
  {
    forall r ensures multiset(a)[r] == multiset(b)[r] {
      OccursOnce(a, r);
      OccursOnce(b, r);
      assert r in a <==> r.timestamp in m && r.fields == m[r.timestamp];
      assert r in b <==> r.timestamp in m && r.fields == m[r.timestamp];
    }
  }

  /** The last record of an ascending list is the last of every ascending permutation of it. */
  lemma SameLast(a: seq<TelemetryRecord>, b: seq<TelemetryRecord>)
    requires Ascending(a) && Ascending(b) && multiset(a) == multiset(b) && |a| == |b| > 0
    requires forall i, j :: 0 <= i < j < |a| ==> a[i].timestamp.instant != a[j].timestamp.instant
    ensures a[|a| - 1] == b[|b| - 1]
  {
    var n := |a| - 1;
    SameElements(a, b, a[n]);
    SameElements(a, b, b[n]);
    var i :| 0 <= i < |b| && b[i] == a[n];
    var j :| 0 <= j < |a| && a[j] == b[n];
    assert i < n ==> !Before(b[n], b[i]);
    assert j < n ==> !Before(a[n], a[j]);
  }

  lemma DropLast(a: seq<TelemetryRecord>, b: seq<TelemetryRecord>)
    requires multiset(a) == multiset(b) && |a| > 0 && |b| > 0 && a[|a| - 1] == b[|b| - 1]
    ensures multiset(a[..|a| - 1]) == multiset(b[..|b| - 1])
  {
    assert a == a[..|a| - 1] + [a[|a| - 1]];
    assert b == b[..|b| - 1] + [b[|b| - 1]];
    assert multiset(a[..|a| - 1]) == multiset(a) - multiset{a[|a| - 1]};
    assert multiset(b[..|b| - 1]) == multiset(b) - multiset{b[|b| - 1]};
  }

  lemma {:induction false} AscendingIsUnique(a: seq<TelemetryRecord>, b: seq<TelemetryRecord>)
    requires Ascending(a) && Ascending(b) && multiset(a) == multiset(b)
    requires forall i, j :: 0 <= i < j < |a| ==> a[i].timestamp.instant != a[j].timestamp.instant
    ensures a == b
  {
    assert |a| == |multiset(a)| == |multiset(b)| == |b|;
    if a != [] {
      var n := |a| - 1;
      SameLast(a, b);
      DropLast(a, b);
      AscendingIsUnique(a[..n], b[..n]);
      assert a == a[..n] + [a[n]] && b == b[..n] + [b[n]];
    }
  }

  /** The history does not depend on the order in which the map of records is walked exactly when no two
      timestamps that differ in text only by their zone stand for one instant. */
  ghost predicate WalkOrderIrrelevant(m: map<Time, map<string, Value>>) {
    forall a, b :: IsRecords(m, a) && IsRecords(m, b) ==> SortFrom(a, 0) == SortFrom(b, 0)
  }

  lemma WalkOrderIrrelevantExactlyWhen(m: map<Time, map<string, Value>>, some: seq<TelemetryRecord>)
    requires IsRecords(m, some)
    ensures WalkOrderIrrelevant(m) <==> DistinctInstants(m)
  {
    if DistinctInstants(m) {
      forall a, b | IsRecords(m, a) && IsRecords(m, b) ensures SortFrom(a, 0) == SortFrom(b, 0) {
        DistinctSortAlike(m, a, b);
      }
    }
    if WalkOrderIrrelevant(m) {
      forall t, u | t in m && u in m && t.instant == u.instant ensures t == u {
        if t != u { OneInstantTwice(m, some, t, u); }
      }
    }
  }

  lemma DistinctSortAlike(m: map<Time, map<string, Value>>, a: seq<TelemetryRecord>, b: seq<TelemetryRecord>)
    requires DistinctInstants(m) && IsRecords(m, a) && IsRecords(m, b)
    ensures SortFrom(a, 0) == SortFrom(b, 0)
  {
    SortIsSorted(a, 0);
    SortIsSorted(b, 0);
    RecordsArePermutations(m, a, b);
    PermutedRecords(m, a, SortFrom(a, 0));
    AscendingIsUnique(SortFrom(a, 0), SortFrom(b, 0));
  }

  lemma SwapEqualsKeepsAscending(s: seq<TelemetryRecord>, x: nat, y: nat)
    requires Ascending(s) && x < |s| && y < |s| && s[x].timestamp.instant == s[y].timestamp.instant
    ensures Ascending(Swap(s, x, y))
  {
    assert forall k :: 0 <= k < |s| ==> Swap(s, x, y)[k].timestamp.instant == s[k].timestamp.instant;
    forall i, j | 0 <= i < j < |s| ensures !Before(Swap(s, x, y)[j], Swap(s, x, y)[i]) {
      assert !Before(s[j], s[i]);
    }
  }

  /** A sorted list of the records, as the parser makes one. */
  lemma SortedRecords(m: map<Time, map<string, Value>>, some: seq<TelemetryRecord>) returns (s: seq<TelemetryRecord>)
    requires IsRecords(m, some)
    ensures IsRecords(m, s) && Ascending(s) && SortFrom(s, 0) == s
  {
    s := SortFrom(some, 0);
    SortIsSorted(some, 0);
    PermutedRecords(m, some, s);
    SortedIsFixed(s, 0);
  }

  /** With one instant under two timestamps, exchanging their records in a sorted list gives another sorted list. */
  lemma OneInstantTwice(m: map<Time, map<string, Value>>, some: seq<TelemetryRecord>, t: Time, u: Time)
    requires IsRecords(m, some) && t in m && u in m && t != u && t.instant == u.instant
    ensures !WalkOrderIrrelevant(m)
  {
    var s := SortedRecords(m, some);
    var x :| 0 <= x < |s| && s[x] == TelemetryRecord(t, m[t]);
    var y :| 0 <= y < |s| && s[y] == TelemetryRecord(u, m[u]);
    SwapPermutes(s, x, y);
    PermutedRecords(m, s, Swap(s, x, y));
    SwapEqualsKeepsAscending(s, x, y);
    SortedIsFixed(Swap(s, x, y), 0);
    assert Swap(s, x, y)[x] != s[x];
  }
}
