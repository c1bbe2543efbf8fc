/**
 parseFluxCSV after the text was split into cells: rows grouped into series by result name and table
 number, columns renamed and filtered (internal/repository/telemetry/telemetry_repository_impl.go).
 */
module FluxCsv {
  import opened Common
  import opened Decimal
  import opened Flux
  import opened Grouping
  import opened Lines

  const MIN_CELLS := 5
  const TAG_COLUMNS: seq<string> := ["device_sn", "project", "type", "gateway_sn", "model"]

  datatype Key = Key(result: string, table: int)

  function KeyOf(lib: Lib, header: seq<string>, row: seq<string>): Key {
    var result := Field(header, row, "result");
    var table := Field(header, row, "table");
    Key(if result.Some? then result.value else "",
        if table.Some? && lib.atoi(table.value).Some? then lib.atoi(table.value).value else 0)
  }

  /** The text under which the parser files a series. */
  function Joined(key: Key): string { key.result + "," + Numeral(key.table) }

  /** The joined text determines result and table although a result name may hold commas and digits. */
  lemma JoinedIsInjective(a: Key, b: Key)
    ensures Joined(a) == Joined(b) <==> a == b
  {
    if Joined(a) == Joined(b) {
      NumeralReads(a.table);
      NumeralReads(b.table);
      var s, n, m := Joined(a), |a.result|, |b.result|;
      assert s[n] == ',' && s[m] == ',';
      assert forall k :: n < k < |s| ==> s[k] == Numeral(a.table)[k - n - 1];
      assert forall k :: m < k < |s| ==> s[k] == Numeral(b.table)[k - m - 1];
      assert n == m;
      assert a.result == s[..n] == b.result;
      assert Numeral(a.table) == s[n + 1..] == Numeral(b.table);
    }
  }

  predicate Dropped(i: nat, column: string) {
    i == 0 || column == "result" || column == "table" || column == "_start" || column == "_stop"
  }

  function Renamed(column: string): string { if column == "_time" then "timestamp" else column }

  function Columns(header: seq<string>): seq<string> {
    if header == [] then [] else
    var n := |header| - 1;
    if Dropped(n, header[n]) then Columns(header[..n]) else Columns(header[..n]) + [Renamed(header[n])]
  }

  function CellValue(lib: Lib, row: seq<string>, i: nat): Value {
    if i < |row| then ParseValue(lib, row[i]) else Nil
  }

  function RowValues(lib: Lib, header: seq<string>, row: seq<string>): seq<Value> {
    if header == [] then [] else
    var n := |header| - 1;
    if Dropped(n, header[n]) then RowValues(lib, header[..n], row)
    else RowValues(lib, header[..n], row) + [CellValue(lib, row, n)]
  }

  function Tags(header: seq<string>, row: seq<string>, columns: seq<string>): map<string, string> {
    if columns == [] then map[] else
    var tag := columns[|columns| - 1];
    var rest := Tags(header, row, columns[..|columns| - 1]);
    var cell := Field(header, row, tag);
    if cell.Some? && cell.value != "" then rest[tag := cell.value] else rest
  }

  /** A series has a tag exactly for the tag columns in which its first row has a non-empty cell. */
  lemma {:induction false} TagsAreNonEmptyCells(header: seq<string>, row: seq<string>, columns: seq<string>,
                                                tag: string)
    ensures var cell, tags := Field(header, row, tag), Tags(header, row, columns);
      && (tag in tags <==> tag in columns && cell.Some? && cell.value != "")
      && (tag in tags ==> tags[tag] == cell.value)
  {
    if columns != [] {
      var n := |columns| - 1;
      TagsAreNonEmptyCells(header, row, columns[..n], tag);
      assert columns == columns[..n] + [columns[n]];
    }
  }

  function NameOf(header: seq<string>, row: seq<string>): string {
    var cell := Field(header, row, "_measurement");
    if cell.Some? then cell.value else "unknown"
  }

  // ---- The declarative grouping ----

  /** The rows long enough to hold data. */
  function DataRows(rows: seq<seq<string>>): seq<seq<string>> {
    if rows == [] then [] else
    var row := rows[|rows| - 1];
    if |row| < MIN_CELLS then DataRows(rows[..|rows| - 1]) else DataRows(rows[..|rows| - 1]) + [row]
  }

  function KeysOf(lib: Lib, header: seq<string>, rows: seq<seq<string>>): seq<Key> {
    seq(|rows|, i requires 0 <= i < |rows| => KeyOf(lib, header, rows[i]))
  }

  /** The series of one key: the rows at the key's positions, its name and tags from the first of them. */
  ghost predicate IsSeries(lib: Lib, header: seq<string>, rows: seq<seq<string>>, key: Key, s: Series) {
    var at := Positions(KeysOf(lib, header, rows), key);
    && |s.values| == |at| > 0
    && (forall p :: 0 <= p < |at| ==> at[p] < |rows|)
    && s.name == NameOf(header, rows[at[0]])
    && s.tags == Tags(header, rows[at[0]], TAG_COLUMNS)
    && s.columns == Columns(header)
    && forall p :: 0 <= p < |at| ==> s.values[p] == RowValues(lib, header, rows[at[p]])
  }

  /** One series for each key that occurs, in order of first appearance. */
  ghost predicate IsGrouping(lib: Lib, header: seq<string>, rows: seq<seq<string>>, series: seq<Series>) {
    var keys := Distinct(KeysOf(lib, header, rows));
    && |series| == |keys|
    && forall s :: 0 <= s < |series| ==> IsSeries(lib, header, rows, keys[s], series[s])
  }

  /** A row joins the series of its key at the end and changes no other. */
  lemma AddToSeries(lib: Lib, header: seq<string>, rows: seq<seq<string>>, row: seq<string>, key: Key, s: Series)
    requires IsSeries(lib, header, rows, key, s)
    ensures KeyOf(lib, header, row) != key ==> IsSeries(lib, header, rows + [row], key, s)
    ensures KeyOf(lib, header, row) == key ==>
      IsSeries(lib, header, rows + [row], key, s.(values := s.values + [RowValues(lib, header, row)]))
  {
    KeysStep(lib, header, rows, row);
    Extend(KeysOf(lib, header, rows), KeyOf(lib, header, row), key);
  }

  lemma KeysStep(lib: Lib, header: seq<string>, rows: seq<seq<string>>, row: seq<string>)
    ensures KeysOf(lib, header, rows + [row]) == KeysOf(lib, header, rows) + [KeyOf(lib, header, row)]
  {
  }

  lemma NewKeyStandsAlone(lib: Lib, header: seq<string>, rows: seq<seq<string>>, row: seq<string>)
    requires KeyOf(lib, header, row) !in KeysOf(lib, header, rows)
    ensures Positions(KeysOf(lib, header, rows + [row]), KeyOf(lib, header, row)) == [|rows|]
  {
    var ks, key := KeysOf(lib, header, rows), KeyOf(lib, header, row);
    KeysStep(lib, header, rows, row);
    Extend(ks, key, key);
    PositionsExact(ks, key);
  }

  lemma NewSeries(lib: Lib, header: seq<string>, rows: seq<seq<string>>, row: seq<string>, s: Series)
    requires KeyOf(lib, header, row) !in KeysOf(lib, header, rows)
    requires s ==
        Series(NameOf(header, row), Tags(header, row, TAG_COLUMNS), Columns(header), [RowValues(lib, header, row)])
    ensures IsSeries(lib, header, rows + [row], KeyOf(lib, header, row), s)
  {
    hide KeysOf, KeyOf, Tags, NameOf, Columns, RowValues, Positions;
    NewKeyStandsAlone(lib, header, rows, row);
    assert (rows + [row])[|rows|] == row;
  }

  /** The series the parser has made so far and its table from joined keys to positions. */
  ghost predicate IsTable(lib: Lib, header: seq<string>, rows: seq<seq<string>>, table: map<string, nat>) {
    var keys := Distinct(KeysOf(lib, header, rows));
    && (forall s :: 0 <= s < |keys| ==> Joined(keys[s]) in table && table[Joined(keys[s])] == s)
    && (forall j :: j in table ==> table[j] < |keys| && Joined(keys[table[j]]) == j)
  }

  method ReadRow(lib: Lib, header: seq<string>, row: seq<string>) returns (values: seq<Value>)
    ensures values == RowValues(lib, header, row)
  {
    values := [];
    for i := 0 to |header|
      invariant values == RowValues(lib, header[..i], row)
    {
      assert header[..i + 1][..i] == header[..i];
      if i == 0 || header[i] == "result" || header[i] == "table" || header[i] == "_start" || header[i] == "_stop" {
        continue;
      }
      values := values + [if i < |row| then ParseValue(lib, row[i]) else Nil];
    }
    assert header[..|header|] == header;
  }

  method ReadColumns(header: seq<string>) returns (columns: seq<string>)
    ensures columns == Columns(header)
  {
    columns := [];
    for i := 0 to |header|
      invariant columns == Columns(header[..i])
    {
      assert header[..i + 1][..i] == header[..i];
      if i == 0 || header[i] == "result" || header[i] == "table" || header[i] == "_start" || header[i] == "_stop" {
        continue;
      }
      columns := columns + [if header[i] == "_time" then "timestamp" else header[i]];
    }
    assert header[..|header|] == header;
  }

  method ReadTags(index: map<string, nat>, header: seq<string>, row: seq<string>) returns (tags: map<string, string>)
    requires IsIndex(index, header)
    ensures tags == Tags(header, row, TAG_COLUMNS)
  {
    tags := map[];
    for i := 0 to |TAG_COLUMNS|
      invariant tags == Tags(header, row, TAG_COLUMNS[..i])
    {
      assert TAG_COLUMNS[..i + 1][..i] == TAG_COLUMNS[..i];
      var cell := ReadField(index, header, row, TAG_COLUMNS[i]);
      if cell.Some? && cell.value != "" {
        tags := tags[TAG_COLUMNS[i] := cell.value];
      }
    }
    assert TAG_COLUMNS[..|TAG_COLUMNS|] == TAG_COLUMNS;
  }

  method ReadKey(lib: Lib, index: map<string, nat>, header: seq<string>, row: seq<string>) returns (key: Key)
    requires IsIndex(index, header)
    ensures key == KeyOf(lib, header, row)
  {
    var resultName, tableNum := "", 0;
    var cell := ReadField(index, header, row, "result");
    if cell.Some? { resultName := cell.value; }
    cell := ReadField(index, header, row, "table");
    if cell.Some? && lib.atoi(cell.value).Some? { tableNum := lib.atoi(cell.value).value; }
    return Key(resultName, tableNum);
  }

  method ParseFluxCSV(lib: Lib, records: seq<seq<string>>) returns (series: seq<Series>)
    ensures |records| < 2 ==> series == []
    ensures |records| >= 2 ==> IsGrouping(lib, records[0], DataRows(records[1..]), series)
  {
    series := [];
    if |records| < 2 {
      return;
    }
    var header, rows := records[0], records[1..];
    var index := IndexColumns(header);
    var table: map<string, nat> := map[];
    for i := 0 to |rows|
      invariant IsGrouping(lib, header, DataRows(rows[..i]), series)
      invariant IsTable(lib, header, DataRows(rows[..i]), table)
    {
      var row := rows[i];
      assert rows[..i + 1][..i] == rows[..i];
      if |row| < MIN_CELLS {
        continue;
      }
      var key := ReadKey(lib, index, header, row);
      var values := ReadRow(lib, header, row);
      series, table := FileRow(lib, index, header, DataRows(rows[..i]), row, key, values, series, table);
    }
    assert rows[..|rows|] == rows;
  }

  lemma RowOfKnownKey(lib: Lib, header: seq<string>, rows: seq<seq<string>>, row: seq<string>, series: seq<Series>,
                      at: nat)
    requires IsGrouping(lib, header, rows, series) && at < |series|
    requires Distinct(KeysOf(lib, header, rows))[at] == KeyOf(lib, header, row)
    ensures Distinct(KeysOf(lib, header, rows + [row])) == Distinct(KeysOf(lib, header, rows))
    ensures IsGrouping(lib, header, rows + [row],
      series[at := series[at].(values := series[at].values + [RowValues(lib, header, row)])])
  {
    var ks := KeysOf(lib, header, rows);
    var keys, key := Distinct(ks), KeyOf(lib, header, row);
    DistinctExact(ks);
    assert keys[at] in keys;
    KeysStep(lib, header, rows, row);
    Extend(ks, key, key);
    forall s | 0 <= s < |series| ensures keys[s] == key <==> s == at {
    }
    forall s | 0 <= s < |series|
      ensures s != at ==> IsSeries(lib, header, rows + [row], keys[s], series[s])
    {
      AddToSeries(lib, header, rows, row, keys[s], series[s]);
    }
    AddToSeries(lib, header, rows, row, key, series[at]);
  }

  lemma RowOfNewKey(lib: Lib, header: seq<string>, rows: seq<seq<string>>, row: seq<string>, series: seq<Series>,
                    s: Series)
    requires IsGrouping(lib, header, rows, series) && KeyOf(lib, header, row) !in KeysOf(lib, header, rows)
    requires s ==
        Series(NameOf(header, row), Tags(header, row, TAG_COLUMNS), Columns(header), [RowValues(lib, header, row)])
    ensures Distinct(KeysOf(lib, header, rows + [row])) ==
        Distinct(KeysOf(lib, header, rows)) + [KeyOf(lib, header, row)]
    ensures IsGrouping(lib, header, rows + [row], series + [s])
  {
    var keys := Distinct(KeysOf(lib, header, rows));
    KeysStep(lib, header, rows, row);
    Extend(KeysOf(lib, header, rows), KeyOf(lib, header, row), KeyOf(lib, header, row));
    forall k | 0 <= k < |series + [s]|
      ensures IsSeries(lib, header, rows + [row], (keys + [KeyOf(lib, header, row)])[k], (series + [s])[k])
    {
      if k < |series| {
        OtherSeriesKept(lib, header, rows, row, series, k);
      } else {
        NewSeries(lib, header, rows, row, s);
      }
    }
  }

  lemma OtherSeriesKept(lib: Lib, header: seq<string>, rows: seq<seq<string>>, row: seq<string>, series: seq<Series>,
                        k: nat)
    requires IsGrouping(lib, header, rows, series) && KeyOf(lib, header, row) !in KeysOf(lib, header, rows)
    requires k < |series|
    ensures IsSeries(lib, header, rows + [row], Distinct(KeysOf(lib, header, rows))[k], series[k])
  {
    var ks := KeysOf(lib, header, rows);
    DistinctExact(ks);
    assert Distinct(ks)[k] in Distinct(ks);
    AddToSeries(lib, header, rows, row, Distinct(ks)[k], series[k]);
  }

  /** A joined key is in the parser's table exactly when the key has a series, and leads to it. */
  lemma TableFindsKey(lib: Lib, header: seq<string>, rows: seq<seq<string>>, table: map<string, nat>, key: Key)
    requires IsTable(lib, header, rows, table)
    ensures var keys := Distinct(KeysOf(lib, header, rows));
      && (Joined(key) in table <==> key in KeysOf(lib, header, rows))
      && (Joined(key) in table ==> table[Joined(key)] < |keys| && keys[table[Joined(key)]] == key)
  {
    var keys := Distinct(KeysOf(lib, header, rows));
    DistinctExact(KeysOf(lib, header, rows));
    assert key in KeysOf(lib, header, rows) <==> key in keys;
    if Joined(key) in table {
      JoinedIsInjective(keys[table[Joined(key)]], key);
    }
  }

  lemma TableStep(lib: Lib, header: seq<string>, rows: seq<seq<string>>, row: seq<string>, table: map<string, nat>)
    requires IsTable(lib, header, rows, table)
    ensures var key := KeyOf(lib, header, row); var joined := Joined(key);
      IsTable(lib, header, rows + [row],
        if joined in table then table else table[joined := |Distinct(KeysOf(lib, header, rows))|])
  {
    var ks, key := KeysOf(lib, header, rows), KeyOf(lib, header, row);
    KeysStep(lib, header, rows, row);
    Extend(ks, key, key);
    TableFindsKey(lib, header, rows, table, key);
  }

  /** The body of the row loop: find or make the row's series, and append its values. */
  method FileRow(lib: Lib, index: map<string, nat>, header: seq<string>, ghost done: seq<seq<string>>, row: seq<string>,
                 key: Key, values: seq<Value>, series: seq<Series>, table: map<string, nat>)
    returns (series': seq<Series>, table': map<string, nat>)
    requires IsIndex(index, header) && key == KeyOf(lib, header, row) && values == RowValues(lib, header, row)
    requires IsGrouping(lib, header, done, series) && IsTable(lib, header, done, table)
    ensures IsGrouping(lib, header, done + [row], series') && IsTable(lib, header, done + [row], table')
  {
    var joined := key.result + "," + Numeral(key.table);
    TableFindsKey(lib, header, done, table, key);
    TableStep(lib, header, done, row, table);
    if joined in table {
      var at := table[joined];
      RowOfKnownKey(lib, header, done, row, series, at);
      series' := series[at := series[at].(values := series[at].values + [values])];
      table' := table;
    } else {
      var measurement := ReadField(index, header, row, "_measurement");
      var tags := ReadTags(index, header, row);
      var columns := ReadColumns(header);
      var created := Series(if measurement.Some? then measurement.value else "unknown", tags, columns, [values]);
      RowOfNewKey(lib, header, done, row, series, created);
      series' := series + [created];
      table' := table[joined := |series|];
    }
  }

  // ---- What the grouping means ----

  /** Data row n is held by series s. */
  ghost predicate Holds(lib: Lib, header: seq<string>, rows: seq<seq<string>>, s: nat, n: nat) {
    var keys := Distinct(KeysOf(lib, header, rows));
    s < |keys| && n in Positions(KeysOf(lib, header, rows), keys[s])
  }

  ghost predicate HeldOnce(lib: Lib, header: seq<string>, rows: seq<seq<string>>, n: nat) {
    exists s: nat :: Holds(lib, header, rows, s, n) && forall t: nat :: Holds(lib, header, rows, t, n) ==> t == s
  }

  /** The places of a series are data rows it holds, in increasing order, parsed. */
  ghost predicate InOrder(lib: Lib, header: seq<string>, rows: seq<seq<string>>, s: nat, values: seq<seq<Value>>)
    requires s < |Distinct(KeysOf(lib, header, rows))|
  {
    var at := Positions(KeysOf(lib, header, rows), Distinct(KeysOf(lib, header, rows))[s]);
    && |values| == |at| > 0
    && (forall p :: 0 <= p < |at| ==> at[p] < |rows| && values[p] == RowValues(lib, header, rows[at[p]]))
    && (forall p, q :: 0 <= p < q < |at| ==> at[p] < at[q])
  }

  lemma HoldsByKey(lib: Lib, header: seq<string>, rows: seq<seq<string>>, s: nat, n: nat)
    ensures var keys := Distinct(KeysOf(lib, header, rows));
      Holds(lib, header, rows, s, n) <==> s < |keys| && n < |rows| && keys[s] == KeyOf(lib, header, rows[n])
  {
    var ks := KeysOf(lib, header, rows);
    if s < |Distinct(ks)| {
      PositionsExact(ks, Distinct(ks)[s]);
    }
  }

  /** Conservation: the places of each series are the data rows it holds, in order; every data row is held by
      exactly one series; and two rows are held by one series exactly when they agree on result name and
      table number. */
  lemma GroupingConservesRows(lib: Lib, header: seq<string>, rows: seq<seq<string>>, series: seq<Series>)
    requires IsGrouping(lib, header, rows, series)
    ensures forall s :: 0 <= s < |series| ==> InOrder(lib, header, rows, s, series[s].values)
    ensures forall n :: 0 <= n < |rows| ==> HeldOnce(lib, header, rows, n)
    ensures forall s: nat, m: nat, n: nat :: Holds(lib, header, rows, s, m) && n < |rows| ==>
      m < |rows| && (Holds(lib, header, rows, s, n) <==> KeyOf(lib, header, rows[m]) == KeyOf(lib, header, rows[n]))
  {
    var ks := KeysOf(lib, header, rows);
    var keys := Distinct(ks);
    DistinctExact(ks);
    forall s | 0 <= s < |series| ensures InOrder(lib, header, rows, s, series[s].values) {
      PositionsExact(ks, keys[s]);
    }
    forall n | 0 <= n < |rows| ensures HeldOnce(lib, header, rows, n) {
      assert ks[n] in ks && ks[n] in keys;
      var s :| 0 <= s < |keys| && keys[s] == ks[n];
      HoldsByKey(lib, header, rows, s, n);
      forall t: nat | Holds(lib, header, rows, t, n) ensures t == s { HoldsByKey(lib, header, rows, t, n); }
    }
    forall s: nat, m: nat, n: nat | Holds(lib, header, rows, s, m) && n < |rows|
      ensures m < |rows|
      ensures Holds(lib, header, rows, s, n) <==> KeyOf(lib, header, rows[m]) == KeyOf(lib, header, rows[n])
    {
      HoldsByKey(lib, header, rows, s, m);
      HoldsByKey(lib, header, rows, s, n);
    }
  }

  /** The last kept header position that a reader of the series knows as `name`. */
  function Source(header: seq<string>, name: string): Option<nat> {
    if header == [] then None else
    var n := |header| - 1;
    if !Dropped(n, header[n]) && Renamed(header[n]) == name then Some(n) else Source(header[..n], name)
  }

  /** Alignment: looking a column up by name in a parsed row gives the parsed cell of the last kept column
      of that name in the original row, and nil where the row was too short for it. */
  lemma {:induction false} LookupFindsCell(lib: Lib, header: seq<string>, row: seq<string>, name: string)
    ensures |RowValues(lib, header, row)| == |Columns(header)|
    ensures Field(Columns(header), RowValues(lib, header, row), name) ==
      if Source(header, name).Some? then Some(CellValue(lib, row, Source(header, name).value)) else None
  {
    if header != [] {
      var n := |header| - 1;
      LookupFindsCell(lib, header[..n], row, name);
      if !Dropped(n, header[n]) {
        var columns, values := Columns(header[..n]), RowValues(lib, header[..n], row);
        assert Columns(header)[..|columns|] == columns;
      }
    }
  }

  /** With distinct header names and no column already called "timestamp" that is the only column of the name. */
  lemma {:induction false} DistinctNamesHaveOneSource(header: seq<string>, name: string, i: nat)
    requires forall j, k :: 0 <= j < k < |header| ==> header[j] != header[k]
    requires "timestamp" !in header
    requires i < |header| && !Dropped(i, header[i]) && Renamed(header[i]) == name
    ensures Source(header, name) == Some(i)
  {
    var n := |header| - 1;
    if i < n {
      assert header[n] != "timestamp" && header[i] != "timestamp";
      DistinctNamesHaveOneSource(header[..n], name, i);
    }
  }

  // ---- The same in terms of the cells of the rows ----

  /** The text of a row's cell in the last column of that name; empty without one. */
  ghost function RawText(header: seq<string>, row: seq<string>, name: string): string {
    Or(CellOf(header, row, name), "")
  }

  /** The number in a row's "table" cell; 0 without one or when it cannot be read. */
  ghost function TableNumber(lib: Lib, header: seq<string>, row: seq<string>): int {
    var cell := CellOf(header, row, "table");
    if cell.Some? then Or(lib.atoi(cell.value), 0) else 0
  }

  ghost predicate SameTable(lib: Lib, header: seq<string>, a: seq<string>, b: seq<string>) {
    && RawText(header, a, "result") == RawText(header, b, "result")
    && TableNumber(lib, header, a) == TableNumber(lib, header, b)
  }

  /** Two data rows are held by one series exactly when their "result" cells hold the same text and their "table"
      cells the same number, where a missing column, a short row or unreadable text counts for "" and 0. */
  lemma SeriesAreTables(lib: Lib, header: seq<string>, rows: seq<seq<string>>, s: nat, m: nat, n: nat)
    requires Holds(lib, header, rows, s, m) && n < |rows|
    ensures m < |rows| && (Holds(lib, header, rows, s, n) <==> SameTable(lib, header, rows[m], rows[n]))
  {
    HoldsByKey(lib, header, rows, s, m);
    HoldsByKey(lib, header, rows, s, n);
    CellIsField(header, rows[m], "result");
    CellIsField(header, rows[m], "table");
    CellIsField(header, rows[n], "result");
    CellIsField(header, rows[n], "table");
  }

  /** For rows that reach both columns: the cells themselves decide. */
  lemma SeriesAreTablesOfFullRows(lib: Lib, header: seq<string>, rows: seq<seq<string>>, s: nat, m: nat, n: nat,
                                  i: nat, j: nat)
    requires Holds(lib, header, rows, s, m) && m < |rows| && n < |rows|
    requires IsCellAt(header, rows[m], "result", i) && IsCellAt(header, rows[n], "result", i)
    requires IsCellAt(header, rows[m], "table", j) && IsCellAt(header, rows[n], "table", j)
    ensures Holds(lib, header, rows, s, n) <==>
      rows[m][i] == rows[n][i] && Or(lib.atoi(rows[m][j]), 0) == Or(lib.atoi(rows[n][j]), 0)
  {
    SeriesAreTables(lib, header, rows, s, m, n);
    CellIsAt(header, rows[m], "result", i);
    CellIsAt(header, rows[n], "result", i);
    CellIsAt(header, rows[m], "table", j);
    CellIsAt(header, rows[n], "table", j);
  }

  /** The name and the tags of a series are in the cells of the first row that it holds. */
  lemma SeriesIsNamedByFirstRow(lib: Lib, header: seq<string>, rows: seq<seq<string>>, key: Key, s: Series)
    requires IsSeries(lib, header, rows, key, s)
    ensures var first := rows[Positions(KeysOf(lib, header, rows), key)[0]];
      && s.name == Or(CellOf(header, first, "_measurement"), "unknown")
      && forall tag :: tag in s.tags <==>
           tag in {"device_sn", "project", "type", "gateway_sn", "model"} && RawText(header, first, tag) != ""
    ensures var first := rows[Positions(KeysOf(lib, header, rows), key)[0]];
      forall tag :: tag in s.tags ==> s.tags[tag] == RawText(header, first, tag)
  {
    var first := rows[Positions(KeysOf(lib, header, rows), key)[0]];
    CellIsField(header, first, "_measurement");
    forall tag
      ensures tag in s.tags <==> tag in TAG_COLUMNS && RawText(header, first, tag) != ""
      ensures tag in s.tags ==> s.tags[tag] == RawText(header, first, tag)
    {
      TagsAreNonEmptyCells(header, first, TAG_COLUMNS, tag);
      CellIsField(header, first, tag);
    }
  }

  /** `data` is the rows at some increasing positions, which are those of all rows with at least five cells. */
  ghost predicate SelectsLong(rows: seq<seq<string>>, data: seq<seq<string>>, at: seq<nat>) {
    && |at| == |data|
    && (forall p :: 0 <= p < |at| ==> at[p] < |rows| && data[p] == rows[at[p]] && |data[p]| >= 5)
    && Rising(at)
    && (forall i :: 0 <= i < |rows| && |rows[i]| >= 5 ==> i in at)
  }

  lemma LongRowSelected(rows: seq<seq<string>>, row: seq<string>, data: seq<seq<string>>, at: seq<nat>)
    requires SelectsLong(rows, data, at) && |row| >= 5
    ensures SelectsLong(rows + [row], data + [row], at + [|rows|])
  {
    var at' := at + [|rows|];
    assert at'[|at|] == |rows|;
    forall i | 0 <= i < |rows| && |rows[i]| >= 5 ensures i in at' {
      assert i in at;
    }
  }

  lemma ShortRowSkipped(rows: seq<seq<string>>, row: seq<string>, data: seq<seq<string>>, at: seq<nat>)
    requires SelectsLong(rows, data, at) && |row| < 5
    ensures SelectsLong(rows + [row], data, at)
  {
  }

  /** The data rows are the rows of at least five cells, in order. */
  lemma {:induction false} DataRowsAreLongRows(rows: seq<seq<string>>) returns (at: seq<nat>)
    ensures SelectsLong(rows, DataRows(rows), at)
  {
    hide SelectsLong;
    at := [];
    if rows == [] {
      NothingSelected();
    } else {
      var n := |rows| - 1;
      at := DataRowsAreLongRows(rows[..n]);
      assert rows == rows[..n] + [rows[n]];
      if |rows[n]| >= 5 {
        LongRowSelected(rows[..n], rows[n], DataRows(rows[..n]), at);
        at := at + [n];
      } else {
        ShortRowSkipped(rows[..n], rows[n], DataRows(rows[..n]), at);
      }
    }
  }

  lemma NothingSelected()
    ensures SelectsLong([], [], [])
  {
  }

  /** A reader that looks for a column of the CSV, "_time" under the name "timestamp", finds the row's cell in it,
      parsed, or nil when the row is short; and it does not find the five columns that are left out. */
  lemma ReaderFindsColumn(lib: Lib, header: seq<string>, row: seq<string>, i: nat)
    requires forall j, k :: 0 <= j < k < |header| ==> header[j] != header[k]
    requires "timestamp" !in header && i < |header|
    ensures var kept := i > 0 && header[i] !in {"result", "table", "_start", "_stop"};
      CellOf(Columns(header), RowValues(lib, header, row), if header[i] == "_time" then "timestamp" else header[i]) ==
      if !kept then None else if i < |row| then Some(ParseValue(lib, row[i])) else Some(Nil)
  {
    var name := if header[i] == "_time" then "timestamp" else header[i];
    CellIsField(Columns(header), RowValues(lib, header, row), name);
    LookupFindsCell(lib, header, row, name);
    if i > 0 && header[i] !in {"result", "table", "_start", "_stop"} {
      DistinctNamesHaveOneSource(header, name, i);
    } else {
      DroppedHasNoSource(header, name, i);
    }
  }

  lemma {:induction false} DroppedHasNoSource(header: seq<string>, name: string, i: nat)
    requires forall j, k :: 0 <= j < k < |header| ==> header[j] != header[k]
    requires "timestamp" !in header && i < |header| && name == if header[i] == "_time" then "timestamp" else header[i]
    requires i == 0 || header[i] in {"result", "table", "_start", "_stop"}
    ensures Source(header, name) == None
  {
    var n := |header| - 1;
    assert header[n] != "timestamp" && header[i] != "timestamp";
    if i < n { DroppedHasNoSource(header[..n], name, i); } else { NoSource(header[..n], name, header[n]); }
  }

  lemma {:induction false} NoSource(header: seq<string>, name: string, column: string)
    requires column !in header && "timestamp" !in header && column != "timestamp"
    requires name == if column == "_time" then "timestamp" else column
    ensures Source(header, name) == None
  {
    if header != [] {
      var n := |header| - 1;
      assert header[n] != column && header[n] != "timestamp";
      NoSource(header[..n], name, column);
    }
  }
}
