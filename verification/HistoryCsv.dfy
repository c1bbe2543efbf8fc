/**
 From the rows of a CSV answer to the tables that the history endpoint pages over: what parseFluxCSV and
 parseTelemetryHistory together make of a response to a history query
 (internal/repository/telemetry/telemetry_repository_impl.go).
 */
module HistoryCsv {
  import opened Common
  import opened Flux
  import opened FluxCsv
  import opened Grouping
  import opened History
  import opened HistoryPages
  import opened HistoryTables
  import opened LastWrites
  import opened Telemetry

  /** What a row of cells contributes to the history. */
  function CsvCell(lib: Lib, header: seq<string>, row: seq<string>): Row {
    HistoryCell(lib, Columns(header), RowValues(lib, header, row))
  }

  function CellOf(lib: Lib, row: seq<string>, source: Option<nat>): Option<Value> {
    if source.Some? then Some(CellValue(lib, row, source.value)) else None
  }

  /** That is the time, the field name and the value in the row's own cells: those of the columns "_time" (or
      "timestamp"), "_field" and "_value", the last of each name. */
  lemma CsvCellReadsColumns(lib: Lib, header: seq<string>, row: seq<string>)
    ensures var field := CellOf(lib, row, Source(header, "_field"));
      var name := if field.Some? then ToText(lib, field.value) else "";
      CsvCell(lib, header, row) ==
      Cell(TimeOf(lib, CellOf(lib, row, Source(header, "timestamp"))),
           if name == "" then None else Some((name, NonNil(CellOf(lib, row, Source(header, "_value"))))))
  {
    LookupFindsCell(lib, header, row, "timestamp");
    LookupFindsCell(lib, header, row, "_field");
    LookupFindsCell(lib, header, row, "_value");
  }

  /** The rows of one key, in order. */
  function TableOf(lib: Lib, header: seq<string>, rows: seq<seq<string>>, key: Key): seq<Row> {
    if rows == [] then [] else
    var n := |rows| - 1;
    var last := if KeyOf(lib, header, rows[n]) == key then [CsvCell(lib, header, rows[n])] else [];
    TableOf(lib, header, rows[..n], key) + last
  }

  /** One table for each key, in order of first appearance. */
  function CsvTables(lib: Lib, header: seq<string>, rows: seq<seq<string>>): seq<seq<Row>> {
    var keys := Distinct(KeysOf(lib, header, rows));
    seq(|keys|, s requires 0 <= s < |keys| => TableOf(lib, header, rows, keys[s]))
  }

  lemma {:induction false} TableAt(lib: Lib, header: seq<string>, rows: seq<seq<string>>, key: Key)
    ensures var at, table := Positions(KeysOf(lib, header, rows), key), TableOf(lib, header, rows, key);
      && |table| == |at|
      && forall p :: 0 <= p < |at| ==> at[p] < |rows| && table[p] == CsvCell(lib, header, rows[at[p]])
  {
    if rows != [] {
      var n := |rows| - 1;
      assert KeysOf(lib, header, rows)[..n] == KeysOf(lib, header, rows[..n]);
      TableAt(lib, header, rows[..n], key);
    }
  }

  lemma SeriesIsTable(lib: Lib, header: seq<string>, rows: seq<seq<string>>, key: Key, s: Series)
    requires IsSeries(lib, header, rows, key, s)
    ensures HistoryRows(lib, s.columns, s.values) == TableOf(lib, header, rows, key)
  {
    TableAt(lib, header, rows, key);
  }

  lemma {:induction false} SeriesMakeTables(lib: Lib, series: seq<Series>, tables: seq<seq<Row>>)
    requires |series| == |tables| && forall s :: 0 <= s < |series| ==> series[s].columns != []
    requires forall s :: 0 <= s < |series| ==> HistoryRows(lib, series[s].columns, series[s].values) == tables[s]
    ensures HistoryCells(lib, series) == All(tables)
  {
    if series != [] { SeriesMakeTables(lib, series[..|series| - 1], tables[..|tables| - 1]); }
  }

  /** The cells that the history parser reads from parsed CSV are the rows of its tables, table after table. */
  lemma ParsedCsvHoldsTables(lib: Lib, header: seq<string>, rows: seq<seq<string>>, series: seq<Series>)
    requires IsGrouping(lib, header, rows, series) && Columns(header) != []
    ensures HistoryCells(lib, series) == All(CsvTables(lib, header, rows))
  {
    var keys := Distinct(KeysOf(lib, header, rows));
    forall s | 0 <= s < |series|
      ensures series[s].columns != []
      ensures HistoryRows(lib, series[s].columns, series[s].values) == TableOf(lib, header, rows, keys[s])
    {
      assert IsSeries(lib, header, rows, keys[s], series[s]);
      SeriesIsTable(lib, header, rows, keys[s], series[s]);
    }
    SeriesMakeTables(lib, series, CsvTables(lib, header, rows));
  }

  /** The tables that have rows; the database does not send the others. */
  function NonEmpty(tables: seq<seq<Row>>): seq<seq<Row>> {
    if tables == [] then [] else
    var n := |tables| - 1;
    NonEmpty(tables[..n]) + if tables[n] == [] then [] else [tables[n]]
  }

  lemma {:induction false} NonEmptyHoldsAll(tables: seq<seq<Row>>)
    ensures All(NonEmpty(tables)) == All(tables)
  {
    if tables != [] {
      var n := |tables| - 1;
      NonEmptyHoldsAll(tables[..n]);
      if tables[n] == [] {
        assert NonEmpty(tables) == NonEmpty(tables[..n]) && All(tables) == All(tables[..n]);
      } else {
        assert NonEmpty(tables)[..|NonEmpty(tables)| - 1] == NonEmpty(tables[..n]);
      }
    }
  }

  /** The records of a CSV answer, header first: the rows long enough for data make the tables that a history query
      returns. */
  ghost predicate Encodes(lib: Lib, records: seq<seq<string>>, tables: seq<seq<Row>>, desc: bool, n: nat, offset: nat) {
    if |records| < 2 then NonEmpty(Answers(tables, desc, n, offset)) == []
    else
      && Columns(records[0]) != []
      && CsvTables(lib, records[0], DataRows(records[1..])) == NonEmpty(Answers(tables, desc, n, offset))
  }

  lemma EncodedIsResponse(lib: Lib, records: seq<seq<string>>, tables: seq<seq<Row>>, desc: bool, n: nat, offset: nat,
                          series: seq<Series>)
    requires Encodes(lib, records, tables, desc, n, offset)
    requires |records| < 2 ==> series == []
    requires |records| >= 2 ==> IsGrouping(lib, records[0], DataRows(records[1..]), series)
    ensures HistoryCells(lib, series) == Response(tables, desc, n, offset)
  {
    NonEmptyHoldsAll(Answers(tables, desc, n, offset));
    if |records| >= 2 { ParsedCsvHoldsTables(lib, records[0], DataRows(records[1..]), series); }
  }

  /** The endpoint from the database's CSV answer on: the page of the tables that the answer encodes. */
  method HistoryFromCsv(lib: Lib, page: int, limit: int, order: string, csv: seq<seq<string>>,
                        ghost tables: seq<seq<Row>>)
    returns (records: seq<TelemetryRecord>, hasMore: bool)
    requires Stored(tables)
    requires Encodes(lib, csv, tables, IsDesc(order), FetchLimit(LimitOrDefault(limit)),
                     Offset(PageOrDefault(page), LimitOrDefault(limit)))
    ensures (records, hasMore) == Requested(tables, page, limit, order)
  {
    var series := ParseFluxCSV(lib, csv);
    EncodedIsResponse(lib, csv, tables, IsDesc(order), FetchLimit(LimitOrDefault(limit)),
                      Offset(PageOrDefault(page), LimitOrDefault(limit)), series);
    records, hasMore := GetTelemetryHistory(lib, page, limit, order, series, tables);
  }
}
