/**
 The history endpoint over a database of several tables. A history query is answered with one table
 per field, each sorted, skipped into and cut off on its own; the parser merges the tables by
 timestamp, and the handler cuts the merged records
 (buildHistoryQuery and parseTelemetryHistory in
 internal/repository/telemetry/telemetry_repository_impl.go, internal/handler/telemetry_handler.go).
 */
module HistoryTables {
  import opened Common
  import opened Flux
  import opened History
  import opened HistoryPages
  import opened LastWrites
  import opened Telemetry

  type Row = Cell<Time>

  /** The rows of all tables, one table after the other. */
  function All(tables: seq<seq<Row>>): seq<Row> {
    if tables == [] then [] else All(tables[..|tables| - 1]) + tables[|tables| - 1]
  }

  ghost predicate InOrder(table: seq<Row>) {
    forall i, j :: 0 <= i < j < |table| ==> table[i].key.instant < table[j].key.instant
  }

  ghost predicate InZone(rows: seq<Row>, zone: int) { forall x :: 0 <= x < |rows| ==> rows[x].key.zone == zone }

  /** A database: within a table the times are distinct, and the rows are given oldest first; all times are
      written in one zone. */
  ghost predicate Stored(tables: seq<seq<Row>>) {
    && (forall i :: 0 <= i < |tables| ==> InOrder(tables[i]))
    && exists zone :: OneZone(tables, zone)
  }

  ghost predicate OneZone(tables: seq<seq<Row>>, zone: int) {
    forall i :: 0 <= i < |tables| ==> InZone(tables[i], zone)
  }

  /** The query's sort, offset and limit work on each table. */
  function Answers(tables: seq<seq<Row>>, desc: bool, n: nat, offset: nat): seq<seq<Row>> {
    seq(|tables|, i requires 0 <= i < |tables| => Query(tables[i], desc, n, offset))
  }

  function Response(tables: seq<seq<Row>>, desc: bool, n: nat, offset: nat): seq<Row> {
    All(Answers(tables, desc, n, offset))
  }

  // ---- What the parser makes of rows ----

  lemma {:induction false} SomeRecords(m: map<Time, map<string, Value>>) returns (s: seq<TelemetryRecord>)
    ensures IsRecords(m, s)
    decreases m.Keys
  {
    s := [];
    if m != map[] {
      var t :| t in m;
      var rest := m - {t};
      var before := SomeRecords(rest);
      s := before + [TelemetryRecord(t, m[t])];
      forall u | u in m ensures TelemetryRecord(u, m[u]) in s {
        assert u != t ==> TelemetryRecord(u, rest[u]) in before;
      }
    }
  }

  lemma ParsedExists(rows: seq<Row>)
    ensures exists s :: IsRecords(Gather(rows), s) && Ascending(s)
  {
    var some := SomeRecords(Gather(rows));
    var s := SortedRecords(Gather(rows), some);
  }

  /** One record per timestamp, oldest first. */
  ghost function Parsed(rows: seq<Row>): (s: seq<TelemetryRecord>)
    ensures IsRecords(Gather(rows), s) && Ascending(s)
  {
    ParsedExists(rows);
    var s :| IsRecords(Gather(rows), s) && Ascending(s);
    s
  }

  lemma ParsedIs(rows: seq<Row>, s: seq<TelemetryRecord>)
    requires IsRecords(Gather(rows), s) && Chronological(s)
    ensures Parsed(rows) == s
  {
    RecordsArePermutations(Gather(rows), s, Parsed(rows));
    AscendingIsUnique(s, Parsed(rows));
  }

  lemma ParsedIsChronological(rows: seq<Row>, zone: int)
    requires InZone(rows, zone)
    ensures Chronological(Parsed(rows))
  {
    var s := Parsed(rows);
    forall i, j | 0 <= i < j < |s| ensures s[i].timestamp.instant < s[j].timestamp.instant {
      var x := RowOf(rows, s[i].timestamp);
      var y := RowOf(rows, s[j].timestamp);
      assert !Before(s[j], s[i]);
    }
  }

  lemma RowOf(rows: seq<Row>, t: Time) returns (r: Row)
    requires t in Gather(rows)
    ensures r in rows && r.key == t
  {
    GatherIsLastWrites(rows, t);
    var i :| 0 <= i < |rows| && rows[i].key == t;
    r := rows[i];
  }

  lemma RecordOf(rows: seq<Row>, r: Row)
    requires r in rows
    ensures r.key in Gather(rows)
  {
    var i :| 0 <= i < |rows| && rows[i] == r;
    assert Occurs(rows, r.key);
    GatherIsLastWrites(rows, r.key);
  }

  // ---- Rows of tables ----

  lemma {:induction false} InAll(tables: seq<seq<Row>>, r: Row)
    ensures r in All(tables) <==> exists i :: 0 <= i < |tables| && r in tables[i]
  {
    if tables != [] {
      var n := |tables| - 1;
      InAll(tables[..n], r);
      if r in All(tables[..n]) {
        var i :| 0 <= i < n && r in tables[..n][i];
        assert r in tables[i];
      }
      if i :| 0 <= i < |tables| && r in tables[i] {
        assert i < n ==> r in tables[..n][i];
      }
    }
  }

  /** Row x of table i is one that the query returns. */
  predicate Returned(tables: seq<seq<Row>>, desc: bool, n: nat, offset: nat, i: nat, x: nat) {
    i < |tables| && x < |tables[i]| && InWindow(|tables[i]|, desc, n, offset, x)
  }

  lemma ReturnedRow(tables: seq<seq<Row>>, desc: bool, n: nat, offset: nat, i: nat, x: nat)
    requires Returned(tables, desc, n, offset, i, x)
    ensures tables[i][x] in Answers(tables, desc, n, offset)[i]
    ensures tables[i][x] in Response(tables, desc, n, offset)
    ensures tables[i][x].key in Gather(Response(tables, desc, n, offset))
  {
    QueryHolds(tables[i], desc, n, offset, x);
    assert tables[i][x] in Answers(tables, desc, n, offset)[i];
    InAll(Answers(tables, desc, n, offset), tables[i][x]);
    RecordOf(Response(tables, desc, n, offset), tables[i][x]);
  }

  lemma RowReturned(tables: seq<seq<Row>>, desc: bool, n: nat, offset: nat, r: Row) returns (i: nat, x: nat)
    requires r in Response(tables, desc, n, offset)
    ensures Returned(tables, desc, n, offset, i, x) && tables[i][x] == r
  {
    InAll(Answers(tables, desc, n, offset), r);
    i :| 0 <= i < |tables| && r in Answers(tables, desc, n, offset)[i];
    var y :| 0 <= y < |Query(tables[i], desc, n, offset)| && Query(tables[i], desc, n, offset)[y] == r;
    x := QueryHoldsOnly(tables[i], desc, n, offset, y);
  }

  lemma {:induction false} AllInZone(tables: seq<seq<Row>>, zone: int)
    requires OneZone(tables, zone)
    ensures InZone(All(tables), zone)
  {
    if tables != [] { AllInZone(tables[..|tables| - 1], zone); }
  }

  lemma ResponseIsChronological(tables: seq<seq<Row>>, desc: bool, n: nat, offset: nat)
    requires Stored(tables)
    ensures Chronological(Parsed(Response(tables, desc, n, offset)))
  {
    var zone :| OneZone(tables, zone);
    var answers := Answers(tables, desc, n, offset);
    forall i | 0 <= i < |answers| ensures InZone(answers[i], zone) {
      forall y | 0 <= y < |answers[i]| ensures answers[i][y].key.zone == zone {
        var x := QueryHoldsOnly(tables[i], desc, n, offset, y);
      }
    }
    AllInZone(answers, zone);
    ParsedIsChronological(All(answers), zone);
  }

  // ---- The endpoint ----

  /** What a page answers, when the database holds `tables`. */
  ghost function TablesPage(tables: seq<seq<Row>>, desc: bool, limit: nat, offset: nat): (seq<TelemetryRecord>, bool) {
    Cut(Parsed(Response(tables, desc, limit + 1, offset)), limit)
  }

  function FetchLimit(limit: nat): nat { if limit > 0 then limit + 1 else limit }

  /** What the endpoint answers to a request, when the database holds `tables`. */
  ghost function Requested(tables: seq<seq<Row>>, page: int, limit: int, order: string): (seq<TelemetryRecord>, bool) {
    TablesPage(tables, IsDesc(order), LimitOrDefault(limit), Offset(PageOrDefault(page), LimitOrDefault(limit)))
  }

  lemma CutMakesPage(tables: seq<seq<Row>>, desc: bool, limit: nat, offset: nat, parsed: seq<TelemetryRecord>)
    requires Stored(tables)
    requires IsRecords(Gather(Response(tables, desc, limit + 1, offset)), parsed) && Ascending(parsed)
    ensures Cut(parsed, limit) == TablesPage(tables, desc, limit, offset)
  {
    var rows := Response(tables, desc, limit + 1, offset);
    ResponseIsChronological(tables, desc, limit + 1, offset);
    RecordsArePermutations(Gather(rows), Parsed(rows), parsed);
    AscendingIsUnique(Parsed(rows), parsed);
  }

  /** The endpoint, from the paging members of the request to the records of the response. `series` is what
      the database answers to the query that is made of them. */
  method GetTelemetryHistory(lib: Lib, page: int, limit: int, order: string, series: seq<Series>,
                             ghost tables: seq<seq<Row>>)
    returns (records: seq<TelemetryRecord>, hasMore: bool)
    requires Stored(tables)
    requires HistoryCells(lib, series) == Response(tables, IsDesc(order), FetchLimit(LimitOrDefault(limit)),
                                                   Offset(PageOrDefault(page), LimitOrDefault(limit)))
    ensures (records, hasMore) == Requested(tables, page, limit, order)
  {
    var reqLimit, offset, sortDesc := ReadPaging(page, limit, order);
    var parsed := ParseTelemetryHistory(lib, series);
    records := parsed[..];
    CutMakesPage(tables, sortDesc, reqLimit, offset, records);
    hasMore := |records| > reqLimit;
    if hasMore {
      records := records[..reqLimit];
    }
  }

  // ---- The whole history, and where the rows of a table stand in it ----

  /** All rows of the database as one history. */
  ghost function Whole(tables: seq<seq<Row>>): seq<TelemetryRecord> { Parsed(All(tables)) }

  lemma WholeIsChronological(tables: seq<seq<Row>>)
    requires Stored(tables)
    ensures Chronological(Whole(tables))
  {
    var zone :| OneZone(tables, zone);
    AllInZone(tables, zone);
    ParsedIsChronological(All(tables), zone);
  }

  /** Row x of table i is of the time of the k-th record. */
  ghost predicate Stands(tables: seq<seq<Row>>, i: nat, x: nat, k: nat) {
    i < |tables| && x < |tables[i]| && k < |Whole(tables)| && tables[i][x].key == Whole(tables)[k].timestamp
  }

  lemma PlaceOfRow(tables: seq<seq<Row>>, i: nat, x: nat) returns (k: nat)
    requires i < |tables| && x < |tables[i]|
    ensures Stands(tables, i, x, k)
  {
    InAll(tables, tables[i][x]);
    RecordOf(All(tables), tables[i][x]);
    var t := tables[i][x].key;
    var r := TelemetryRecord(t, Gather(All(tables))[t]);
    assert r in Whole(tables);
    k :| 0 <= k < |Whole(tables)| && Whole(tables)[k] == r;
  }

  lemma RowOfPlace(tables: seq<seq<Row>>, k: nat) returns (i: nat, x: nat)
    requires k < |Whole(tables)|
    ensures Stands(tables, i, x, k)
  {
    var r := RowOf(All(tables), Whole(tables)[k].timestamp);
    InAll(tables, r);
    i :| 0 <= i < |tables| && r in tables[i];
    x :| 0 <= x < |tables[i]| && tables[i][x] == r;
  }

  /** Rows and records stand in the same order. */
  lemma SameOrder(tables: seq<seq<Row>>, i: nat, x: nat, k: nat, j: nat, y: nat, l: nat)
    requires Stored(tables) && Stands(tables, i, x, k) && Stands(tables, j, y, l)
    ensures tables[i][x].key.instant < tables[j][y].key.instant <==> k < l
    ensures tables[i][x].key == tables[j][y].key <==> k == l
    ensures i == j ==> (x < y <==> k < l)
  {
    WholeIsChronological(tables);
  }

  /** A table has no more rows before a row than the history has records before it, and none more after it. */
  lemma {:induction false} RanksAtMost(tables: seq<seq<Row>>, i: nat, x: nat, k: nat)
    requires Stored(tables) && Stands(tables, i, x, k)
    ensures x <= k
    decreases x
  {
    if x > 0 {
      var l := PlaceOfRow(tables, i, x - 1);
      SameOrder(tables, i, x - 1, l, i, x, k);
      RanksAtMost(tables, i, x - 1, l);
    }
  }

  lemma {:induction false} RanksAtMostFromEnd(tables: seq<seq<Row>>, i: nat, x: nat, k: nat)
    requires Stored(tables) && Stands(tables, i, x, k)
    ensures |tables[i]| - x <= |Whole(tables)| - k
    decreases |tables[i]| - x
  {
    if x + 1 < |tables[i]| {
      var l := PlaceOfRow(tables, i, x + 1);
      SameOrder(tables, i, x, k, i, x + 1, l);
      RanksAtMostFromEnd(tables, i, x + 1, l);
    }
  }

  // ---- Records that a response holds as a whole ----

  lemma {:induction false} WriteOfConcatenation(a: seq<Row>, b: seq<Row>, t: Time, f: string)
    ensures LastWrite(a + b, t, f) == if LastWrite(b, t, f).Some? then LastWrite(b, t, f) else LastWrite(a, t, f)
  {
    if b == [] {
      assert a + b == a;
    } else {
      assert (a + b)[..|a + b| - 1] == a + b[..|b| - 1];
      WriteOfConcatenation(a, b[..|b| - 1], t, f);
    }
  }

  lemma {:induction false} SameWrites(a: seq<seq<Row>>, b: seq<seq<Row>>, t: Time, f: string)
    requires |a| == |b| && forall i :: 0 <= i < |a| ==> LastWrite(a[i], t, f) == LastWrite(b[i], t, f)
    ensures LastWrite(All(a), t, f) == LastWrite(All(b), t, f)
  {
    if a != [] {
      var n := |a| - 1;
      SameWrites(a[..n], b[..n], t, f);
      WriteOfConcatenation(All(a[..n]), a[n], t, f);
      WriteOfConcatenation(All(b[..n]), b[n], t, f);
    }
  }

  lemma {:induction false} WriteIsOfRow(rows: seq<Row>, t: Time, f: string)
    ensures LastWrite(rows, t, f).Some? <==> exists r :: r in rows && r.key == t && WritesField(r, f)
    ensures LastWrite(rows, t, f).Some? ==> Cell(t, Some((f, LastWrite(rows, t, f).value))) in rows
  {
    if rows != [] {
      var n := |rows| - 1;
      WriteIsOfRow(rows[..n], t, f);
      assert rows == rows[..n] + [rows[n]];
    }
  }

  predicate WritesField(r: Row, f: string) { r.write.Some? && r.write.value.0 == f }

  /** A selection of a table's rows that has every row of time t writes there what the table does. */
  lemma SelectionWrites(table: seq<Row>, some: seq<Row>, t: Time, f: string)
    requires InOrder(table) && forall r :: r in some ==> r in table
    requires forall r :: r in table && r.key == t ==> r in some
    ensures LastWrite(some, t, f) == LastWrite(table, t, f)
  {
    WriteIsOfRow(table, t, f);
    WriteIsOfRow(some, t, f);
    if LastWrite(table, t, f).Some? {
      var v, v' := LastWrite(table, t, f).value, LastWrite(some, t, f).value;
      OneRowPerTime(table, Cell(t, Some((f, v))), Cell(t, Some((f, v'))));
    }
  }

  lemma OneRowPerTime(table: seq<Row>, r: Row, r': Row)
    requires InOrder(table) && r in table && r' in table && r.key == r'.key
    ensures r == r'
  {
    var x :| 0 <= x < |table| && table[x] == r;
    var y :| 0 <= y < |table| && table[y] == r';
  }

  /** Every row of the k-th record is returned. */
  ghost predicate AllReturned(tables: seq<seq<Row>>, desc: bool, n: nat, offset: nat, k: nat) {
    forall i, x :: Stands(tables, i, x, k) ==> Returned(tables, desc, n, offset, i, x)
  }

  /** Then the response makes the same record of them. */
  lemma RecordIsWhole(tables: seq<seq<Row>>, desc: bool, n: nat, offset: nat, k: nat)
    requires Stored(tables) && k < |Whole(tables)| && AllReturned(tables, desc, n, offset, k)
    ensures Whole(tables)[k] in Parsed(Response(tables, desc, n, offset))
  {
    var t, some := Whole(tables)[k].timestamp, Answers(tables, desc, n, offset);
    var i0, x0 := RowOfPlace(tables, k);
    ReturnedRow(tables, desc, n, offset, i0, x0);
    forall f ensures LastWrite(All(some), t, f) == LastWrite(All(tables), t, f) {
      WritesAreWhole(tables, desc, n, offset, k, f);
    }
    SameBag(All(some), All(tables), t);
    assert TelemetryRecord(t, Gather(All(some))[t]) in Parsed(All(some));
  }

  lemma WritesAreWhole(tables: seq<seq<Row>>, desc: bool, n: nat, offset: nat, k: nat, f: string)
    requires Stored(tables) && k < |Whole(tables)| && AllReturned(tables, desc, n, offset, k)
    ensures var t := Whole(tables)[k].timestamp;
      LastWrite(Response(tables, desc, n, offset), t, f) == LastWrite(All(tables), t, f)
  {
    var t, some := Whole(tables)[k].timestamp, Answers(tables, desc, n, offset);
    forall i | 0 <= i < |tables| ensures LastWrite(some[i], t, f) == LastWrite(tables[i], t, f) {
      AnswerSelects(tables, desc, n, offset, k, i);
      SelectionWrites(tables[i], some[i], t, f);
    }
    SameWrites(some, tables, t, f);
  }

  lemma SameBag(a: seq<Row>, b: seq<Row>, t: Time)
    requires t in Gather(a) && t in Gather(b) && forall f :: LastWrite(a, t, f) == LastWrite(b, t, f)
    ensures Gather(a)[t] == Gather(b)[t]
  {
    GatherIsLastWrites(a, t);
    GatherIsLastWrites(b, t);
  }

  lemma AnswerSelects(tables: seq<seq<Row>>, desc: bool, n: nat, offset: nat, k: nat, i: nat)
    requires Stored(tables) && k < |Whole(tables)| && AllReturned(tables, desc, n, offset, k) && i < |tables|
    ensures var some := Answers(tables, desc, n, offset)[i];
      && (forall r :: r in some ==> r in tables[i])
      && (forall r :: r in tables[i] && r.key == Whole(tables)[k].timestamp ==> r in some)
  {
    var some := Answers(tables, desc, n, offset)[i];
    forall r | r in some ensures r in tables[i] {
      var y :| 0 <= y < |some| && some[y] == r;
      var x := QueryHoldsOnly(tables[i], desc, n, offset, y);
    }
    forall r | r in tables[i] && r.key == Whole(tables)[k].timestamp ensures r in some {
      var x :| 0 <= x < |tables[i]| && tables[i][x] == r;
      assert Stands(tables, i, x, k);
      ReturnedRow(tables, desc, n, offset, i, x);
    }
  }

  /** Each record of a response is of the time of a record of the history, and of a row that is returned. */
  lemma RecordStands(tables: seq<seq<Row>>, desc: bool, n: nat, offset: nat, r: TelemetryRecord)
    returns (i: nat, x: nat, k: nat)
    requires r in Parsed(Response(tables, desc, n, offset))
    ensures Returned(tables, desc, n, offset, i, x) && Stands(tables, i, x, k)
    ensures r.timestamp == Whole(tables)[k].timestamp
  {
    var row := RowOf(Response(tables, desc, n, offset), r.timestamp);
    i, x := RowReturned(tables, desc, n, offset, row);
    k := PlaceOfRow(tables, i, x);
  }

  // ---- What a chronological list holds in front ----

  ghost predicate After(r: TelemetryRecord, first: seq<TelemetryRecord>) {
    forall y :: 0 <= y < |first| ==> first[y].timestamp.instant < r.timestamp.instant
  }

  /** A list holds some records, and all others that it holds are later. */
  ghost predicate HoldsFirst(s: seq<TelemetryRecord>, first: seq<TelemetryRecord>) {
    && (forall y :: 0 <= y < |first| ==> first[y] in s)
    && (forall x :: 0 <= x < |s| ==> s[x] in first || After(s[x], first))
  }

  ghost predicate Leads(first: seq<TelemetryRecord>, s: seq<TelemetryRecord>) {
    |first| <= |s| && forall y :: 0 <= y < |first| ==> s[y] == first[y]
  }

  lemma {:induction false} NotBefore(s: seq<TelemetryRecord>, first: seq<TelemetryRecord>, y: nat, x: nat)
    requires Chronological(s) && Chronological(first) && forall k :: 0 <= k < |first| ==> first[k] in s
    requires y < |first| && x < |s| && s[x] == first[y]
    ensures y <= x
    decreases y
  {
    if y > 0 {
      var z :| 0 <= z < |s| && s[z] == first[y - 1];
      NotBefore(s, first, y - 1, z);
    }
  }

  lemma {:induction false} NotAfter(s: seq<TelemetryRecord>, first: seq<TelemetryRecord>, y: nat, x: nat)
    requires Chronological(s) && Chronological(first) && HoldsFirst(s, first)
    requires y < |first| && x < |s| && s[x] == first[y]
    ensures x <= y
    decreases x
  {
    if x > 0 {
      assert s[x - 1] in first;
      var z :| 0 <= z < |first| && first[z] == s[x - 1];
      NotAfter(s, first, z, x - 1);
    }
  }

  /** Then a chronological list holds them in front. */
  lemma InFront(s: seq<TelemetryRecord>, first: seq<TelemetryRecord>)
    requires Chronological(s) && Chronological(first) && HoldsFirst(s, first)
    ensures Leads(first, s)
  {
    forall y | 0 <= y < |first| ensures y < |s| && s[y] == first[y] {
      assert first[y] in s;
      var x :| 0 <= x < |s| && s[x] == first[y];
      NotBefore(s, first, y, x);
      NotAfter(s, first, y, x);
    }
    assert |first| > 0 ==> first[|first| - 1] in s;
  }

  // ---- The fields of a record ----

  /** Every row writes a field, and no other table's row of the same time writes it. */
  ghost predicate Separate(tables: seq<seq<Row>>) {
    && (forall i, x :: 0 <= i < |tables| && 0 <= x < |tables[i]| ==> tables[i][x].write.Some?)
    && (forall i, j, x, y ::
          0 <= i < |tables| && 0 <= j < |tables| && 0 <= x < |tables[i]| && 0 <= y < |tables[j]| ==>
          SameField(tables[i][x], tables[j][y]) ==> i == j)
  }

  predicate SameField(r: Row, r': Row) {
    r.key == r'.key && r.write.Some? && r'.write.Some? && r.write.value.0 == r'.write.value.0
  }

  /** The k-th record has every field that a row of its time writes. */
  lemma RecordHasEveryField(tables: seq<seq<Row>>, i: nat, x: nat, k: nat)
    requires Stored(tables) && Separate(tables) && Stands(tables, i, x, k)
    ensures var (f, v) := tables[i][x].write.value;
      f in Whole(tables)[k].fields && Whole(tables)[k].fields[f] == v
  {
    var row := tables[i][x];
    var t, f := row.key, row.write.value.0;
    InAll(tables, row);
    WriteIsOfRow(All(tables), t, f);
    assert row in All(tables) && WritesField(row, f);
    GatherIsLastWrites(All(tables), t);
    var r := Cell(t, Some((f, LastWrite(All(tables), t, f).value)));
    InAll(tables, r);
    var j :| 0 <= j < |tables| && r in tables[j];
    var y :| 0 <= y < |tables[j]| && tables[j][y] == r;
    assert SameField(tables[j][y], row);
    OneRowPerTime(tables[i], row, r);
  }

  /** And it has no other field. */
  lemma RecordHasNoOtherField(tables: seq<seq<Row>>, k: nat, f: string) returns (i: nat, x: nat)
    requires k < |Whole(tables)| && f in Whole(tables)[k].fields
    ensures Stands(tables, i, x, k) && WritesField(tables[i][x], f)
  {
    var t := Whole(tables)[k].timestamp;
    GatherIsLastWrites(All(tables), t);
    WriteIsOfRow(All(tables), t, f);
    var r := Cell(t, Some((f, LastWrite(All(tables), t, f).value)));
    InAll(tables, r);
    i :| 0 <= i < |tables| && r in tables[i];
    x :| 0 <= x < |tables[i]| && tables[i][x] == r;
  }

  // ---- Fields written at the same times ----

  /** Every table has a row for every time. */
  ghost predicate Aligned(tables: seq<seq<Row>>) {
    forall i, j :: 0 <= i < |tables| && 0 <= j < |tables| ==>
      |tables[i]| == |tables[j]| && forall x :: 0 <= x < |tables[i]| ==> tables[i][x].key == tables[j][x].key
  }

  lemma {:induction false} AlignedRanks(tables: seq<seq<Row>>, i: nat, x: nat, k: nat)
    requires Stored(tables) && Aligned(tables) && Stands(tables, i, x, k)
    ensures x == k
  {
    RanksAtMost(tables, i, x, k);
    if k > 0 {
      var y := AlignedRow(tables, i, k - 1);
      AlignedRanks(tables, i, y, k - 1);
      SameOrder(tables, i, y, k - 1, i, x, k);
    }
  }

  lemma AlignedRow(tables: seq<seq<Row>>, i: nat, k: nat) returns (x: nat)
    requires Aligned(tables) && i < |tables| && k < |Whole(tables)|
    ensures Stands(tables, i, x, k)
  {
    var j;
    j, x := RowOfPlace(tables, k);
  }

  lemma AlignedSizes(tables: seq<seq<Row>>, i: nat)
    requires Stored(tables) && Aligned(tables) && i < |tables|
    ensures |tables[i]| == |Whole(tables)|
  {
    if |tables[i]| > 0 {
      var k := PlaceOfRow(tables, i, |tables[i]| - 1);
      AlignedRanks(tables, i, |tables[i]| - 1, k);
    }
    if |Whole(tables)| > 0 {
      var y := AlignedRow(tables, i, |Whole(tables)| - 1);
      AlignedRanks(tables, i, y, |Whole(tables)| - 1);
    }
  }

  lemma AlignedRecord(tables: seq<seq<Row>>, desc: bool, n: nat, offset: nat, k: nat)
    requires Stored(tables) && Aligned(tables) && k < |Whole(tables)| && InWindow(|Whole(tables)|, desc, n, offset, k)
    ensures Whole(tables)[k] in Parsed(Response(tables, desc, n, offset))
  {
    forall i: nat, x: nat | Stands(tables, i, x, k) ensures Returned(tables, desc, n, offset, i, x) {
      AlignedSizes(tables, i);
      AlignedRanks(tables, i, x, k);
    }
    RecordIsWhole(tables, desc, n, offset, k);
  }

  lemma AlignedStands(tables: seq<seq<Row>>, desc: bool, n: nat, offset: nat, r: TelemetryRecord)
    requires Stored(tables) && Aligned(tables) && r in Parsed(Response(tables, desc, n, offset))
    ensures r in Window(Whole(tables), desc, n, offset)
  {
    var i, x, k := RecordStands(tables, desc, n, offset, r);
    AlignedSizes(tables, i);
    AlignedRanks(tables, i, x, k);
    AlignedRecord(tables, desc, n, offset, k);
    SameRecord(Response(tables, desc, n, offset), r, Whole(tables)[k]);
    QueryHolds(Whole(tables), desc, n, offset, k);
  }

  lemma SameRecord(rows: seq<Row>, r: TelemetryRecord, r': TelemetryRecord)
    requires r in Parsed(rows) && r' in Parsed(rows) && r.timestamp == r'.timestamp
    ensures r == r'
  {
  }

  /** The parser puts the rows of a query back in chronological order, whichever order they came in. */
  lemma ParserSortsOldestFirst(tables: seq<seq<Row>>, desc: bool, n: nat, offset: nat)
    requires Stored(tables) && Aligned(tables)
    ensures Parsed(Response(tables, desc, n, offset)) == Window(Whole(tables), desc, n, offset)
  {
    var s, window := Parsed(Response(tables, desc, n, offset)), Window(Whole(tables), desc, n, offset);
    WholeIsChronological(tables);
    ResponseIsChronological(tables, desc, n, offset);
    forall y | 0 <= y < |window| ensures window[y] in s {
      var k := WindowHoldsOnly(Whole(tables), desc, n, offset, y);
      AlignedRecord(tables, desc, n, offset, k);
    }
    forall x | 0 <= x < |s| ensures s[x] in window {
      AlignedStands(tables, desc, n, offset, s[x]);
    }
    WindowIsChronological(Whole(tables), desc, n, offset);
    SameRecords(s, window);
  }

  /** Chronological lists that hold the same records are equal. */
  lemma SameRecords(s: seq<TelemetryRecord>, s': seq<TelemetryRecord>)
    requires Chronological(s) && Chronological(s') && HoldsFirst(s, s') && HoldsFirst(s', s)
    ensures s == s'
  {
    InFront(s, s');
    InFront(s', s);
  }

  /** However many fields are written at the same times, the endpoint answers the pages of the history of whole
      records: each record of a page has all its fields, and AscendingPagesTile and the lemmas on descending
      pages hold of what is answered. */
  lemma AlignedPage(tables: seq<seq<Row>>, desc: bool, limit: nat, offset: nat)
    requires Stored(tables) && Aligned(tables)
    ensures Chronological(Whole(tables))
    ensures TablesPage(tables, desc, limit, offset) == Page(Whole(tables), desc, limit, offset)
  {
    WholeIsChronological(tables);
    ParserSortsOldestFirst(tables, desc, limit + 1, offset);
  }
}
