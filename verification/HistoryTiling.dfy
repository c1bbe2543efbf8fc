/**
 Ascending history pages over any tables: the exact condition under which they tile the history, and
 two fields for which they do not.
 */
module HistoryTiling {
  import opened Common
  import opened Flux
  import opened History
  import opened HistoryPages
  import opened HistoryTables
  import opened LastWrites
  import opened Telemetry

  /** Ascending pages 1 to p, one after the other. */
  ghost function TablesPages(tables: seq<seq<Row>>, limit: nat, p: nat): seq<TelemetryRecord> {
    if p == 0 then []
    else TablesPages(tables, limit, p - 1) + TablesPage(tables, false, limit, Offset(p, limit)).0
  }

  ghost predicate AscendingTiles(tables: seq<seq<Row>>, limit: nat) {
    forall p: nat :: TablesPages(tables, limit, p) == Whole(tables)[..Min(p * limit, |Whole(tables)|)]
  }

  /** Every row counts for the same page in its own table as its record does in the history. */
  ghost predicate SamePages(tables: seq<seq<Row>>, limit: nat)
    requires limit > 0
  {
    forall i: nat, x: nat, k: nat :: Stands(tables, i, x, k) ==> x / limit == k / limit
  }

  /** Rows and their records are on one side of the place `at`. */
  ghost predicate Together(tables: seq<seq<Row>>, at: nat) {
    forall i: nat, x: nat, k: nat :: Stands(tables, i, x, k) ==> (at <= x <==> at <= k)
  }

  /** x is at q * limit or later exactly when q pages fit before it. */
  lemma PageFits(x: nat, limit: nat, q: nat)
    requires limit > 0
    ensures q * limit <= x <==> q <= x / limit
  {
    FitsExactly(x, limit, q);
    assert q * limit == limit * q;
  }

  lemma SamePagesTogether(tables: seq<seq<Row>>, limit: nat, q: nat)
    requires limit > 0 && SamePages(tables, limit)
    ensures Together(tables, q * limit)
  {
    forall i: nat, x: nat, k: nat | Stands(tables, i, x, k) ensures q * limit <= x <==> q * limit <= k {
      PageFits(x, limit, q);
      PageFits(k, limit, q);
    }
  }

  /** Where rows and records stay together, all rows of a record of the page are returned with it. */
  lemma OnOwnPage(tables: seq<seq<Row>>, limit: nat, at: nat, k: nat)
    requires Stored(tables) && Together(tables, at) && Together(tables, at + limit)
    requires k < |Whole(tables)| && at <= k < at + limit
    ensures Whole(tables)[k] in Parsed(Response(tables, false, limit + 1, at))
  {
    hide *;
    AllReturnedTogether(tables, limit, at, k);
    RecordIsWhole(tables, false, limit + 1, at, k);
  }

  lemma AllReturnedTogether(tables: seq<seq<Row>>, limit: nat, at: nat, k: nat)
    requires Together(tables, at) && Together(tables, at + limit) && at <= k < at + limit
    ensures AllReturned(tables, false, limit + 1, at, k)
  {
    forall i: nat, x: nat | Stands(tables, i, x, k) ensures Returned(tables, false, limit + 1, at, i, x) {
      ReturnedTogether(tables, limit, at, i, x, k);
    }
  }

  lemma ReturnedTogether(tables: seq<seq<Row>>, limit: nat, at: nat, i: nat, x: nat, k: nat)
    requires Together(tables, at) && Together(tables, at + limit) && Stands(tables, i, x, k) && at <= k < at + limit
    ensures Returned(tables, false, limit + 1, at, i, x)
  {
  }

  /** What is returned with a page is of the page, and then a whole record, or later. */
  lemma OfPageOrLater(tables: seq<seq<Row>>, limit: nat, at: nat, r: TelemetryRecord) returns (k: nat)
    requires Stored(tables) && Together(tables, at) && Together(tables, at + limit)
    requires r in Parsed(Response(tables, false, limit + 1, at))
    ensures at <= k < |Whole(tables)| && r.timestamp == Whole(tables)[k].timestamp
    ensures k < at + limit ==> r == Whole(tables)[k]
  {
    var i, x;
    i, x, k := RecordStands(tables, false, limit + 1, at, r);
    if k < at + limit { OnOwnPage(tables, limit, at, k); }
  }

  /** With records left after the page, one of them is returned with it. */
  lemma LookAhead(tables: seq<seq<Row>>, limit: nat, at: nat) returns (k: nat, r: TelemetryRecord)
    requires Stored(tables) && Together(tables, at + limit) && at + limit < |Whole(tables)|
    ensures at + limit <= k < |Whole(tables)| && r.timestamp == Whole(tables)[k].timestamp
    ensures r in Parsed(Response(tables, false, limit + 1, at))
  {
    hide Stored, Together, Whole, Parsed, Response;
    var i;
    i, k := FirstLeft(tables, at + limit);
    LastOfWindow(tables, limit, at, i, k);
    r := RecordReturned(tables, false, limit + 1, at, i, at + limit);
  }

  lemma LastOfWindow(tables: seq<seq<Row>>, limit: nat, at: nat, i: nat, k: nat)
    requires Stands(tables, i, at + limit, k)
    ensures Returned(tables, false, limit + 1, at, i, at + limit)
  {
  }

  /** Some table has a row at the place `at`, if the history has a record there. */
  lemma FirstLeft(tables: seq<seq<Row>>, at: nat) returns (i: nat, k: nat)
    requires Together(tables, at) && at < |Whole(tables)|
    ensures Stands(tables, i, at, k) && at <= k
  {
    var x;
    i, x := RowOfPlace(tables, at);
    k := PlaceOfRow(tables, i, at);
  }

  lemma RecordReturned(tables: seq<seq<Row>>, desc: bool, n: nat, offset: nat, i: nat, x: nat)
    returns (r: TelemetryRecord)
    requires Returned(tables, desc, n, offset, i, x)
    ensures r in Parsed(Response(tables, desc, n, offset)) && r.timestamp == tables[i][x].key
  {
    ReturnedRow(tables, desc, n, offset, i, x);
    var t := tables[i][x].key;
    r := TelemetryRecord(t, Gather(Response(tables, desc, n, offset))[t]);
  }

  lemma OfPageOrAfter(tables: seq<seq<Row>>, limit: nat, at: nat, r: TelemetryRecord)
    requires Stored(tables) && Together(tables, at) && Together(tables, at + limit)
    requires r in Parsed(Response(tables, false, limit + 1, at))
    ensures var page := Intended(Whole(tables), false, limit, at); r in page || After(r, page)
  {
    var page := Intended(Whole(tables), false, limit, at);
    var k := OfPageOrLater(tables, limit, at, r);
    if k < at + limit {
      assert page[k - at] == r;
    } else {
      WholeIsChronological(tables);
    }
  }

  lemma OnPage(tables: seq<seq<Row>>, limit: nat, at: nat, y: nat)
    requires Stored(tables) && Together(tables, at) && Together(tables, at + limit)
    requires y < |Intended(Whole(tables), false, limit, at)|
    ensures Intended(Whole(tables), false, limit, at)[y] in Parsed(Response(tables, false, limit + 1, at))
  {
    OnOwnPage(tables, limit, at, at + y);
  }

  lemma PageIsHeldFirst(tables: seq<seq<Row>>, limit: nat, at: nat)
    requires Stored(tables) && Together(tables, at) && Together(tables, at + limit)
    ensures HoldsFirst(Parsed(Response(tables, false, limit + 1, at)), Intended(Whole(tables), false, limit, at))
  {
    var s, page := Parsed(Response(tables, false, limit + 1, at)), Intended(Whole(tables), false, limit, at);
    forall y | 0 <= y < |page| ensures page[y] in s {
      OnPage(tables, limit, at, y);
    }
    forall x | 0 <= x < |s| ensures s[x] in page || After(s[x], page) {
      OfPageOrAfter(tables, limit, at, s[x]);
    }
  }

  lemma PageIsInFront(tables: seq<seq<Row>>, limit: nat, at: nat)
    requires Stored(tables) && Together(tables, at) && Together(tables, at + limit)
    ensures Leads(Intended(Whole(tables), false, limit, at), Parsed(Response(tables, false, limit + 1, at)))
  {
    PageIsHeldFirst(tables, limit, at);
    ResponseIsChronological(tables, false, limit + 1, at);
    PageIsChronological(tables, limit, at);
    InFront(Parsed(Response(tables, false, limit + 1, at)), Intended(Whole(tables), false, limit, at));
  }

  lemma PageIsChronological(tables: seq<seq<Row>>, limit: nat, at: nat)
    requires Stored(tables)
    ensures Chronological(Intended(Whole(tables), false, limit, at))
  {
    WholeIsChronological(tables);
  }

  /** What is returned beyond the page is later than the page. */
  lemma BeyondPage(tables: seq<seq<Row>>, limit: nat, at: nat) returns (k: nat)
    requires Stored(tables) && Together(tables, at) && Together(tables, at + limit)
    requires |Parsed(Response(tables, false, limit + 1, at))| > |Intended(Whole(tables), false, limit, at)|
    ensures at + limit <= k < |Whole(tables)|
  {
    hide Stored, Together, Whole, Parsed, Response;
    var s, page := Parsed(Response(tables, false, limit + 1, at)), Intended(Whole(tables), false, limit, at);
    k := OfPageOrLater(tables, limit, at, s[|page|]);
    PageIsInFront(tables, limit, at);
    ResponseIsChronological(tables, false, limit + 1, at);
    if k < at + limit {
      assert false;
    }
  }

  /** With records left, one of them is. */
  lemma SomethingMore(tables: seq<seq<Row>>, limit: nat, at: nat)
    requires Stored(tables) && Together(tables, at) && Together(tables, at + limit) && at + limit < |Whole(tables)|
    ensures |Parsed(Response(tables, false, limit + 1, at))| > |Intended(Whole(tables), false, limit, at)|
  {
    var s, page := Parsed(Response(tables, false, limit + 1, at)), Intended(Whole(tables), false, limit, at);
    PageIsInFront(tables, limit, at);
    var k, r := LookAhead(tables, limit, at);
    WholeIsChronological(tables);
    var y :| 0 <= y < |s| && s[y] == r;
  }

  lemma CutIsPage(s: seq<TelemetryRecord>, page: seq<TelemetryRecord>, limit: nat)
    requires Leads(page, s) && |page| <= limit && (|s| > |page| ==> |page| == limit)
    ensures Cut(s, limit) == (page, |s| > |page|)
  {
    assert s[..|page|] == page;
    assert |s| == |page| ==> s == page;
  }

  lemma TogetherGivesPage(tables: seq<seq<Row>>, limit: nat, at: nat)
    requires Stored(tables) && Together(tables, at) && Together(tables, at + limit)
    ensures TablesPage(tables, false, limit, at) == Page(Whole(tables), false, limit, at)
  {
    PageIsInFront(tables, limit, at);
    AscendingPage(Whole(tables), limit, at);
    if at + limit < |Whole(tables)| {
      SomethingMore(tables, limit, at);
    } else if |Parsed(Response(tables, false, limit + 1, at))| > |Intended(Whole(tables), false, limit, at)| {
      var k := BeyondPage(tables, limit, at);
    }
    CutIsPage(Parsed(Response(tables, false, limit + 1, at)), Intended(Whole(tables), false, limit, at), limit);
  }

  lemma SamePagesGivePage(tables: seq<seq<Row>>, limit: nat, p: nat)
    requires Stored(tables) && limit > 0 && SamePages(tables, limit) && p > 0
    ensures TablesPage(tables, false, limit, Offset(p, limit)) == Page(Whole(tables), false, limit, Offset(p, limit))
  {
    SamePagesTogether(tables, limit, p - 1);
    SamePagesTogether(tables, limit, p);
    assert p * limit == (p - 1) * limit + limit;
    TogetherGivesPage(tables, limit, Offset(p, limit));
  }

  lemma {:induction false} SamePagesTile(tables: seq<seq<Row>>, limit: nat, p: nat)
    requires Stored(tables) && limit > 0 && SamePages(tables, limit)
    ensures TablesPages(tables, limit, p) == Pages(Whole(tables), false, limit, p)
  {
    hide Stored, SamePages, TablesPage, Page;
    if p > 0 {
      SamePagesTile(tables, limit, p - 1);
      SamePagesGivePage(tables, limit, p);
    }
  }

  /** A field of a record that a page holds comes from a row that the page's query returned. */
  lemma FieldReturned(tables: seq<seq<Row>>, n: nat, offset: nat, i: nat, x: nat, k: nat)
    requires Stored(tables) && Separate(tables) && Stands(tables, i, x, k)
    requires Whole(tables)[k] in Parsed(Response(tables, false, n, offset))
    ensures Returned(tables, false, n, offset, i, x)
  {
    var row, response := tables[i][x], Response(tables, false, n, offset);
    var t, f := row.key, row.write.value.0;
    InAll(tables, row);
    WriteIsOfRow(All(tables), t, f);
    assert row in All(tables) && WritesField(row, f);
    GatherIsLastWrites(All(tables), t);
    GatherIsLastWrites(response, t);
    WriteIsOfRow(response, t, f);
    var r := Cell(t, Some((f, LastWrite(response, t, f).value)));
    var j, y := RowReturned(tables, false, n, offset, r);
    assert SameField(tables[j][y], row);
  }

  lemma TilingGivesPage(tables: seq<seq<Row>>, limit: nat, q: nat)
    requires limit > 0 && AscendingTiles(tables, limit)
    ensures TablesPage(tables, false, limit, q * limit).0 == Intended(Whole(tables), false, limit, q * limit)
  {
    hide TablesPage, Whole;
    var h, before := Whole(tables), TablesPages(tables, limit, q);
    assert TablesPages(tables, limit, q + 1) == before + TablesPage(tables, false, limit, Offset(q + 1, limit)).0;
    assert Offset(q + 1, limit) == q * limit && (q + 1) * limit == q * limit + limit;
    assert before == h[..Min(q * limit, |h|)];
    assert TablesPages(tables, limit, q + 1) == h[..Min(q * limit + limit, |h|)];
    assert TablesPages(tables, limit, q + 1)[|before|..] == TablesPage(tables, false, limit, q * limit).0;
  }

  /** Whatever the fields' times, ascending pages tile the history exactly when every row counts for the same
      page in its own table as its record does in the history. */
  lemma AscendingTilesExactlyWhenSamePages(tables: seq<seq<Row>>, limit: nat)
    requires Stored(tables) && Separate(tables) && limit > 0
    ensures AscendingTiles(tables, limit) <==> SamePages(tables, limit)
  {
    if SamePages(tables, limit) {
      forall p: nat ensures TablesPages(tables, limit, p) == Whole(tables)[..Min(p * limit, |Whole(tables)|)] {
        SamePagesTile(tables, limit, p);
        AscendingPagesTile(Whole(tables), limit, p);
      }
    }
    if AscendingTiles(tables, limit) {
      forall i: nat, x: nat, k: nat | Stands(tables, i, x, k) ensures x / limit == k / limit {
        RowOnPageOfRecord(tables, limit, i, x, k);
      }
    }
  }

  lemma RowOnPageOfRecord(tables: seq<seq<Row>>, limit: nat, i: nat, x: nat, k: nat)
    requires Stored(tables) && Separate(tables) && limit > 0 && AscendingTiles(tables, limit) && Stands(tables, i, x, k)
    ensures x / limit == k / limit
  {
    hide *;
    var q := k / limit;
    BlockOf(k, limit, q);
    TilingGivesPage(tables, limit, q);
    RowComesWithRecord(tables, limit, q * limit, i, x, k);
    BlockOf(x, limit, q);
  }

  lemma RowComesWithRecord(tables: seq<seq<Row>>, limit: nat, at: nat, i: nat, x: nat, k: nat)
    requires Stored(tables) && Separate(tables) && Stands(tables, i, x, k) && at <= k < at + limit
    requires TablesPage(tables, false, limit, at).0 == Intended(Whole(tables), false, limit, at)
    ensures at <= x < at + limit
  {
    OnItsPage(Parsed(Response(tables, false, limit + 1, at)), Whole(tables), limit, at, k);
    FieldReturned(tables, limit + 1, at, i, x, k);
    RanksAtMost(tables, i, x, k);
  }

  lemma OnItsPage(parsed: seq<TelemetryRecord>, h: seq<TelemetryRecord>, limit: nat, at: nat, k: nat)
    requires at <= k < at + limit && k < |h| && Cut(parsed, limit).0 == Intended(h, false, limit, at)
    ensures h[k] in parsed
  {
    assert Intended(h, false, limit, at)[k - at] == h[k];
    assert Cut(parsed, limit).0[k - at] == parsed[k - at];
  }

  lemma BlockOf(x: nat, limit: nat, q: nat)
    requires limit > 0
    ensures x / limit == q <==> q * limit <= x < q * limit + limit
  {
    PageFits(x, limit, q);
    PageFits(x, limit, q + 1);
    assert (q + 1) * limit == q * limit + limit;
  }

  /** What the endpoint answers to requests for pages 1 to p, oldest first. */
  ghost function RequestedPages(tables: seq<seq<Row>>, limit: int, p: nat): seq<TelemetryRecord> {
    if p == 0 then [] else RequestedPages(tables, limit, p - 1) + Requested(tables, p, limit, "asc").0
  }

  lemma {:induction false} RequestedPagesArePages(tables: seq<seq<Row>>, limit: nat, p: nat)
    requires 1 <= limit <= 100
    ensures RequestedPages(tables, limit, p) == TablesPages(tables, limit, p)
  {
    if p > 0 {
      hide TablesPage;
      RequestedPagesArePages(tables, limit, p - 1);
      RequestIsPage(tables, limit, p);
    }
  }

  lemma RequestIsPage(tables: seq<seq<Row>>, limit: nat, p: nat)
    requires 1 <= limit <= 100 && p >= 1
    ensures Requested(tables, p, limit, "asc") == TablesPage(tables, false, limit, Offset(p, limit))
  {
    assert |"asc"| != |"desc"|;
    assert !IsDesc("asc") && LimitOrDefault(limit) == limit && PageOrDefault(p) == p;
  }

  /** The answers are the history, no gap and no repeat. */
  ghost predicate RequestsTile(tables: seq<seq<Row>>, limit: int, size: nat) {
    forall p: nat :: RequestedPages(tables, limit, p) == Whole(tables)[..Min(p * size, |Whole(tables)|)]
  }

  /** So requests for pages 1, 2, 3 and so on in ascending order are answered with the history, no gap and no repeat,
      exactly under that condition, and one that gives no limit, or too large a one, with pages of 20. */
  lemma RequestsTileExactlyWhenSamePages(tables: seq<seq<Row>>, limit: int)
    requires Stored(tables) && Separate(tables)
    ensures var size := if 1 <= limit <= 100 then limit else 20;
      RequestsTile(tables, limit, size) <==> SamePages(tables, size)
  {
    hide TablesPages, RequestedPages, Stored, Separate, SamePages, Whole;
    var size: nat := if 1 <= limit <= 100 then limit else 20;
    AscendingTilesExactlyWhenSamePages(tables, size);
    forall p: nat ensures RequestedPages(tables, limit, p) == TablesPages(tables, size, p) {
      SameRequests(tables, limit, size, p);
      RequestedPagesArePages(tables, size, p);
    }
    if RequestsTile(tables, limit, size) {
      forall p: nat ensures TablesPages(tables, size, p) == Whole(tables)[..Min(p * size, |Whole(tables)|)] {
        assert RequestedPages(tables, limit, p) == Whole(tables)[..Min(p * size, |Whole(tables)|)];
      }
    }
  }

  lemma {:induction false} SameRequests(tables: seq<seq<Row>>, limit: int, size: nat, p: nat)
    requires size == if 1 <= limit <= 100 then limit else 20
    ensures RequestedPages(tables, limit, p) == RequestedPages(tables, size, p)
  {
    hide TablesPage, Offset;
    if p > 0 { SameRequests(tables, limit, size, p - 1); }
  }

  /** Fields written at the same times always meet that condition. */
  lemma AlignedTiles(tables: seq<seq<Row>>, limit: nat)
    requires Stored(tables) && Aligned(tables) && limit > 0
    ensures SamePages(tables, limit) && AscendingTiles(tables, limit)
  {
    forall i: nat, x: nat, k: nat | Stands(tables, i, x, k) ensures x / limit == k / limit {
      AlignedRanks(tables, i, x, k);
    }
    forall p: nat ensures TablesPages(tables, limit, p) == Whole(tables)[..Min(p * limit, |Whole(tables)|)] {
      SamePagesTile(tables, limit, p);
      AscendingPagesTile(Whole(tables), limit, p);
    }
  }

  // ---- Two fields written in turn ----

  /** A field written at a time. */
  datatype Point = Point(t: int, field: string)

  function RowAt(p: Point): Row { Cell(Time(p.t, 0), Some((p.field, Int(p.t)))) }

  function RecordAt(p: Point): TelemetryRecord { TelemetryRecord(Time(p.t, 0), map[p.field := Int(p.t)]) }

  function RowsAt(ps: seq<Point>): seq<Row> { seq(|ps|, i requires 0 <= i < |ps| => RowAt(ps[i])) }

  function RecordsAt(ps: seq<Point>): seq<TelemetryRecord> { seq(|ps|, i requires 0 <= i < |ps| => RecordAt(ps[i])) }

  ghost predicate Rising(ps: seq<Point>) { forall i, j :: 0 <= i < j < |ps| ==> ps[i].t < ps[j].t }

  ghost predicate DistinctTimes(ps: seq<Point>) { forall i, j :: 0 <= i < j < |ps| ==> ps[i].t != ps[j].t }

  lemma RowAdded(rows: seq<Row>, records: seq<TelemetryRecord>, p: Point)
    requires IsRecords(Gather(rows), records) && Time(p.t, 0) !in Gather(rows)
    ensures IsRecords(Gather(rows + [RowAt(p)]), records + [RecordAt(p)])
  {
    GatherStep(rows, RowAt(p));
    var records' := records + [RecordAt(p)];
    assert records'[|records|] == RecordAt(p);
    forall r | r in records ensures r in records' {
      var i :| 0 <= i < |records| && records[i] == r;
      assert records'[i] == r;
    }
  }

  lemma NotYet(ps: seq<Point>, t: int)
    requires forall i :: 0 <= i < |ps| ==> ps[i].t != t
    ensures Time(t, 0) !in Gather(RowsAt(ps))
  {
    GatherIsLastWrites(RowsAt(ps), Time(t, 0));
  }

  lemma {:induction false} PointsMakeRecords(ps: seq<Point>)
    requires DistinctTimes(ps)
    ensures IsRecords(Gather(RowsAt(ps)), RecordsAt(ps))
  {
    if ps != [] {
      var n := |ps| - 1;
      PointsMakeRecords(ps[..n]);
      assert RowsAt(ps) == RowsAt(ps[..n]) + [RowAt(ps[n])];
      assert RecordsAt(ps) == RecordsAt(ps[..n]) + [RecordAt(ps[n])];
      NotYet(ps[..n], ps[n].t);
      RowAdded(RowsAt(ps[..n]), RecordsAt(ps[..n]), ps[n]);
    }
  }

  /** Points are parsed to their records in order of time. */
  lemma PointsParse(ps: seq<Point>, sorted: seq<Point>)
    requires DistinctTimes(ps) && Rising(sorted) && multiset(RecordsAt(ps)) == multiset(RecordsAt(sorted))
    ensures Parsed(RowsAt(ps)) == RecordsAt(sorted)
  {
    PointsMakeRecords(ps);
    PermutedRecords(Gather(RowsAt(ps)), RecordsAt(ps), RecordsAt(sorted));
    ParsedIs(RowsAt(ps), RecordsAt(sorted));
  }

  const A1 := Point(1, "a")
  const B2 := Point(2, "b")
  const A3 := Point(3, "a")
  const B4 := Point(4, "b")

  /** A table of "a" at 1 and 3, and one of "b" at 2 and 4. */
  const IN_TURN: seq<seq<Row>> := [RowsAt([A1, A3]), RowsAt([B2, B4])]

  lemma TwoTables(a: seq<Row>, b: seq<Row>)
    ensures All([a, b]) == a + b
  {
    assert [a, b][..1] == [a] && [a][..0] == [];
    assert All([a]) == [] + a;
  }

  lemma InTurnResponse(desc: bool, n: nat, offset: nat)
    ensures Response(IN_TURN, desc, n, offset) ==
            Query(RowsAt([A1, A3]), desc, n, offset) + Query(RowsAt([B2, B4]), desc, n, offset)
  {
    var a := Answers(IN_TURN, desc, n, offset);
    assert a == [a[0], a[1]];
    TwoTables(a[0], a[1]);
  }

  lemma InTurnWhole()
    ensures All(IN_TURN) == RowsAt([A1, A3, B2, B4])
    ensures Whole(IN_TURN) == RecordsAt([A1, B2, A3, B4])
  {
    TwoTables(RowsAt([A1, A3]), RowsAt([B2, B4]));
    assert RowsAt([A1, A3]) + RowsAt([B2, B4]) == RowsAt([A1, A3, B2, B4]);
    InTurnSorts();
    PointsParse([A1, A3, B2, B4], [A1, B2, A3, B4]);
  }

  lemma InTurnSorts()
    ensures multiset(RecordsAt([A1, A3, B2, B4])) == multiset(RecordsAt([A1, B2, A3, B4]))
  {
    var s := RecordsAt([A1, A3, B2, B4]);
    assert RecordsAt([A1, B2, A3, B4]) == Swap(s, 1, 2);
    SwapPermutes(s, 1, 2);
  }

  lemma InTurnIsStored()
    ensures Stored(IN_TURN)
  {
    InTurnWhole();
    assert OneZone(IN_TURN, 0);
  }

  lemma InTurnIsSeparate()
    ensures Separate(IN_TURN)
  {
    assert "a"[0] != "b"[0];
    forall i, x | 0 <= i < 2 && 0 <= x < |IN_TURN[i]|
      ensures IN_TURN[i][x].write.Some? && IN_TURN[i][x].write.value.0 == if i == 0 then "a" else "b"
    {
    }
  }

  lemma InTurnFirstPages()
    ensures TablesPage(IN_TURN, false, 1, 0) == ([RecordAt(A1)], true)
    ensures TablesPage(IN_TURN, false, 1, 1) == ([RecordAt(A3)], true)
  {
    InTurnWhole();
    InTurnResponse(false, 2, 0);
    assert Response(IN_TURN, false, 2, 0) == RowsAt([A1, A3, B2, B4]);
    InTurnResponse(false, 2, 1);
    assert Response(IN_TURN, false, 2, 1) == RowsAt([A3, B4]);
    PointsParse([A3, B4], [A3, B4]);
    assert RecordsAt([A1, B2, A3, B4])[..1] == [RecordAt(A1)];
    assert RecordsAt([A3, B4])[..1] == [RecordAt(A3)];
  }

  lemma InTurnLaterPages(offset: nat)
    requires offset >= 2
    ensures TablesPage(IN_TURN, false, 1, offset) == ([], false)
  {
    InTurnResponse(false, 2, offset);
    assert Response(IN_TURN, false, 2, offset) == [];
    ParsedIs([], []);
  }

  /** Two fields that take turns, and pages of one record: page 1 is the first record and page 2 the third, both
      say that there are more, and no later page has a record; the second and the fourth are on no page. */
  lemma FieldsInTurnLoseRecords(offset: nat)
    ensures Stored(IN_TURN) && Separate(IN_TURN) && !SamePages(IN_TURN, 1)
    ensures Whole(IN_TURN) == RecordsAt([A1, B2, A3, B4])
    ensures TablesPage(IN_TURN, false, 1, offset) ==
            if offset == 0 then ([RecordAt(A1)], true) else if offset == 1 then ([RecordAt(A3)], true) else ([], false)
  {
    InTurnIsStored();
    InTurnIsSeparate();
    InTurnWhole();
    assert Stands(IN_TURN, 1, 0, 1);
    if offset < 2 { InTurnFirstPages(); } else { InTurnLaterPages(offset); }
  }
}
