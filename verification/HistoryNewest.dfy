/**
 Descending history pages over any tables: when the newest record is on one, and when all of them are as
 they should be.
 */
module HistoryNewest {
  import opened Common
  import opened Flux
  import opened History
  import opened HistoryPages
  import opened HistoryTables
  import opened HistoryTiling
  import opened LastWrites
  import opened Telemetry

  /** The records counted from the newest are returned with all their rows by a query without offset. */
  lemma NewestReturned(tables: seq<seq<Row>>, n: nat, k: nat)
    requires Stored(tables) && k < |Whole(tables)| <= k + n
    ensures Whole(tables)[k] in Parsed(Response(tables, true, n, 0))
  {
    forall i: nat, x: nat | Stands(tables, i, x, k) ensures Returned(tables, true, n, 0, i, x) {
      RanksAtMostFromEnd(tables, i, x, k);
    }
    RecordIsWhole(tables, true, n, 0, k);
  }

  /** The newest record's time is on the descending page at an offset. */
  ghost predicate NewestAt(tables: seq<seq<Row>>, limit: nat, offset: nat)
    requires Whole(tables) != []
  {
    exists r :: r in TablesPage(tables, true, limit, offset).0
                && r.timestamp == Whole(tables)[|Whole(tables)| - 1].timestamp
  }

  /** The newest limit + 1 records, oldest first, are all returned. */
  ghost function Newest(tables: seq<seq<Row>>, limit: nat): seq<TelemetryRecord>
    requires limit < |Whole(tables)|
  {
    Whole(tables)[|Whole(tables)| - limit - 1..]
  }

  lemma NewestAreReturned(tables: seq<seq<Row>>, limit: nat)
    requires Stored(tables) && limit < |Whole(tables)|
    ensures Chronological(Newest(tables, limit))
    ensures forall y :: 0 <= y < limit + 1 ==> Newest(tables, limit)[y] in Parsed(Response(tables, true, limit + 1, 0))
  {
    hide Stored, Whole, Parsed, Response;
    WholeIsChronological(tables);
    forall y | 0 <= y < limit + 1 ensures Newest(tables, limit)[y] in Parsed(Response(tables, true, limit + 1, 0)) {
      NewestReturned(tables, limit + 1, |Whole(tables)| - limit - 1 + y);
    }
  }

  lemma IsNewest(tables: seq<seq<Row>>, limit: nat, r: TelemetryRecord)
    requires Stored(tables) && limit < |Whole(tables)| && r in Parsed(Response(tables, true, limit + 1, 0))
    requires r.timestamp == Whole(tables)[|Whole(tables)| - 1].timestamp
    ensures r == Newest(tables, limit)[limit]
  {
    NewestReturned(tables, limit + 1, |Whole(tables)| - 1);
    SameRecord(Response(tables, true, limit + 1, 0), r, Newest(tables, limit)[limit]);
  }

  /** So the newest of them is not among the first `limit` that the parser hands on. */
  lemma NewestComesLate(tables: seq<seq<Row>>, limit: nat, x: nat)
    requires Stored(tables) && limit < |Whole(tables)| && x < |Parsed(Response(tables, true, limit + 1, 0))|
    requires Parsed(Response(tables, true, limit + 1, 0))[x].timestamp == Whole(tables)[|Whole(tables)| - 1].timestamp
    ensures x >= limit
  {
    IsNewest(tables, limit, Parsed(Response(tables, true, limit + 1, 0))[x]);
    ResponseIsChronological(tables, true, limit + 1, 0);
    NewestAreReturned(tables, limit);
    NotBefore(Parsed(Response(tables, true, limit + 1, 0)), Newest(tables, limit), limit, x);
  }

  lemma NewestNotOnFirstPage(tables: seq<seq<Row>>, limit: nat)
    requires Stored(tables) && limit < |Whole(tables)|
    ensures !NewestAt(tables, limit, 0)
  {
    var page := TablesPage(tables, true, limit, 0).0;
    if NewestAt(tables, limit, 0) {
      var r :| r in page && r.timestamp == Whole(tables)[|Whole(tables)| - 1].timestamp;
      var x :| 0 <= x < |page| && page[x] == r;
      NewestComesLate(tables, limit, x);
    }
  }

  lemma NewestNotOnLaterPage(tables: seq<seq<Row>>, limit: nat, offset: nat)
    requires Stored(tables) && Whole(tables) != [] && offset > 0
    ensures !NewestAt(tables, limit, offset)
  {
    if NewestAt(tables, limit, offset) {
      var r :| r in TablesPage(tables, true, limit, offset).0
               && r.timestamp == Whole(tables)[|Whole(tables)| - 1].timestamp;
      var i, x, k := RecordStands(tables, true, limit + 1, offset, r);
      WholeIsChronological(tables);
      RanksAtMostFromEnd(tables, i, x, k);
    }
  }

  lemma SinglePage(tables: seq<seq<Row>>, limit: nat)
    requires Stored(tables) && |Whole(tables)| <= limit
    ensures TablesPage(tables, true, limit, 0) == (Whole(tables), false)
  {
    var h, s := Whole(tables), Parsed(Response(tables, true, limit + 1, 0));
    WholeIsChronological(tables);
    ResponseIsChronological(tables, true, limit + 1, 0);
    forall k | 0 <= k < |h| ensures h[k] in s {
      NewestReturned(tables, limit + 1, k);
    }
    forall y | 0 <= y < |s| ensures s[y] in h {
      var k := OnSinglePage(tables, limit, s[y]);
    }
    SameRecords(s, h);
  }

  lemma OnSinglePage(tables: seq<seq<Row>>, limit: nat, r: TelemetryRecord) returns (k: nat)
    requires Stored(tables) && |Whole(tables)| <= limit && r in Parsed(Response(tables, true, limit + 1, 0))
    ensures k < |Whole(tables)| && r == Whole(tables)[k]
  {
    var i, x;
    i, x, k := RecordStands(tables, true, limit + 1, 0, r);
    NewestReturned(tables, limit + 1, k);
    SameRecord(Response(tables, true, limit + 1, 0), r, Whole(tables)[k]);
  }

  lemma OffsetOfPage(p: nat, limit: nat)
    requires p >= 1 && limit > 0
    ensures Offset(p, limit) == 0 <==> p == 1
  {
  }

  /** Whatever the fields' times, the newest record is on some descending page exactly when there is only one
      page, and then that page is the whole history; as soon as there are more records than the page size,
      no page has even its time. */
  lemma DescendingCoversExactlyWhenOnePage(tables: seq<seq<Row>>, limit: nat)
    requires Stored(tables) && limit > 0 && Whole(tables) != []
    ensures (exists p: nat :: p >= 1 && NewestAt(tables, limit, Offset(p, limit))) <==> |Whole(tables)| <= limit
    ensures |Whole(tables)| <= limit ==> TablesPage(tables, true, limit, 0) == (Whole(tables), false)
  {
    if |Whole(tables)| <= limit {
      SinglePage(tables, limit);
      OffsetOfPage(1, limit);
      assert Whole(tables)[|Whole(tables)| - 1] in TablesPage(tables, true, limit, 0).0;
      assert NewestAt(tables, limit, Offset(1, limit));
    } else {
      forall p: nat | p >= 1 ensures !NewestAt(tables, limit, Offset(p, limit)) {
        OffsetOfPage(p, limit);
        if p == 1 {
          NewestNotOnFirstPage(tables, limit);
        } else {
          NewestNotOnLaterPage(tables, limit, Offset(p, limit));
        }
      }
    }
  }

  /** Every descending page holds what it should. */
  ghost predicate AllIntended(tables: seq<seq<Row>>, limit: nat) {
    forall p: nat :: p >= 1 ==> IntendedAt(tables, limit, Offset(p, limit))
  }

  ghost predicate IntendedAt(tables: seq<seq<Row>>, limit: nat, offset: nat) {
    TablesPage(tables, true, limit, offset).0 == Intended(Whole(tables), true, limit, offset)
  }

  lemma FirstPageNotIntended(tables: seq<seq<Row>>, limit: nat)
    requires Stored(tables) && 0 < limit < |Whole(tables)|
    ensures !IntendedAt(tables, limit, 0)
  {
    var h := Whole(tables);
    NewestNotOnFirstPage(tables, limit);
    assert Intended(h, true, limit, 0)[limit - 1] == h[|h| - 1];
    assert h[|h| - 1] in Intended(h, true, limit, 0);
  }

  /** Beyond the history no table has a row left. */
  lemma PastTheEnd(tables: seq<seq<Row>>, limit: nat, offset: nat)
    requires Stored(tables) && |Whole(tables)| <= offset
    ensures TablesPage(tables, true, limit, offset) == ([], false)
  {
    var s := Parsed(Response(tables, true, limit + 1, offset));
    if s != [] {
      var i, x, k := RecordStands(tables, true, limit + 1, offset, s[0]);
      RanksAtMostFromEnd(tables, i, x, k);
    }
  }

  lemma LaterOffset(p: nat, limit: nat)
    requires p >= 2
    ensures Offset(p, limit) >= limit
  {
    ScaleUp(limit, 1, p - 1);
  }

  /** Whatever the fields' times, all descending pages hold what they should exactly when there is only one: with
      more records than the page size the first page, at least, does not. */
  lemma DescendingPagesIntendedExactlyWhenOne(tables: seq<seq<Row>>, limit: nat)
    requires Stored(tables) && limit > 0
    ensures AllIntended(tables, limit) <==> |Whole(tables)| <= limit
  {
    var h := Whole(tables);
    if h != [] { OffsetOfPage(1, limit); }
    if |h| > limit {
      FirstPageNotIntended(tables, limit);
      assert !IntendedAt(tables, limit, Offset(1, limit));
    } else {
      forall p: nat | p >= 1 ensures IntendedAt(tables, limit, Offset(p, limit)) {
        if p == 1 {
          OffsetOfPage(1, limit);
          SinglePage(tables, limit);
        } else {
          LaterOffset(p, limit);
          PastTheEnd(tables, limit, Offset(p, limit));
        }
      }
    }
  }

  /** When fields take turns even the last page can be wrong: with pages of one record, page 4 of the four records
      is empty instead of the oldest. */
  lemma LastDescendingPageCanBeEmpty()
    ensures Stored(IN_TURN) && |Whole(IN_TURN)| == 4
    ensures TablesPage(IN_TURN, true, 1, Offset(4, 1)) == ([], false)
    ensures Intended(Whole(IN_TURN), true, 1, Offset(4, 1)) == [RecordAt(A1)]
  {
    InTurnIsStored();
    InTurnWhole();
    InTurnResponse(true, 2, 3);
    assert Response(IN_TURN, true, 2, 3) == [];
    ParsedIs([], []);
    assert RecordsAt([A1, B2, A3, B4])[0..1] == [RecordAt(A1)];
  }
}
