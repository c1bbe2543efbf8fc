/**
 Pages of a history that is given as its records, oldest first: request defaults, the look-ahead row
 of the query and the handler's cut (internal/handler/telemetry_handler.go and buildHistoryQuery in
 internal/repository/telemetry/telemetry_repository_impl.go). HistoryTables.dfy says for which
 databases the endpoint answers these pages, and what it answers for the others.
 */
module HistoryPages {
  import opened Common
  import opened Telemetry

  ghost predicate Chronological(rows: seq<TelemetryRecord>) {
    forall i, j :: 0 <= i < j < |rows| ==> rows[i].timestamp.instant < rows[j].timestamp.instant
  }

  function Reversed<T>(rows: seq<T>): seq<T> {
    seq(|rows|, i requires 0 <= i < |rows| => rows[|rows| - 1 - i])
  }

  /** sort(desc) |> limit(n, offset), of rows that are stored oldest first */
  function Query<T>(rows: seq<T>, desc: bool, n: nat, offset: nat): seq<T> {
    var sorted := if desc then Reversed(rows) else rows;
    sorted[Min(offset, |rows|)..Min(offset + n, |rows|)]
  }

  /** The same rows, oldest first. */
  function Window<T>(rows: seq<T>, desc: bool, n: nat, offset: nat): seq<T> {
    var lo, hi := Min(offset, |rows|), Min(offset + n, |rows|);
    if desc then rows[|rows| - hi..|rows| - lo] else rows[lo..hi]
  }

  /** The x-th oldest of `size` rows is among those that a query returns. */
  predicate InWindow(size: nat, desc: bool, n: nat, offset: nat, x: nat)
    requires x < size
  {
    offset <= (if desc then size - 1 - x else x) < offset + n
  }

  /** The handler's cut: one record more than the page holds means that there are more, and the last is dropped. */
  function Cut(parsed: seq<TelemetryRecord>, limit: nat): (seq<TelemetryRecord>, bool) {
    if |parsed| > limit then (parsed[..limit], true) else (parsed, false)
  }

  /** What a page answers: its records and whether there are more. The query asks for one row more than the
      page holds; the records come out of the parser oldest first, and the handler drops the last. */
  function Page(rows: seq<TelemetryRecord>, desc: bool, limit: nat, offset: nat): (seq<TelemetryRecord>, bool) {
    Cut(Window(rows, desc, limit + 1, offset), limit)
  }

  /** What the page is meant to hold. */
  function Intended(rows: seq<TelemetryRecord>, desc: bool, limit: nat, offset: nat): seq<TelemetryRecord> {
    Window(rows, desc, limit, offset)
  }

  lemma QueryHolds<T>(rows: seq<T>, desc: bool, n: nat, offset: nat, x: nat)
    requires x < |rows| && InWindow(|rows|, desc, n, offset, x)
    ensures rows[x] in Query(rows, desc, n, offset) && rows[x] in Window(rows, desc, n, offset)
  {
    var lo, hi := Min(offset, |rows|), Min(offset + n, |rows|);
    var k := if desc then |rows| - 1 - x else x;
    assert Query(rows, desc, n, offset)[k - lo] == rows[x];
    assert Window(rows, desc, n, offset)[if desc then x - (|rows| - hi) else x - lo] == rows[x];
  }

  lemma QueryHoldsOnly<T>(rows: seq<T>, desc: bool, n: nat, offset: nat, y: nat) returns (x: nat)
    requires y < |Query(rows, desc, n, offset)|
    ensures x < |rows| && InWindow(|rows|, desc, n, offset, x) && Query(rows, desc, n, offset)[y] == rows[x]
  {
    var k := Min(offset, |rows|) + y;
    x := if desc then |rows| - 1 - k else k;
  }

  lemma WindowHoldsOnly<T>(rows: seq<T>, desc: bool, n: nat, offset: nat, y: nat) returns (x: nat)
    requires y < |Window(rows, desc, n, offset)|
    ensures x < |rows| && InWindow(|rows|, desc, n, offset, x) && Window(rows, desc, n, offset)[y] == rows[x]
  {
    x := y + if desc then |rows| - Min(offset + n, |rows|) else Min(offset, |rows|);
  }

  lemma WindowIsChronological(rows: seq<TelemetryRecord>, desc: bool, n: nat, offset: nat)
    requires Chronological(rows)
    ensures Chronological(Window(rows, desc, n, offset))
  {
  }

  predicate IsDesc(order: string) { order == "" || order == "desc" }

  function PageOrDefault(page: int): (p: nat)
    ensures p >= 1
  {
    if page < 1 then 1 else page
  }

  function LimitOrDefault(limit: int): (n: nat)
    ensures 1 <= n <= 100
  {
    if limit < 1 || limit > 100 then 20 else limit
  }

  function Offset(page: nat, limit: nat): nat
    requires page >= 1
  {
    (page - 1) * limit
  }

  /** A page number from 1 on and a limit from 1 to 100 are taken as they are, 1 and 20 stand in for others, and no
      order means the newest first. */
  lemma RequestTaken(page: int, limit: int, order: string)
    ensures LimitOrDefault(limit) == if 1 <= limit <= 100 then limit else 20
    ensures var n := LimitOrDefault(limit);
      Offset(PageOrDefault(page), n) == if page >= 1 then (page - 1) * n else 0
    ensures IsDesc(order) <==> order == "" || order == "desc"
  {
  }

  /** The defaults of the request and the filter made from it. */
  method ReadPaging(page: int, limit: int, order: string) returns (reqLimit: nat, offset: nat, sortDesc: bool)
    ensures reqLimit == LimitOrDefault(limit) && sortDesc == IsDesc(order)
    ensures offset == Offset(PageOrDefault(page), reqLimit)
    ensures reqLimit == if 1 <= limit <= 100 then limit else 20
    ensures offset == if page >= 1 then (page - 1) * reqLimit else 0
    ensures sortDesc <==> order == "" || order == "desc"
  {
    var reqOrder, reqPage := order, page;
    if reqOrder == "" { reqOrder := "desc"; }
    if reqPage < 1 { reqPage := 1; }
    reqLimit := if limit < 1 || limit > 100 then 20 else limit;
    sortDesc := reqOrder == "desc";
    assert 0 <= (reqPage - 1) * reqLimit;
    offset := (reqPage - 1) * reqLimit;
  }

  // ---- Ascending pages ----

  /** Oldest first, every page is as intended and says "more" exactly when rows are left. */
  lemma AscendingPage(rows: seq<TelemetryRecord>, limit: nat, offset: nat)
    ensures Page(rows, false, limit, offset) == (Intended(rows, false, limit, offset), offset + limit < |rows|)
  {
    var wide, narrow := Window(rows, false, limit + 1, offset), Window(rows, false, limit, offset);
    if offset + limit < |rows| {
      assert wide[..limit] == narrow;
    } else {
      assert wide == narrow;
    }
  }

  /** Pages 1 to p, one after the other. */
  function Pages(rows: seq<TelemetryRecord>, desc: bool, limit: nat, p: nat): seq<TelemetryRecord> {
    if p == 0 then [] else Pages(rows, desc, limit, p - 1) + Page(rows, desc, limit, Offset(p, limit)).0
  }

  /** Ascending pages tile the history: no gap, no repeat. */
  lemma {:induction false} AscendingPagesTile(rows: seq<TelemetryRecord>, limit: nat, p: nat)
    ensures Pages(rows, false, limit, p) == rows[..Min(p * limit, |rows|)]
  {
    if p > 0 {
      var offset := Offset(p, limit);
      AscendingPagesTile(rows, limit, p - 1);
      AscendingPage(rows, limit, offset);
      assert offset + limit == p * limit;
    }
  }

  // ---- Descending pages ----

  /** Newest first, a page with more to come is shifted by one: the cut drops the newest row of the page
      instead of the look-ahead row. */
  lemma DescendingPage(rows: seq<TelemetryRecord>, limit: nat, offset: nat)
    ensures var n := |rows|;
      if offset + limit < n then Page(rows, true, limit, offset) == (rows[n - offset - limit - 1..n - offset - 1], true)
      else Page(rows, true, limit, offset) == (rows[..n - Min(offset, n)], false)
  {
    var n := |rows|;
    if offset + limit < n {
      assert Window(rows, true, limit + 1, offset) == rows[n - offset - limit - 1..n - offset];
      SliceOfSlice(rows, n - offset - limit - 1, n - offset, limit);
    } else {
      assert Window(rows, true, limit + 1, offset) == rows[..n - Min(offset, n)];
    }
  }

  lemma SliceOfSlice<T>(rows: seq<T>, lo: nat, hi: nat, k: nat)
    requires lo <= hi <= |rows| && k <= hi - lo
    ensures rows[lo..hi][..k] == rows[lo..lo + k]
  {
  }

  /** A descending page holds what it should exactly when it is the last. */
  lemma DescendingPageIntendedExactlyWhenLast(rows: seq<TelemetryRecord>, limit: nat, offset: nat)
    requires Chronological(rows) && limit > 0
    ensures Page(rows, true, limit, offset).0 == Intended(rows, true, limit, offset) <==> offset + limit >= |rows|
  {
    var n := |rows|;
    DescendingPage(rows, limit, offset);
    if offset + limit < n {
      var k := n - offset - limit;
      assert Page(rows, true, limit, offset).0[0] == rows[k - 1];
      assert Intended(rows, true, limit, offset)[0] == rows[k];
      assert rows[k - 1].timestamp.instant < rows[k].timestamp.instant;
    } else {
      assert Window(rows, true, limit, offset) == rows[..n - Min(offset, n)];
    }
  }

  /** The k-th oldest record is on a descending page. */
  ghost predicate On(rows: seq<TelemetryRecord>, limit: nat, p: nat, k: nat)
    requires p >= 1 && k < |rows|
  {
    rows[k] in Page(rows, true, limit, Offset(p, limit)).0
  }

  lemma InSlice(rows: seq<TelemetryRecord>, lo: nat, hi: nat, k: nat)
    requires Chronological(rows) && lo <= hi <= |rows| && k < |rows|
    ensures rows[k] in rows[lo..hi] <==> lo <= k < hi
  {
    if lo <= k < hi {
      assert rows[lo..hi][k - lo] == rows[k];
    }
    if rows[k] in rows[lo..hi] {
      var i :| 0 <= i < hi - lo && rows[lo..hi][i] == rows[k];
      assert rows[lo + i] == rows[k];
    }
  }

  lemma OnDescending(rows: seq<TelemetryRecord>, limit: nat, p: nat, k: nat)
    requires Chronological(rows) && p >= 1 && k < |rows|
    ensures var n, offset := |rows|, Offset(p, limit);
      On(rows, limit, p, k) <==>
      if offset + limit < n then n - offset - limit - 1 <= k < n - offset - 1 else k + Min(offset, n) < n
  {
    var n, offset := |rows|, Offset(p, limit);
    DescendingPage(rows, limit, offset);
    if offset + limit < n {
      InSlice(rows, n - offset - limit - 1, n - offset - 1, k);
    } else {
      assert rows[0..n - Min(offset, n)] == rows[..n - Min(offset, n)];
      InSlice(rows, 0, n - Min(offset, n), k);
    }
  }

  /** With more than one page, the first row of the last page is also on the page before it. */
  lemma DescendingRepeatsARecord(rows: seq<TelemetryRecord>, limit: nat) returns (p: nat, k: nat)
    requires Chronological(rows) && 0 < limit < |rows|
    ensures p >= 1 && k < |rows| && On(rows, limit, p, k) && On(rows, limit, p + 1, k)
    ensures Offset(p + 1, limit) < |rows| <= Offset(p + 1, limit) + limit && k == |rows| - Offset(p + 1, limit) - 1
  {
    var n := |rows|;
    p := LastPageBefore(n, limit);
    k := n - p * limit - 1;
    assert Offset(p, limit) + limit == p * limit == Offset(p + 1, limit);
    OnDescending(rows, limit, p, k);
    OnDescending(rows, limit, p + 1, k);
  }

  lemma {:induction false} LastPageBefore(n: nat, limit: nat) returns (p: nat)
    requires 0 < limit < n
    ensures p >= 1 && p * limit < n <= p * limit + limit
    decreases n
  {
    if n <= 2 * limit {
      p := 1;
    } else {
      p := LastPageBefore(n - limit, limit);
      assert (p + 1) * limit == p * limit + limit;
      p := p + 1;
    }
  }
}
