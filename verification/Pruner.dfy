/** The pruner's page loop over the embedded store. */
module Pruner {
  import opened Basics
  import opened Lex
  import opened EmbeddedStore

  const PAGE_SIZE: nat := 200

  /** The last row of the m-th page. */
  predicate ContinuesAfter(all: seq<Row>, m: nat)
    requires 0 < m * PAGE_SIZE <= |all|
  {
    UuidOf(IdOf(all[m * PAGE_SIZE - 1])) != ""
  }

  /** Every full page that is not the end of the list ends in a UUID point, so that the loop goes on. */
  ghost predicate PagesEndInUuids(all: seq<Row>) {
    forall m: nat | 0 < m * PAGE_SIZE < |all| :: ContinuesAfter(all, m)
  }

  /** How many rows the loop collects once it has collected m full pages and may go on. */
  ghost function Collected(all: seq<Row>, m: nat): (n: nat)
    requires m * PAGE_SIZE <= |all|
    ensures n <= |all|
    decreases |all| - m * PAGE_SIZE
  {
    if |all| < (m + 1) * PAGE_SIZE then |all|
    else if ContinuesAfter(all, m + 1) then Collected(all, m + 1)
    else (m + 1) * PAGE_SIZE
  }

  lemma {:induction false} CollectsAllIff(all: seq<Row>, m: nat)
    requires m * PAGE_SIZE <= |all|
    ensures Collected(all, m) == |all| <==> forall x: nat | m < x && x * PAGE_SIZE < |all| :: ContinuesAfter(all, x)
    decreases |all| - m * PAGE_SIZE
  {
    if |all| >= (m + 1) * PAGE_SIZE && ContinuesAfter(all, m + 1) {
      CollectsAllIff(all, m + 1);
    }
  }

  /** The rows that the page loop is meant to return: all that match, in key order. */
  ghost function Wanted(rows: seq<Row>, filter: Option<seq<Condition>>): seq<Row> {
    Selected(rows, "", filter)
  }

  /** The loop returns exactly the matching rows if and only if no page but the last ends in a numeric id. */
  lemma PageLoopCompleteIff(rows: seq<Row>, filter: Option<seq<Condition>>)
    ensures Collected(Wanted(rows, filter), 0) == |Wanted(rows, filter)| <==> PagesEndInUuids(Wanted(rows, filter))
  {
    CollectsAllIff(Wanted(rows, filter), 0);
  }

  /** In particular, when every id is a UUID. */
  lemma UuidStoreIsCollectedWhole(rows: seq<Row>, filter: Option<seq<Condition>>)
    requires Ascending(rows) && forall i | 0 <= i < |rows| :: rows[i].kind == "uuid"
    ensures Collected(Wanted(rows, filter), 0) == |Wanted(rows, filter)|
  {
    var all := Wanted(rows, filter);
    SelectedAre(rows, "", filter);
    forall m: nat | 0 < m * PAGE_SIZE < |all| ensures ContinuesAfter(all, m) {
      assert all[m * PAGE_SIZE - 1] in all;
    }
    PageLoopCompleteIff(rows, filter);
  }

  /** A store of numeric ids only is collected up to the end of the first page. */
  lemma NumericStoreStops(rows: seq<Row>, filter: Option<seq<Condition>>)
    requires Ascending(rows) && forall i | 0 <= i < |rows| :: rows[i].kind == "num"
    ensures var all := Wanted(rows, filter); Collected(all, 0) == if |all| < PAGE_SIZE then |all| else PAGE_SIZE
  {
    var all := Wanted(rows, filter);
    SelectedAre(rows, "", filter);
    if |all| >= PAGE_SIZE {
      assert all[PAGE_SIZE - 1] in all;
      assert !ContinuesAfter(all, 1);
    }
  }

  /** A store of 201 points with numeric ids: the loop over all facts returns 200 of them. */
  lemma NumericIdsStopEarly()
    ensures var rows := Numbered(1000, 201);
      Ascending(rows) && Decodable(rows) && |Wanted(rows, None)| == 201 && Collected(Wanted(rows, None), 0) == 200
  {
    assert Pow10(3) == 1000 && Pow10(4) == 10000 by { assert Pow10(2) == 100; }
    hide Pow10, Decimal, Less, Ascending, Written, Selected, Collected;
    NumberedIsStored(1000, 201, 4);
    AllSelected(Numbered(1000, 201));
    NumericStoreStops(Numbered(1000, 201), None);
  }

  lemma UuidIsKey(row: Row)
    ensures UuidOf(IdOf(row)) != "" ==> UuidOf(IdOf(row)) == row.key
  {
  }

  /** The page that is read from behind the first n rows. */
  ghost function NextRows(all: seq<Row>, n: nat): (page: seq<Row>)
    requires n <= |all|
    ensures n + |page| <= |all| && page == all[n..n + |page|]
    ensures |page| == if |all| - n < PAGE_SIZE then |all| - n else PAGE_SIZE
  {
    TakeRows(all[n..], PAGE_SIZE)
  }

  lemma PagePoints(rows: seq<Row>, filter: Option<seq<Condition>>, offset: string, n: nat, points: seq<Point>)
    requires n <= |Wanted(rows, filter)| && Selected(rows, offset, filter) == Wanted(rows, filter)[n..]
    requires DecodeAll(Asked(Selected(rows, offset, filter), PAGE_SIZE)) == Ok(points)
    ensures points == Points(NextRows(Wanted(rows, filter), n))
  {
    hide Selected, IdOf, FilterMatches, DecodeAll, Wanted;
    DecodeAllGivesPoints(NextRows(Wanted(rows, filter), n));
  }

  lemma PointsUpTo(all: seq<Row>, n: nat, end: nat)
    requires n <= end <= |all|
    ensures Points(all[..n]) + Points(all[n..end]) == Points(all[..end])
  {
    hide IdOf;
    assert all[..end] == all[..n] + all[n..end];
  }

  /** What one more page does: its points extend those so far, and a UUID at its end leads to the rows right behind it. */
  lemma NextPage(rows: seq<Row>, filter: Option<seq<Condition>>, offset: string, n: nat, points: seq<Point>)
    requires Ascending(rows) && n <= |Wanted(rows, filter)| && Selected(rows, offset, filter) == Wanted(rows, filter)[n..]
    requires DecodeAll(Asked(Selected(rows, offset, filter), PAGE_SIZE)) == Ok(points)
    ensures var all, end := Wanted(rows, filter), n + |points|;
      && end <= |all| && |points| == |NextRows(all, n)| && Points(all[..n]) + points == Points(all[..end])
      && (points != [] ==> UuidOf(points[|points| - 1].id) == UuidOf(IdOf(all[end - 1])))
      && (points != [] && UuidOf(points[|points| - 1].id) != "" ==>
            Selected(rows, UuidOf(points[|points| - 1].id), filter) == all[end..])
  {
    hide Selected, Ascending, IdOf, FilterMatches, DecodeAll, UuidOf;
    PagePoints(rows, filter, offset, n, points);
    var all := Wanted(rows, filter);
    var page := NextRows(all, n);
    var end := n + |page|;
    PointsUpTo(all, n, end);
    if page != [] {
      assert page[|page| - 1] == all[end - 1];
      UuidIsKey(all[end - 1]);
      SelectedFrom(rows, "", filter, end - 1);
    }
  }

  /** The loop has collected n rows: all of them, or m full pages after which it may go on. */
  ghost predicate Going(all: seq<Row>, n: nat, m: nat) {
    n <= |all| && if n == |all| then Collected(all, 0) == n else n == m * PAGE_SIZE && Collected(all, m) == Collected(all, 0)
  }

  /** One more page: the loop stops there if the page does not end in a UUID, and else goes on. */
  lemma OnePage(all: seq<Row>, n: nat, m: nat)
    requires Going(all, n, m) && n < |all|
    ensures var end := n + |NextRows(all, n)|;
      var m' := if end == n + PAGE_SIZE then m + 1 else m;
      if UuidOf(IdOf(all[end - 1])) != "" then Going(all, end, m') else Collected(all, 0) == end
  {
    hide IdOf;
    var end := n + |NextRows(all, n)|;
    assert Collected(all, m) == Collected(all, 0) && n == m * PAGE_SIZE;
    if end == n + PAGE_SIZE {
      assert end == (m + 1) * PAGE_SIZE;
      assert UuidOf(IdOf(all[end - 1])) != "" <==> ContinuesAfter(all, m + 1);
      assert end == |all| && ContinuesAfter(all, m + 1) ==> Collected(all, m + 1) == |all|;
    } else {
      assert end == |all| == Collected(all, m);
    }
  }

  /** Where the loop is: it has the points of the first n wanted rows, and the offset leads to the rest. */
  ghost predicate PagedTo(rows: seq<Row>, filter: Option<seq<Condition>>, offset: string, all: seq<Point>, n: nat, m: nat) {
    var wanted := Wanted(rows, filter);
    n <= |wanted| && all == Points(wanted[..n]) && Selected(rows, offset, filter) == wanted[n..] && Going(wanted, n, m)
  }

  lemma NothingPaged(rows: seq<Row>, filter: Option<seq<Condition>>)
    ensures PagedTo(rows, filter, "", [], 0, 0)
  {
    var wanted := Wanted(rows, filter);
    assert wanted[..0] == [] && wanted[0..] == wanted;
  }

  /** The points that the loop is to return. */
  ghost function Returned(rows: seq<Row>, filter: Option<seq<Condition>>): seq<Point> {
    Points(Wanted(rows, filter)[..Collected(Wanted(rows, filter), 0)])
  }

  /** A page leads on, or it is the last. */
  lemma PageStep(rows: seq<Row>, filter: Option<seq<Condition>>, offset: string, all: seq<Point>, n: nat, m: nat, page: seq<Point>)
    requires Ascending(rows) && PagedTo(rows, filter, offset, all, n, m)
    requires DecodeAll(Asked(Selected(rows, offset, filter), PAGE_SIZE)) == Ok(page)
    ensures n + |page| <= |Wanted(rows, filter)|
    ensures page == [] ==> all == Returned(rows, filter)
    ensures page != [] && UuidOf(page[|page| - 1].id) == "" ==> all + page == Returned(rows, filter)
    ensures page != [] && UuidOf(page[|page| - 1].id) != "" ==>
      PagedTo(rows, filter, UuidOf(page[|page| - 1].id), all + page, n + |page|, if |page| == PAGE_SIZE then m + 1 else m)
  {
    hide Selected, Ascending, FilterMatches, IdOf, UuidOf, DecodeAll, Asked, Collected, Going, NextRows, Wanted, Points;
    var wanted := Wanted(rows, filter);
    NextPage(rows, filter, offset, n, page);
    if page == [] { AllCollected(wanted, n, m); } else { OnePage(wanted, n, m); }
  }

  /* ---- what the loop returns, in the columns of the rows ---- */

  /** The m-th page is full and its last row has a UUID. */
  ghost predicate EndsInUuid(all: seq<Row>, m: nat) {
    0 < m * PAGE_SIZE <= |all| && all[m * PAGE_SIZE - 1].kind == "uuid"
  }

  /** n rows are all, with every full page before the end ending in a UUID, or end with the first full page that does not. */
  ghost predicate StopsAt(all: seq<Row>, n: nat) {
    || (n == |all| && forall m: nat | 0 < m * PAGE_SIZE < |all| :: EndsInUuid(all, m))
    || (exists m: nat :: n == m * PAGE_SIZE < |all| && m > 0 && !EndsInUuid(all, m) && forall j: nat | 0 < j < m :: EndsInUuid(all, j))
  }

  lemma KindDecides(rows: seq<Row>, filter: Option<seq<Condition>>, m: nat)
    requires Ascending(rows) && Decodable(rows) && 0 < m * PAGE_SIZE <= |Wanted(rows, filter)|
    ensures ContinuesAfter(Wanted(rows, filter), m) <==> EndsInUuid(Wanted(rows, filter), m)
  {
    hide Selected, DecodePointID, Less;
    var all, i := Wanted(rows, filter), m * PAGE_SIZE - 1;
    SelectedAre(rows, "", filter);
    SelectedDecodable(rows, "", filter);
    IdOfRow(all, i);
    assert all[i] in all && Less("", all[i].key);
    NotBehindEmpty();
  }

  lemma NotBehindEmpty()
    ensures !Less("", "")
  {
  }

  lemma {:induction false} CollectedStops(all: seq<Row>, m: nat)
    requires m * PAGE_SIZE <= |all|
    requires forall j: nat | 0 < j * PAGE_SIZE <= |all| :: ContinuesAfter(all, j) <==> EndsInUuid(all, j)
    requires forall j: nat | 0 < j <= m :: EndsInUuid(all, j)
    ensures StopsAt(all, Collected(all, m))
    decreases |all| - m * PAGE_SIZE
  {
    hide ContinuesAfter;
    var next := m + 1;
    if |all| < next * PAGE_SIZE {
      assert forall j: nat | 0 < j * PAGE_SIZE < |all| :: j <= m;
    } else if EndsInUuid(all, next) {
      CollectedStops(all, next);
    } else if |all| == next * PAGE_SIZE {
      assert forall j: nat | 0 < j * PAGE_SIZE < |all| :: j <= m;
    }
  }

  /** The points of the first rows that the filter lets through, up to where the pages stop. */
  ghost predicate ReadPages(points: seq<Point>, rows: seq<Row>, filter: Option<seq<Condition>>) {
    exists all :: Behind(all, rows, "", filter) && AllRead(points, all) && StopsAt(all, |points|)
  }

  lemma ReturnedPages(rows: seq<Row>, filter: Option<seq<Condition>>)
    requires Ascending(rows) && Decodable(rows)
    ensures ReadPages(Returned(rows, filter), rows, filter)
  {
    hide Selected, Behind, Passes, StopsAt, EndsInUuid, ContinuesAfter, DecodePointID, Collected;
    var all, n := Wanted(rows, filter), Collected(Wanted(rows, filter), 0);
    SelectedAre(rows, "", filter);
    SelectedDecodable(rows, "", filter);
    forall j: nat | 0 < j * PAGE_SIZE <= |all| ensures ContinuesAfter(all, j) <==> EndsInUuid(all, j) {
      KindDecides(rows, filter, j);
    }
    CollectedStops(all, 0);
    forall i | 0 <= i < n ensures ReadFrom(Points(all[..n])[i], all[i]) {
      IdOfRow(all, i);
    }
    assert AllRead(Points(all[..n]), all);
  }

  /** The loop has the points so far, and may go on behind the offset. */
  ghost predicate Paged(rows: seq<Row>, filter: Option<seq<Condition>>, offset: string, all: seq<Point>) {
    |all| <= |Wanted(rows, filter)| && exists m: nat :: PagedTo(rows, filter, offset, all, |all|, m)
  }

  lemma PagingStarts(rows: seq<Row>, filter: Option<seq<Condition>>)
    ensures Paged(rows, filter, "", [])
  {
    NothingPaged(rows, filter);
  }

  lemma PagingGoesOn(rows: seq<Row>, filter: Option<seq<Condition>>, offset: string, all: seq<Point>, page: seq<Point>)
    requires Ascending(rows) && Paged(rows, filter, offset, all)
    requires DecodeAll(Asked(Selected(rows, offset, filter), PAGE_SIZE)) == Ok(page)
    ensures |all + page| <= |Wanted(rows, filter)|
    ensures page == [] ==> all == Returned(rows, filter)
    ensures page != [] && UuidOf(page[|page| - 1].id) == "" ==> all + page == Returned(rows, filter)
    ensures page != [] && UuidOf(page[|page| - 1].id) != "" ==> Paged(rows, filter, UuidOf(page[|page| - 1].id), all + page)
  {
    hide Selected, Ascending, UuidOf, DecodeAll, Asked, Wanted, PagedTo, Returned;
    var m: nat :| PagedTo(rows, filter, offset, all, |all|, m);
    PageStep(rows, filter, offset, all, |all|, m, page);
  }

  /** Scrolls page by page until a page is empty or ends in a point without a UUID; fails with the first page that fails. */
  method ScrollAllFilteredFacts(store: Store, filter: Option<seq<Condition>>) returns (r: Result<seq<Point>>)
    requires store.Valid()
    ensures r.Ok? ==> r.value == Returned(store.rows, filter)
    ensures Decodable(store.rows) ==> r.Ok? && ReadPages(r.value, store.rows, filter)
  {
    ghost var rows := store.rows;
    assert Ascending(rows);
    if Decodable(rows) { ReturnedPages(rows, filter); }
    var all: seq<Point> := [];
    var offset := "";
    PagingStarts(rows, filter);
    hide *;
    while true
      invariant Paged(rows, filter, offset, all) && |all| <= |Wanted(rows, filter)|
      decreases |Wanted(rows, filter)| - |all|
    {
      PagesDecode(rows, filter, offset);
      var page := store.ScrollFiltered(filter, PAGE_SIZE, offset);
      if page.Err? {
        return Err(page.error);
      }
      var points := page.value;
      PagingGoesOn(rows, filter, offset, all, points);
      if |points| == 0 {
        break;
      }
      all := all + points;
      offset := UuidOf(points[|points| - 1].id);
      if offset == "" {
        break;
      }
    }
    return Ok(all);
  }

  lemma PagesDecode(rows: seq<Row>, filter: Option<seq<Condition>>, offset: string)
    ensures Decodable(rows) ==> DecodeAll(Asked(Selected(rows, offset, filter), PAGE_SIZE)).Ok?
  {
    if Decodable(rows) {
      SelectedDecodable(rows, offset, filter);
      DecodeAllGivesPoints(Asked(Selected(rows, offset, filter), PAGE_SIZE));
    }
  }

  lemma AllCollected(all: seq<Row>, n: nat, m: nat)
    requires Going(all, n, m) && NextRows(all, n) == []
    ensures Collected(all, 0) == n
  {
  }
}
