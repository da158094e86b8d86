/**
 `GET /mutual-funds` of api/routers/mutual_funds.py, walked over a fixed table.

 The cursor filter sits inside the window query, so a page ranks each scheme's rows only among
 those above the cursor.  Dates are day numbers.
 */
module FundsPaging {
  import opened Common
  import opened KeyedTable
  import opened TableStorage
  import opened Paging
  import AmfiSave
  import GrowingWalk

  function Scheme(r: Row): Value {
    Get(r.vals, "scheme_code")
  }

  function NavDate(r: Row): int {
    match Get(r.vals, "nav_date")
    case Int(day) => day
    case _ => 0
  }

  /** `PARTITION BY scheme_code ORDER BY nav_date DESC, id`: `a` comes before `b`. */
  predicate Before(a: Row, b: Row) {
    Scheme(a) == Scheme(b) && (NavDate(a) > NavDate(b) || (NavDate(a) == NavDate(b) && a.id < b.id))
  }

  predicate Candidate(test: Test, cursor: int, r: Row) {
    test(r) && r.id > cursor
  }

  /** `rn = 1` among the candidates. */
  predicate RankOne(rows: seq<Row>, test: Test, cursor: int, r: Row) {
    && r in rows && Candidate(test, cursor, r)
    && forall x | x in rows && Candidate(test, cursor, x) :: !Before(x, r)
  }

  /**
   Off the columns: above the cursor and matching, no row of the same scheme code is of a later
   day, nor of the same day with a smaller id.
   */
  lemma RankOneMeaning(rows: seq<Row>, test: Test, cursor: int, r: Row)
    requires forall x | x in rows :: Get(x.vals, "nav_date").Int?
    ensures RankOne(rows, test, cursor, r)
            <==> && r in rows && test(r) && cursor < r.id
                 && forall x | x in rows && test(x) && cursor < x.id
                               && Get(x.vals, "scheme_code") == Get(r.vals, "scheme_code") ::
                      && Get(x.vals, "nav_date").i <= Get(r.vals, "nav_date").i
                      && (Get(x.vals, "nav_date").i == Get(r.vals, "nav_date").i ==> r.id <= x.id)
  {
    hide Get;
    if r in rows {
      forall x | x in rows
        ensures Before(x, r)
                <==> && Get(x.vals, "scheme_code") == Get(r.vals, "scheme_code")
                     && (Get(x.vals, "nav_date").i > Get(r.vals, "nav_date").i
                         || (Get(x.vals, "nav_date").i == Get(r.vals, "nav_date").i && x.id < r.id))
      {
      }
    }
  }

  function Result(rows: seq<Row>, test: Test, cursor: int): seq<Row> {
    Filter(rows, (r: Row) => RankOne(rows, test, cursor, r))
  }

  function ListFunds(rows: seq<Row>, test: Test, cursor: int, limit: nat): seq<Row> {
    Cut(Result(rows, test, cursor), limit)
  }

  lemma ResultFacts(rows: seq<Row>, test: Test, cursor: int)
    requires Ascending(rows)
    ensures Ascending(Result(rows, test, cursor))
    ensures forall x | x in Result(rows, test, cursor) :: x in rows && x.id > cursor && RankOne(rows, test, cursor, x)
    ensures forall x | RankOne(rows, test, cursor, x) :: x in Result(rows, test, cursor)
  {
    FilterAscending(rows, (r: Row) => RankOne(rows, test, cursor, r));
  }

  /** The walk from a cursor, all pages joined.  It ends: a full page leaves fewer ids above the cursor. */
  function Walk(rows: seq<Row>, test: Test, cursor: int, limit: nat): seq<Row>
    requires limit >= 1 && Ascending(rows)
    decreases |IdsAbove(rows, cursor)|
  {
    var page := ListFunds(rows, test, cursor, limit);
    match NextCursor(page, limit)
    case None => page
    case Some(next) =>
      ResultFacts(rows, test, cursor);
      FullPageAdvances(rows, Result(rows, test, cursor), limit, cursor);
      page + Walk(rows, test, next, limit)
  }

  lemma PageOf(rows: seq<Row>, test: Test, cursor: int, limit: nat)
    requires limit >= 1 && Ascending(rows)
    ensures var page := ListFunds(rows, test, cursor, limit);
            && Ascending(page)
            && (forall x | x in page :: x.id > cursor && RankOne(rows, test, cursor, x))
            && (NextCursor(page, limit).Some? ==>
                  && NextCursor(page, limit).value > cursor
                  && (forall x | x in page :: x.id <= NextCursor(page, limit).value)
                  && |IdsAbove(rows, NextCursor(page, limit).value)| < |IdsAbove(rows, cursor)|)
  {
    ResultFacts(rows, test, cursor);
    PageFacts(Result(rows, test, cursor), limit, cursor);
    if NextCursor(ListFunds(rows, test, cursor, limit), limit).Some? {
      FullPageAdvances(rows, Result(rows, test, cursor), limit, cursor);
    }
  }

  /** The walk lists matching rows in id order: none twice. */
  lemma {:induction false} WalkAscends(rows: seq<Row>, test: Test, cursor: int, limit: nat)
    requires limit >= 1 && Ascending(rows)
    ensures Ascending(Walk(rows, test, cursor, limit))
    ensures forall x | x in Walk(rows, test, cursor, limit) :: x in rows && x.id > cursor && test(x)
    decreases |IdsAbove(rows, cursor)|
  {
    PageOf(rows, test, cursor, limit);
    var page := ListFunds(rows, test, cursor, limit);
    match NextCursor(page, limit) {
      case None =>
      case Some(next) =>
        WalkAscends(rows, test, next, limit);
        AscendingJoin(page, Walk(rows, test, next, limit), next);
    }
  }

  /** A row that ranks first does so at every later cursor below it. */
  lemma StillRankOne(rows: seq<Row>, test: Test, cursor: int, next: int, r: Row)
    requires RankOne(rows, test, cursor, r) && cursor <= next < r.id
    ensures RankOne(rows, test, next, r)
  {
    forall x | x in rows && Candidate(test, next, x) ensures !Before(x, r) {
      assert Candidate(test, cursor, x);
    }
  }

  /** Every matching scheme's latest row is listed (and only once, by `WalkAscends`). */
  lemma {:induction false} LatestIsListed(rows: seq<Row>, test: Test, cursor: int, limit: nat, r: Row)
    requires limit >= 1 && Ascending(rows) && RankOne(rows, test, cursor, r)
    ensures r in Walk(rows, test, cursor, limit)
    decreases |IdsAbove(rows, cursor)|
  {
    PageOf(rows, test, cursor, limit);
    ResultFacts(rows, test, cursor);
    OnPageOrAfter(Result(rows, test, cursor), limit, r);
    var page := ListFunds(rows, test, cursor, limit);
    if r !in page {
      var next := NextCursor(page, limit).value;
      StillRankOne(rows, test, cursor, next, r);
      LatestIsListed(rows, test, next, limit, r);
    }
  }

  // ---------------------------------------------------------------- when a scheme comes back

  /** A scheme with a candidate has a row that ranks first. */
  lemma {:induction false} SomeoneRanksFirst(rows: seq<Row>, test: Test, cursor: int, some: Row) returns (first: Row)
    requires Ascending(rows) && some in rows && Candidate(test, cursor, some)
    ensures RankOne(rows, test, cursor, first) && Scheme(first) == Scheme(some)
  {
    first := FirstOf(rows, rows, test, cursor, some);
  }

  lemma {:induction false} FirstOf(part: seq<Row>, rows: seq<Row>, test: Test, cursor: int, some: Row)
    returns (first: Row)
    requires some in rows && Candidate(test, cursor, some)
    requires forall x | x in part :: x in rows
    ensures first in rows && Candidate(test, cursor, first) && Scheme(first) == Scheme(some)
    ensures forall x | x in part && Candidate(test, cursor, x) :: !Before(x, first)
  {
    if part == [] {
      first := some;
    } else {
      first := FirstOf(part[1..], rows, test, cursor, some);
      if Candidate(test, cursor, part[0]) && Before(part[0], first) {
        first := part[0];
      }
    }
  }

  /** Each scheme's latest matching row also has the largest id among its matching rows. */
  predicate LatestIsLast(rows: seq<Row>, test: Test, cursor: int) {
    forall r, x | r in rows && x in rows && RankOne(rows, test, cursor, r) && Candidate(test, cursor, x)
                  && Scheme(x) == Scheme(r) :: x.id <= r.id
  }

  predicate SchemesOnce(listed: seq<Row>) {
    forall i, j | 0 <= i < j < |listed| :: Scheme(listed[i]) != Scheme(listed[j])
  }

  /** Under that condition, whatever the walk lists is a scheme's latest row. */
  lemma {:induction false} OnlyLatestListed(rows: seq<Row>, test: Test, cursor: int, at: int, limit: nat, r: Row)
    requires limit >= 1 && Ascending(rows) && LatestIsLast(rows, test, cursor) && cursor <= at
    requires r in Walk(rows, test, at, limit)
    ensures RankOne(rows, test, cursor, r)
    decreases |IdsAbove(rows, at)|
  {
    PageOf(rows, test, at, limit);
    var page := ListFunds(rows, test, at, limit);
    if r in page {
      assert Candidate(test, cursor, r);
      var first := SomeoneRanksFirst(rows, test, cursor, r);
      assert r.id <= first.id && Candidate(test, at, first);
      assert !Before(first, r) && !Before(r, first);
      SameRow(rows, first, r);
    } else {
      OnlyLatestListed(rows, test, cursor, NextCursor(page, limit).value, limit, r);
    }
  }

  lemma SameRow(rows: seq<Row>, a: Row, b: Row)
    requires Ascending(rows) && a in rows && b in rows
    requires Scheme(a) == Scheme(b) && !Before(a, b) && !Before(b, a)
    ensures a == b
  {
    var i :| 0 <= i < |rows| && rows[i] == a;
    var j :| 0 <= j < |rows| && rows[j] == b;
    assert a.id == b.id;
  }

  lemma OneLatest(rows: seq<Row>, test: Test, cursor: int, a: Row, b: Row)
    requires Ascending(rows) && RankOne(rows, test, cursor, a) && RankOne(rows, test, cursor, b)
    ensures Scheme(a) == Scheme(b) ==> a.id == b.id
  {
    if Scheme(a) == Scheme(b) {
      SameRow(rows, a, b);
    }
  }

  lemma SchemesOnceIf(rows: seq<Row>, test: Test, cursor: int, limit: nat)
    requires limit >= 1 && Ascending(rows) && LatestIsLast(rows, test, cursor)
    ensures SchemesOnce(Walk(rows, test, cursor, limit))
  {
    var listed := Walk(rows, test, cursor, limit);
    WalkAscends(rows, test, cursor, limit);
    forall i, j | 0 <= i < j < |listed| ensures Scheme(listed[i]) != Scheme(listed[j]) {
      OnlyLatestListed(rows, test, cursor, cursor, limit, listed[i]);
      OnlyLatestListed(rows, test, cursor, cursor, limit, listed[j]);
      OneLatest(rows, test, cursor, listed[i], listed[j]);
    }
  }

  lemma WalkStep(rows: seq<Row>, test: Test, cursor: int, r: Row) returns (page: seq<Row>, next: int)
    requires Ascending(rows) && RankOne(rows, test, cursor, r)
    ensures |page| == 1 && page[0].id == next && cursor < next
    ensures Walk(rows, test, cursor, 1) == page + Walk(rows, test, next, 1)
    ensures |IdsAbove(rows, next)| < |IdsAbove(rows, cursor)|
    ensures page[0] == r || next < r.id
  {
    hide RankOne, IdsAbove, Filter;
    PageOf(rows, test, cursor, 1);
    ResultFacts(rows, test, cursor);
    OnPageOrAfter(Result(rows, test, cursor), 1, r);
    page := ListFunds(rows, test, cursor, 1);
    next := page[0].id;
    assert NextCursor(page, 1) == Some(next);
  }

  /** With one row a page, the walk passes the latest row and goes on from just above it. */
  lemma {:induction false} OneByOne(rows: seq<Row>, test: Test, cursor: int, r: Row) returns (before: seq<Row>)
    requires Ascending(rows) && RankOne(rows, test, cursor, r)
    ensures Walk(rows, test, cursor, 1) == before + [r] + Walk(rows, test, r.id, 1)
    decreases |IdsAbove(rows, cursor)|
  {
    hide Walk, RankOne, Ascending, IdsAbove;
    var page, next := WalkStep(rows, test, cursor, r);
    if page[0] == r {
      before := [];
      assert page == [r];
      assert [] + [r] + Walk(rows, test, r.id, 1) == page + Walk(rows, test, next, 1);
    } else {
      StillRankOne(rows, test, cursor, next, r);
      var more := OneByOne(rows, test, next, r);
      before := page + more;
      assert page + (more + [r] + Walk(rows, test, r.id, 1)) == before + [r] + Walk(rows, test, r.id, 1);
    }
  }

  /** A scheme whose latest row is not its last inserted one comes back after its latest row. */
  lemma SchemeComesBack(rows: seq<Row>, test: Test, cursor: int, r: Row, x: Row)
    requires Ascending(rows) && RankOne(rows, test, cursor, r)
    requires x in rows && Candidate(test, cursor, x) && Scheme(x) == Scheme(r) && x.id > r.id
    ensures !SchemesOnce(Walk(rows, test, cursor, 1))
  {
    hide Walk, RankOne, Ascending, Scheme;
    var before := OneByOne(rows, test, cursor, r);
    var again := SomeoneRanksFirst(rows, test, r.id, x);
    LatestIsListed(rows, test, r.id, 1, again);
    var rest := Walk(rows, test, r.id, 1);
    var k :| 0 <= k < |rest| && rest[k] == again;
    var listed := Walk(rows, test, cursor, 1);
    assert listed[|before|] == r && listed[|before| + 1 + k] == again;
  }

  /**
   No walk, at any page size, shows a scheme twice exactly when every scheme's latest matching
   row is also its last inserted one.
   */
  lemma SchemesOnceExactlyWhen(rows: seq<Row>, test: Test, cursor: int)
    requires Ascending(rows)
    ensures LatestIsLast(rows, test, cursor)
            <==> forall limit: nat | limit >= 1 :: SchemesOnce(Walk(rows, test, cursor, limit))
  {
    hide Walk, RankOne, Ascending, Scheme, SchemesOnce;
    if LatestIsLast(rows, test, cursor) {
      forall limit: nat | limit >= 1 ensures SchemesOnce(Walk(rows, test, cursor, limit)) {
        SchemesOnceIf(rows, test, cursor, limit);
      }
    } else {
      var r, x :| r in rows && x in rows && RankOne(rows, test, cursor, r) && Candidate(test, cursor, x)
                  && Scheme(x) == Scheme(r) && x.id > r.id;
      SchemeComesBack(rows, test, cursor, r, x);
    }
  }

  /** In particular it is enough that ids follow dates within each scheme. */
  lemma IdsFollowDates(rows: seq<Row>, test: Test, cursor: int)
    requires Ascending(rows)
    requires forall a, b | a in rows && b in rows && Scheme(a) == Scheme(b) && NavDate(a) < NavDate(b) :: a.id < b.id
    requires forall a, b | a in rows && b in rows && Scheme(a) == Scheme(b) && NavDate(a) == NavDate(b) :: a == b
    ensures LatestIsLast(rows, test, cursor)
  {
    forall r, x | r in rows && x in rows && RankOne(rows, test, cursor, r) && Candidate(test, cursor, x)
                  && Scheme(x) == Scheme(r)
      ensures x.id <= r.id
    {
      assert !Before(x, r);
      if NavDate(x) == NavDate(r) {
        assert x == r;
      }
    }
  }

  // ---------------------------------------------------------------- a table that grows

  function Funds(test: Test): GrowingWalk.Listing {
    (rows: seq<Row>, cursor: int) => Result(rows, test, cursor)
  }

  lemma FundsLists(test: Test)
    ensures GrowingWalk.Lists(Funds(test), test)
  {
    forall rows, cursor ensures GrowingWalk.ListsAt(Funds(test), test, rows, cursor) {
      if Ascending(rows) {
        ResultFacts(rows, test, cursor);
      }
    }
  }

  /** Also when upserts run between the pages, no row is listed twice. */
  lemma GrowingWalkAscends(tables: seq<seq<Row>>, test: Test, cursor: int, limit: nat)
    requires limit >= 1 && GrowingWalk.Evolves(tables)
    ensures var rows := Flatten(GrowingWalk.Walk(tables, Funds(test), cursor, limit));
            Ascending(rows) && forall x | x in rows :: x.id > cursor && test(x)
  {
    FundsLists(test);
    GrowingWalk.WalkAscends(tables, Funds(test), test, cursor, limit);
  }

  /** And a row that ranks first at every page it is there for is listed, rows inserted meanwhile included. */
  lemma GrowingWalkMissesNothing(tables: seq<seq<Row>>, test: Test, cursor: int, limit: nat, last: nat, i: nat)
    requires limit >= 1 && GrowingWalk.Evolves(tables)
    requires var pages := GrowingWalk.Walk(tables, Funds(test), cursor, limit);
             |pages| == last + 1 && GrowingWalk.Finished(pages, limit)
    requires i < |tables[last]| && tables[last][i].id > cursor
    requires forall k | 0 <= k <= last && i < |tables[k]| :: RankOne(tables[k], test, cursor, tables[k][i])
    ensures GrowingWalk.Listed(GrowingWalk.Walk(tables, Funds(test), cursor, limit), tables[last][i].id)
  {
    hide RankOne, GrowingWalk.Offered, GrowingWalk.Lists;
    FundsLists(test);
    forall k | 0 <= k <= last && i < |tables[k]| ensures GrowingWalk.Offered(Funds(test), tables[k], i, cursor) {
      FirstIsOffered(tables[k], test, i, cursor);
    }
    GrowingWalk.WalkMissesNothing(tables, Funds(test), test, cursor, limit, last, i);
  }

  lemma FirstIsOffered(rows: seq<Row>, test: Test, i: nat, cursor: int)
    requires i < |rows| && Ascending(rows) && RankOne(rows, test, cursor, rows[i])
    ensures GrowingWalk.Offered(Funds(test), rows, i, cursor)
  {
    hide RankOne;
    forall c | cursor <= c < rows[i].id ensures rows[i] in Result(rows, test, c) {
      StillRankOne(rows, test, cursor, c, rows[i]);
      ResultFacts(rows, test, c);
    }
  }

  // ---------------------------------------------------------------- a back-filled day

  const ANY_ROW: Test := (r: Row) => true

  /** Two upserts of one scheme, the newer day first. */
  lemma BackfilledTable(newer: Cols, older: Cols, someDefaults: Cols, otherDefaults: Cols)
    requires newer.Keys == older.Keys == AmfiSave.FUND_COLS
    requires Get(newer, "nav_date") != Get(older, "nav_date")
    ensures var one := PutRow([], AmfiSave.FUND_CLAUSE, newer, 1, someDefaults);
            PutRow(one, AmfiSave.FUND_CLAUSE, older, 2, otherDefaults)
            == [Row(1, someDefaults + newer), Row(2, otherDefaults + older)]
  {
    var one := PutRow([], AmfiSave.FUND_CLAUSE, newer, 1, someDefaults);
    assert one == [Row(1, someDefaults + newer)];
    assert "nav_date" in AmfiSave.FUND_KEY;
    assert Get(Contents(one)[0], "nav_date") == Get(newer, "nav_date");
  }

  /** A walk of two rows of one scheme, the latest first, one row a page. */
  lemma WalkOfTwo(a: Row, b: Row)
    requires a.id == 1 && b.id == 2 && Scheme(a) == Scheme(b) && NavDate(a) > NavDate(b)
    ensures !LatestIsLast([a, b], ANY_ROW, 0) && Walk([a, b], ANY_ROW, 0, 1) == [a, b]
  {
    hide Scheme, NavDate, Walk;
    var rows := [a, b];
    ResultOfTwo(a, b);
    assert RankOne(rows, ANY_ROW, 0, a) && Candidate(ANY_ROW, 0, b);
    WalkUnfolds(rows, 0, a);
    WalkUnfolds(rows, 1, b);
    WalkEnded(rows);
    assert [a] + ([b] + []) == [a, b];
  }

  lemma FilterOfTwo(a: Row, b: Row, test: Test)
    ensures Filter([a, b], test) == (if test(a) then [a] else []) + if test(b) then [b] else []
  {
    assert [a, b][1..] == [b] && [b][1..] == [];
    assert Filter([b], test) == (if test(b) then [b] else []) + Filter([b][1..], test);
  }

  lemma ResultOfTwo(a: Row, b: Row)
    requires a.id == 1 && b.id == 2 && Scheme(a) == Scheme(b) && NavDate(a) > NavDate(b)
    ensures Result([a, b], ANY_ROW, 0) == [a] && Result([a, b], ANY_ROW, 1) == [b] && Result([a, b], ANY_ROW, 2) == []
  {
    hide Scheme, NavDate, Filter;
    var rows := [a, b];
    FilterOfTwo(a, b, (r: Row) => RankOne(rows, ANY_ROW, 0, r));
    FilterOfTwo(a, b, (r: Row) => RankOne(rows, ANY_ROW, 1, r));
    FilterOfTwo(a, b, (r: Row) => RankOne(rows, ANY_ROW, 2, r));
    assert RankOne(rows, ANY_ROW, 0, a) && !RankOne(rows, ANY_ROW, 0, b);
    assert RankOne(rows, ANY_ROW, 1, b) && !RankOne(rows, ANY_ROW, 1, a);
  }

  lemma WalkUnfolds(rows: seq<Row>, cursor: int, r: Row)
    requires Ascending(rows) && Result(rows, ANY_ROW, cursor) == [r]
    ensures Walk(rows, ANY_ROW, cursor, 1) == [r] + Walk(rows, ANY_ROW, r.id, 1)
  {
    hide Result, IdsAbove;
  }

  lemma WalkEnded(rows: seq<Row>)
    requires Ascending(rows) && Result(rows, ANY_ROW, 2) == []
    ensures Walk(rows, ANY_ROW, 2, 1) == []
  {
    hide Result, IdsAbove;
  }

  /**
   The condition can fail: a newer day and then an older one, as the historical ingest would
   write them, leave a table whose walk shows the scheme twice.
   */
  lemma BackfillRepeatsScheme(newer: Cols, older: Cols, someDefaults: Cols, otherDefaults: Cols)
    requires newer.Keys == older.Keys == AmfiSave.FUND_COLS
    requires Get(newer, "scheme_code") == Get(older, "scheme_code")
    requires Get(newer, "nav_date").Int? && Get(older, "nav_date").Int?
    requires Get(newer, "nav_date").i > Get(older, "nav_date").i
    ensures var one := PutRow([], AmfiSave.FUND_CLAUSE, newer, 1, someDefaults);
            var rows := PutRow(one, AmfiSave.FUND_CLAUSE, older, 2, otherDefaults);
            && Ascending(rows) && !LatestIsLast(rows, ANY_ROW, 0)
            && |rows| == 2 && Walk(rows, ANY_ROW, 0, 1) == rows
            && !SchemesOnce(Walk(rows, ANY_ROW, 0, 1))
  {
    hide Walk, PutRow, LatestIsLast;
    var a, b := Row(1, someDefaults + newer), Row(2, otherDefaults + older);
    BackfilledTable(newer, older, someDefaults, otherDefaults);
    assert Scheme(a) == Scheme(b) && NavDate(a) > NavDate(b);
    WalkOfTwo(a, b);
    assert [a, b][0] == a && [a, b][1] == b;
  }
}
