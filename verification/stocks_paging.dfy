/**
 `GET /stocks` of api/routers/stocks.py, walked page by page while upserts go on.
 */
module StocksPaging {
  import opened Common
  import opened KeyedTable
  import opened TableStorage
  import opened Paging
  import opened GrowingWalk
  import PythonText

  /** The WHERE clause; an empty filter string counts as none. */
  function Matches(sector: Option<string>, exchange: Option<string>): Test {
    (r: Row) =>
      && Get(r.vals, "is_active") == Int(1)
      && (sector.Some? && sector.value != "" ==> Get(r.vals, "sector") == Text(sector.value))
      && (exchange.Some? && exchange.value != "" ==> Get(r.vals, "exchange") == Text(PythonText.Upper(exchange.value)))
  }

  function Above(test: Test, cursor: int): Test {
    (r: Row) => test(r) && r.id > cursor
  }

  function Stocks(test: Test): Listing {
    (rows: seq<Row>, cursor: int) => Filter(rows, Above(test, cursor))
  }

  lemma StocksLists(test: Test)
    ensures Lists(Stocks(test), test)
  {
    forall rows, cursor ensures ListsAt(Stocks(test), test, rows, cursor) {
      if Ascending(rows) {
        FilterAscending(rows, Above(test, cursor));
      }
    }
  }

  /** Whatever is upserted between pages, the walk lists matching rows in id order and none twice. */
  lemma StocksAscend(tables: seq<seq<Row>>, sector: Option<string>, exchange: Option<string>, cursor: int, limit: nat)
    requires limit >= 1 && Evolves(tables)
    ensures var rows := Flatten(Walk(tables, Stocks(Matches(sector, exchange)), cursor, limit));
            Ascending(rows) && forall x | x in rows :: x.id > cursor && Matches(sector, exchange)(x)
  {
    hide Matches;
    StocksLists(Matches(sector, exchange));
    WalkAscends(tables, Stocks(Matches(sector, exchange)), Matches(sector, exchange), cursor, limit);
  }

  /**
   Every row that the table holds at the last page, and that matched at every page it was there
   for, is listed: also the rows inserted during the walk.
   */
  lemma StocksMissNothing(tables: seq<seq<Row>>, sector: Option<string>, exchange: Option<string>,
                          cursor: int, limit: nat, last: nat, i: nat)
    requires limit >= 1 && Evolves(tables)
    requires var pages := Walk(tables, Stocks(Matches(sector, exchange)), cursor, limit);
             |pages| == last + 1 && Finished(pages, limit)
    requires i < |tables[last]| && tables[last][i].id > cursor
    requires forall k | 0 <= k <= last && i < |tables[k]| :: Matches(sector, exchange)(tables[k][i])
    ensures Listed(Walk(tables, Stocks(Matches(sector, exchange)), cursor, limit), tables[last][i].id)
  {
    hide Matches;
    var test := Matches(sector, exchange);
    StocksLists(test);
    forall k | 0 <= k <= last && i < |tables[k]| ensures Offered(Stocks(test), tables[k], i, cursor) {
      MatchingIsOffered(tables[k], test, i, cursor);
    }
    WalkMissesNothing(tables, Stocks(test), test, cursor, limit, last, i);
  }

  lemma MatchingIsOffered(rows: seq<Row>, test: Test, i: nat, cursor: int)
    requires i < |rows| && test(rows[i])
    ensures Offered(Stocks(test), rows, i, cursor)
  {
  }

  // ---------------------------------------------------------------- a table at rest

  lemma {:induction false} FilterSame(rows: seq<Row>, a: Test, b: Test)
    requires forall x | x in rows :: a(x) == b(x)
    ensures Filter(rows, a) == Filter(rows, b)
  {
    if rows != [] {
      FilterSame(rows[1..], a, b);
    }
  }

  lemma LaterIds(rows: seq<Row>)
    requires rows != [] && Ascending(rows)
    ensures forall x | x in rows[1..] :: x.id > rows[0].id
  {
    forall x | x in rows[1..] ensures x.id > rows[0].id {
      var i :| 0 <= i < |rows[1..]| && rows[1..][i] == x;
      assert rows[i + 1] == x;
    }
  }

  lemma FilterStep(rows: seq<Row>, test: Test)
    requires rows != []
    ensures Filter(rows, test) == (if test(rows[0]) then [rows[0]] else []) + Filter(rows[1..], test)
  {
  }

  lemma SkipFront(rows: seq<Row>, test: Test, next: int)
    requires rows != [] && rows[0].id <= next
    ensures Filter(rows, Above(test, next)) == Filter(rows[1..], Above(test, next))
  {
    FilterStep(rows, Above(test, next));
  }

  lemma RestOfRows(rows: seq<Row>, test: Test, cursor: int)
    requires rows != [] && Ascending(rows)
    ensures Ascending(rows[1..])
    ensures forall x | x in Filter(rows[1..], Above(test, cursor)) :: x.id > rows[0].id
    ensures Above(test, cursor)(rows[0]) ==>
              Filter(rows[1..], Above(test, rows[0].id)) == Filter(rows[1..], Above(test, cursor))
  {
    LaterIds(rows);
    if Above(test, cursor)(rows[0]) {
      FilterSame(rows[1..], Above(test, rows[0].id), Above(test, cursor));
    }
  }

  /** Above the i-th row listed, the query lists what came after it. */
  lemma {:induction false} FilterAfter(rows: seq<Row>, test: Test, cursor: int, i: nat)
    requires Ascending(rows) && i < |Filter(rows, Above(test, cursor))|
    ensures var result := Filter(rows, Above(test, cursor));
            Filter(rows, Above(test, result[i].id)) == result[i + 1..]
  {
    hide Filter, Ascending, Above;
    if rows == [] {
      NothingFiltered(Above(test, cursor));
    } else {
      RestOfRows(rows, test, cursor);
      FilterStep(rows, Above(test, cursor));
      var result, rest := Filter(rows, Above(test, cursor)), Filter(rows[1..], Above(test, cursor));
      assert forall j | 0 <= j < |rest| :: rest[j] in rest;
      SkipFront(rows, test, result[i].id);
      if !Above(test, cursor)(rows[0]) {
        FilterAfter(rows[1..], test, cursor, i);
      } else if i > 0 {
        FilterAfter(rows[1..], test, cursor, i - 1);
      }
    }
  }

  lemma NothingFiltered(test: Test)
    ensures Filter([], test) == []
  {
  }

  /** Over a table at rest, the pages of a walk put together are the query without a limit. */
  lemma {:induction false} PagesAreTheQuery(rows: seq<Row>, test: Test, cursor: int, limit: nat, pageReads: nat)
    requires limit >= 1 && Ascending(rows) && |IdsAbove(rows, cursor)| < pageReads * limit
    ensures Flatten(Walk(seq(pageReads, _ => rows), Stocks(test), cursor, limit)) == Filter(rows, Above(test, cursor))
    decreases pageReads
  {
    hide Filter, IdsAbove, Ascending, Flatten, Lists, Above;
    var tables, result := seq(pageReads, _ => rows), Filter(rows, Above(test, cursor));
    SomeReads(pageReads, limit);
    StocksResult(rows, test, cursor);
    var page := Cut(result, limit);
    match NextCursor(page, limit) {
      case None =>
        FlattenCons(page, []);
      case Some(next) =>
        FullPageAdvances(rows, result, limit, cursor);
        FilterAfter(rows, test, cursor, limit - 1);
        assert tables[1..] == seq(pageReads - 1, _ => rows);
        OneReadLess(|IdsAbove(rows, cursor)|, |IdsAbove(rows, next)|, pageReads, limit);
        PagesAreTheQuery(rows, test, next, limit, pageReads - 1);
        FlattenCons(page, Walk(tables[1..], Stocks(test), next, limit));
        assert result == result[..limit] + result[limit..];
    }
  }

  lemma SomeReads(pageReads: nat, limit: nat)
    ensures pageReads * limit > 0 ==> pageReads > 0
  {
  }

  lemma OneReadLess(above: nat, left: nat, pageReads: nat, limit: nat)
    requires left + limit <= above < pageReads * limit && pageReads > 0
    ensures left < (pageReads - 1) * limit
  {
    assert (pageReads - 1) * limit == pageReads * limit - limit;
  }

  lemma StocksResult(rows: seq<Row>, test: Test, cursor: int)
    requires Ascending(rows)
    ensures var result := Filter(rows, Above(test, cursor));
            Ascending(result) && forall x | x in result :: x in rows && x.id > cursor
  {
    FilterAscending(rows, Above(test, cursor));
  }

  /**
   So over a table at rest the walk lists exactly the active rows above the cursor that have the
   sector and, in capitals, the exchange asked for.
   */
  lemma WalkListsExactly(rows: seq<Row>, sector: Option<string>, exchange: Option<string>,
                         cursor: int, limit: nat, pageReads: nat, x: Row)
    requires limit >= 1 && Ascending(rows) && |IdsAbove(rows, cursor)| < pageReads * limit
    ensures x in Flatten(Walk(seq(pageReads, _ => rows), Stocks(Matches(sector, exchange)), cursor, limit))
            <==> && x in rows && x.id > cursor && Get(x.vals, "is_active") == Int(1)
                 && (sector.Some? && sector.value != "" ==> Get(x.vals, "sector") == Text(sector.value))
                 && (exchange.Some? && exchange.value != "" ==>
                       Get(x.vals, "exchange") == Text(PythonText.Upper(exchange.value)))
  {
    hide Walk, Flatten, Get;
    PagesAreTheQuery(rows, Matches(sector, exchange), cursor, limit, pageReads);
  }
}
