/**
 A cursor walk over a table that upserts keep changing between the pages, whatever the query
 behind it lists.
 */
module GrowingWalk {
  import opened Common
  import opened TableStorage
  import opened Paging

  /** What a query lists above a cursor, before the limit cuts it. */
  type Listing = (seq<Row>, int) -> seq<Row>

  /** It lists rows of the table above the cursor in id order, all of one kind. */
  ghost predicate Lists(q: Listing, kind: Test) {
    forall rows, cursor :: ListsAt(q, kind, rows, cursor)
  }

  predicate ListsAt(q: Listing, kind: Test, rows: seq<Row>, cursor: int) {
    Ascending(rows) ==>
      Ascending(q(rows, cursor)) && forall x | x in q(rows, cursor) :: x in rows && x.id > cursor && kind(x)
  }

  /** A walk: the k-th page is read from the table as it is by then. */
  function Walk(tables: seq<seq<Row>>, q: Listing, cursor: int, limit: nat): (pages: seq<seq<Row>>)
    requires limit >= 1
    ensures |pages| <= |tables|
    ensures tables != [] ==> pages != []
    decreases |tables|
  {
    if tables == [] then []
    else
      var page := Cut(q(tables[0], cursor), limit);
      match NextCursor(page, limit)
      case None => [page]
      case Some(next) => [page] + Walk(tables[1..], q, next, limit)
  }

  predicate Finished(pages: seq<seq<Row>>, limit: nat) {
    pages != [] && |pages[|pages| - 1]| != limit
  }

  /** Between pages only upserts run: rows keep their place and id, new rows come after. */
  predicate Evolves(tables: seq<seq<Row>>) {
    && (forall k | 0 <= k < |tables| :: Ascending(tables[k]))
    && (forall k, l, i | 0 <= k < l < |tables| && 0 <= i < |tables[k]| ::
          |tables[k]| <= |tables[l]| && tables[k][i].id == tables[l][i].id)
    && (forall k, l | 0 <= k < l < |tables| :: |tables[k]| <= |tables[l]|)
  }

  lemma EvolvesTail(tables: seq<seq<Row>>)
    requires Evolves(tables) && tables != []
    ensures Ascending(tables[0]) && Evolves(tables[1..])
  {
    var rest := tables[1..];
    assert forall k | 0 <= k < |rest| :: rest[k] == tables[k + 1];
  }

  lemma SameIdLater(tables: seq<seq<Row>>, l: nat, i: nat)
    requires Evolves(tables) && l < |tables| && i < |tables[0]|
    ensures i < |tables[l]| && tables[0][i].id == tables[l][i].id
  {
  }

  lemma GrownTablesEvolve(tables: seq<seq<Row>>, update: set<string>)
    requires forall k | 0 <= k < |tables| :: Ascending(tables[k])
    requires forall k | 0 <= k < |tables| - 1 :: Grown(tables[k], tables[k + 1], update)
    ensures Evolves(tables)
  {
    forall k, l | 0 <= k < l < |tables| ensures Grown(tables[k], tables[l], update) {
      GrownAcross(tables, update, k, l);
    }
  }

  lemma {:induction false} GrownAcross(tables: seq<seq<Row>>, update: set<string>, k: nat, l: nat)
    requires k < l < |tables|
    requires forall k | 0 <= k < |tables| - 1 :: Grown(tables[k], tables[k + 1], update)
    ensures Grown(tables[k], tables[l], update)
    decreases l
  {
    assert Grown(tables[l - 1], tables[l - 1 + 1], update);
    if k < l - 1 {
      GrownAcross(tables, update, k, l - 1);
      GrownTransitive(tables[k], tables[l - 1], tables[l], update);
    }
  }

  // ---------------------------------------------------------------- none twice

  lemma FlattenCons(page: seq<Row>, rest: seq<seq<Row>>)
    ensures Flatten([page] + rest) == page + Flatten(rest) && Flatten([page]) == page
  {
    assert ([page] + rest)[1..] == rest;
    assert Flatten([page]) == page + Flatten([page][1..]);
  }

  /** Whatever is upserted between pages, the walk lists rows in id order and none twice. */
  lemma {:induction false} WalkAscends(tables: seq<seq<Row>>, q: Listing, kind: Test, cursor: int, limit: nat)
    requires limit >= 1 && Evolves(tables) && Lists(q, kind)
    ensures var rows := Flatten(Walk(tables, q, cursor, limit));
            Ascending(rows) && forall x | x in rows :: x.id > cursor && kind(x)
    decreases |tables|
  {
    hide Evolves, Flatten, Ascending, Cut;
    if tables == [] {
      NoPages();
    } else {
      EvolvesTail(tables);
      var result := q(tables[0], cursor);
      assert ListsAt(q, kind, tables[0], cursor);
      PageFacts(result, limit, cursor);
      var page := Cut(result, limit);
      match NextCursor(page, limit) {
        case None =>
          FlattenCons(page, []);
        case Some(next) =>
          WalkAscends(tables[1..], q, kind, next, limit);
          var rest := Walk(tables[1..], q, next, limit);
          FlattenCons(page, rest);
          AscendingJoin(page, Flatten(rest), next);
      }
    }
  }

  lemma NoPages()
    ensures Flatten([]) == [] && Ascending([])
  {
  }

  // ---------------------------------------------------------------- none missed

  predicate Listed(pages: seq<seq<Row>>, id: int) {
    exists x | x in Flatten(pages) :: x.id == id
  }

  lemma ListedLater(page: seq<Row>, rest: seq<seq<Row>>, id: int)
    ensures Listed([page] + rest, id) <==> Listed(rest, id) || exists x | x in page :: x.id == id
  {
    FlattenCons(page, rest);
  }

  /** The query lists the i-th row at every cursor from one on, as long as that is below the row. */
  ghost predicate Offered(q: Listing, rows: seq<Row>, i: nat, cursor: int)
    requires i < |rows|
  {
    forall c | cursor <= c < rows[i].id :: rows[i] in q(rows, c)
  }

  /** What one page does for the row that ends up at position `i`. */
  lemma OnePage(rows: seq<Row>, q: Listing, kind: Test, cursor: int, limit: nat, i: nat)
    requires limit >= 1 && Ascending(rows) && Lists(q, kind)
    requires i < |rows| && rows[i].id > cursor && Offered(q, rows, i, cursor)
    ensures var page := Cut(q(rows, cursor), limit);
            || rows[i] in page
            || (NextCursor(page, limit).Some? && cursor < NextCursor(page, limit).value < rows[i].id)
  {
    assert ListsAt(q, kind, rows, cursor);
    OnPageOrAfter(q(rows, cursor), limit, rows[i]);
    PageFacts(q(rows, cursor), limit, cursor);
  }

  /**
   Every row that the table holds at the last page, and that the query offered at every page it
   was there for, is listed: also the rows inserted during the walk.
   */
  lemma {:induction false} WalkMissesNothing(tables: seq<seq<Row>>, q: Listing, kind: Test, cursor: int, limit: nat,
                                             last: nat, i: nat)
    requires limit >= 1 && Evolves(tables) && Lists(q, kind)
    requires |Walk(tables, q, cursor, limit)| == last + 1 && Finished(Walk(tables, q, cursor, limit), limit)
    requires i < |tables[last]| && tables[last][i].id > cursor
    requires forall k | 0 <= k <= last && i < |tables[k]| :: Offered(q, tables[k], i, cursor)
    ensures Listed(Walk(tables, q, cursor, limit), tables[last][i].id)
    decreases |tables|
  {
    hide Evolves, Ascending, Cut, Listed, Offered, Lists;
    EvolvesTail(tables);
    var page := Cut(q(tables[0], cursor), limit);
    var id := tables[last][i].id;
    if i < |tables[0]| {
      SameIdLater(tables, last, i);
      OnePage(tables[0], q, kind, cursor, limit, i);
    }
    match NextCursor(page, limit) {
      case None =>
        ListedLater(page, [], id);
        assert [page] + [] == [page];
      case Some(next) =>
        var rest := Walk(tables[1..], q, next, limit);
        ListedLater(page, rest, id);
        assert ([page] + rest)[|rest|] == rest[|rest| - 1];
        PageIsFromTable(tables[0], q, kind, cursor, limit);
        if i >= |tables[0]| || tables[0][i] !in page {
          if i >= |tables[0]| {
            NewRowsComeAfter(tables, last, i, page, next);
          }
          forall k | 0 <= k <= last - 1 && i < |tables[1..][k]| ensures Offered(q, tables[1..][k], i, next) {
            OfferedLater(q, tables[k + 1], i, cursor, next);
          }
          WalkMissesNothing(tables[1..], q, kind, next, limit, last - 1, i);
        }
    }
  }

  lemma OfferedLater(q: Listing, rows: seq<Row>, i: nat, cursor: int, next: int)
    requires i < |rows| && Offered(q, rows, i, cursor) && cursor <= next
    ensures Offered(q, rows, i, next)
  {
  }

  lemma PageIsFromTable(rows: seq<Row>, q: Listing, kind: Test, cursor: int, limit: nat)
    requires limit >= 1 && Ascending(rows) && Lists(q, kind)
    ensures var page := Cut(q(rows, cursor), limit);
            && (forall x | x in page :: x in rows)
            && (NextCursor(page, limit).Some? ==> NextCursor(page, limit).value > cursor)
  {
    assert ListsAt(q, kind, rows, cursor);
    PageFacts(q(rows, cursor), limit, cursor);
  }

  lemma NewRowsComeAfter(tables: seq<seq<Row>>, k: nat, i: nat, page: seq<Row>, next: int)
    requires Evolves(tables) && k < |tables| && |tables[0]| <= i < |tables[k]|
    requires page != [] && page[|page| - 1].id == next && forall x | x in page :: x in tables[0]
    ensures tables[k][i].id > next
  {
    var last := page[|page| - 1];
    assert last in page;
    var j :| 0 <= j < |tables[0]| && tables[0][j] == last;
    assert k > 0 && tables[0][j].id == tables[k][j].id;
    assert tables[k][j].id < tables[k][i].id;
  }

  // ---------------------------------------------------------------- it ends

  /**
   Once inserts stop (updates may go on), the walk ends: with `n` rows above the cursor it needs
   no more than n / limit + 1 further pages.
   */
  lemma {:induction false} WalkEnds(tables: seq<seq<Row>>, q: Listing, kind: Test, cursor: int, limit: nat)
    requires limit >= 1 && Evolves(tables) && Lists(q, kind)
    requires forall k | 0 <= k < |tables| :: |tables[k]| == |tables[0]|
    requires tables != [] && |IdsAbove(tables[0], cursor)| < |tables| * limit
    ensures Finished(Walk(tables, q, cursor, limit), limit)
    decreases |tables|
  {
    hide Evolves, Ascending, IdsAbove, Cut;
    EvolvesTail(tables);
    var result := q(tables[0], cursor);
    assert ListsAt(q, kind, tables[0], cursor);
    var page := Cut(result, limit);
    var next := NextCursor(page, limit);
    if next.Some? {
      FullPageAdvances(tables[0], result, limit, cursor);
      if |tables| > 1 {
        forall i | 0 <= i < |tables[0]| ensures tables[0][i].id == tables[1][i].id {
          SameIdLater(tables, 1, i);
        }
        SameIds(tables[0], tables[1], next.value);
        assert (|tables| - 1) * limit == |tables| * limit - limit;
        WalkEnds(tables[1..], q, kind, next.value, limit);
      }
    }
  }

  lemma SameIds(a: seq<Row>, b: seq<Row>, cursor: int)
    requires |a| == |b| && forall i | 0 <= i < |a| :: a[i].id == b[i].id
    ensures IdsAbove(a, cursor) == IdsAbove(b, cursor)
  {
  }
}
