/**
 Keyset paging: rows in id order above a cursor, cut at a limit; the last id of a full page is
 the next cursor, and a page that is not full is the last.
 */
module Paging {
  import opened Common
  import opened TableStorage

  type Test = Row -> bool

  function Filter(rows: seq<Row>, test: Test): (r: seq<Row>)
    ensures forall x | x in r :: x in rows && test(x)
    ensures forall x | x in rows && test(x) :: x in r
  {
    if rows == [] then []
    else (if test(rows[0]) then [rows[0]] else []) + Filter(rows[1..], test)
  }

  lemma {:induction false} FilterAscending(rows: seq<Row>, test: Test)
    requires Ascending(rows)
    ensures Ascending(Filter(rows, test))
  {
    if rows != [] {
      FilterAscending(rows[1..], test);
      forall x | x in Filter(rows[1..], test) ensures rows[0].id < x.id {
        var i :| 0 <= i < |rows[1..]| && rows[1..][i] == x;
        assert rows[i + 1] == x;
      }
    }
  }

  function Cut(result: seq<Row>, limit: nat): (page: seq<Row>)
    ensures |page| <= limit
  {
    if |result| <= limit then result else result[..limit]
  }

  function NextCursor(page: seq<Row>, limit: nat): Option<int>
    requires limit >= 1
  {
    if |page| == limit then Some(page[limit - 1].id) else None
  }

  /** A row of the result is on the page, or the page is full and the row comes after it. */
  lemma OnPageOrAfter(result: seq<Row>, limit: nat, x: Row)
    requires Ascending(result) && x in result && limit >= 1
    ensures Ascending(Cut(result, limit))
    ensures x in Cut(result, limit) ||
            (NextCursor(Cut(result, limit), limit).Some? && x.id > NextCursor(Cut(result, limit), limit).value)
  {
    var i :| 0 <= i < |result| && result[i] == x;
    var page := Cut(result, limit);
    if i < |page| {
      assert page[i] == x;
    }
  }

  lemma PageFacts(result: seq<Row>, limit: nat, cursor: int)
    requires Ascending(result) && limit >= 1 && forall x | x in result :: x.id > cursor
    ensures var page := Cut(result, limit);
            && Ascending(page)
            && (forall x | x in page :: x in result && x.id > cursor)
            && (NextCursor(page, limit).Some? ==>
                  && NextCursor(page, limit).value > cursor
                  && (forall x | x in page :: x.id <= NextCursor(page, limit).value))
  {
    var page := Cut(result, limit);
    forall x | x in page ensures x in result {
      var i :| 0 <= i < |page| && page[i] == x;
      assert result[i] == x;
    }
  }

  // ---------------------------------------------------------------- counting ids

  function IdsAbove(rows: seq<Row>, cursor: int): set<int> {
    set i | 0 <= i < |rows| && rows[i].id > cursor :: rows[i].id
  }

  lemma {:induction false} PageIds(page: seq<Row>)
    requires Ascending(page)
    ensures |set i | 0 <= i < |page| :: page[i].id| == |page|
  {
    if page != [] {
      var front := page[..|page| - 1];
      PageIds(front);
      var ids := set i | 0 <= i < |front| :: front[i].id;
      assert (set i | 0 <= i < |page| :: page[i].id) == ids + {page[|page| - 1].id} by {
        assert forall i | 0 <= i < |front| :: front[i] == page[i];
        assert forall id | id in (set i | 0 <= i < |page| :: page[i].id) :: id in ids || id == page[|page| - 1].id;
      }
      assert page[|page| - 1].id !in ids;
    }
  }

  /** A full page uses up at least `limit` of the ids still above the cursor. */
  lemma FullPageAdvances(rows: seq<Row>, result: seq<Row>, limit: nat, cursor: int)
    requires Ascending(result) && limit >= 1 && forall x | x in result :: x in rows && x.id > cursor
    requires NextCursor(Cut(result, limit), limit).Some?
    ensures |IdsAbove(rows, NextCursor(Cut(result, limit), limit).value)| + limit <= |IdsAbove(rows, cursor)|
  {
    var page := Cut(result, limit);
    var next := NextCursor(page, limit).value;
    PageFacts(result, limit, cursor);
    PageIds(page);
    var ids := set i | 0 <= i < |page| :: page[i].id;
    forall id | id in ids ensures id in IdsAbove(rows, cursor) && id <= next {
      var i :| 0 <= i < |page| && page[i].id == id;
      assert page[i] in page;
      var j :| 0 <= j < |rows| && rows[j] == page[i];
      assert rows[j].id == id;
    }
    var above := IdsAbove(rows, next);
    assert above + ids <= IdsAbove(rows, cursor);
    assert above !! ids;
    SubsetSize(above + ids, IdsAbove(rows, cursor));
  }

  lemma {:induction false} SubsetSize(a: set<int>, b: set<int>)
    requires a <= b
    ensures |a| <= |b|
  {
    assert b == a + (b - a);
  }

  function Flatten(pages: seq<seq<Row>>): seq<Row> {
    if pages == [] then [] else pages[0] + Flatten(pages[1..])
  }

  /** A page followed by rows that all come after it stays in id order. */
  lemma AscendingJoin(a: seq<Row>, b: seq<Row>, next: int)
    requires Ascending(a) && Ascending(b)
    requires (forall x | x in a :: x.id <= next) && (forall x | x in b :: x.id > next)
    ensures Ascending(a + b)
  {
    forall i, j | 0 <= i < j < |a + b| ensures (a + b)[i].id < (a + b)[j].id {
      if i < |a| <= j {
        assert a[i] in a && b[j - |a|] in b;
      }
    }
  }
}
