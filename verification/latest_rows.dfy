/**
 The latest row of each group, four ways: the MAX join of database/schema_sqlite.sql, DISTINCT ON
 of database/schema.sql, ROW_NUMBER() = 1 of api/routers/market.py and ORDER BY ... LIMIT 1 of
 api/routers/stocks.py.

 Where SQL leaves an order open (ties), the query is a relation: any order the engine may use.
 */
module LatestRows {
  import opened Common
  import opened KeyedTable
  import opened TableStorage
  import opened Paging

  /** The grouping column (symbol, index_name) and the time column. */
  datatype Shape = Shape(group: string, time: string)
  {
    function Group(r: Row): Value {
      Get(r.vals, group)
    }

    function Time(r: Row): int {
      match Get(r.vals, time)
      case Int(t) => t
      case _ => 0
    }
  }

  // ---------------------------------------------------------------- the four queries

  /** `SELECT MAX(timestamp) ... GROUP BY symbol`, for one symbol. */
  function MaxTime(rows: seq<Row>, s: Shape, g: Value): (m: Option<int>)
    ensures m.None? <==> forall x | x in rows :: s.Group(x) != g
    ensures m.Some? ==> forall x | x in rows && s.Group(x) == g :: s.Time(x) <= m.value
    ensures m.Some? ==> exists x | x in rows :: s.Group(x) == g && s.Time(x) == m.value
  {
    if rows == [] then None
    else
      var rest := MaxTime(rows[1..], s, g);
      if s.Group(rows[0]) != g then rest
      else if rest.Some? && rest.value > s.Time(rows[0]) then rest
      else Some(s.Time(rows[0]))
  }

  function MaxJoin(rows: seq<Row>, s: Shape): seq<Row> {
    Filter(rows, (r: Row) => MaxTime(rows, s, s.Group(r)) == Some(s.Time(r)))
  }

  /** `ORDER BY symbol, timestamp DESC`: groups together, latest first. */
  ghost predicate Ordered(sorted: seq<Row>, rows: seq<Row>, s: Shape) {
    && (forall x :: x in sorted <==> x in rows)
    && (forall i, j | 0 <= i < j < |sorted| && s.Group(sorted[i]) == s.Group(sorted[j]) ::
          s.Time(sorted[i]) >= s.Time(sorted[j]))
    && (forall i, k, j | 0 <= i < k < j < |sorted| && s.Group(sorted[i]) == s.Group(sorted[j]) ::
          s.Group(sorted[k]) == s.Group(sorted[i]))
  }

  predicate StartsGroup(sorted: seq<Row>, s: Shape, i: nat) {
    i < |sorted| && (i > 0 ==> s.Group(sorted[i - 1]) != s.Group(sorted[i]))
  }

  /** `DISTINCT ON (symbol)`: the first row of each stretch. */
  predicate DistinctOn(sorted: seq<Row>, s: Shape, r: Row) {
    exists i: nat | i < |sorted| :: StartsGroup(sorted, s, i) && sorted[i] == r
  }

  /** Numbers that `ROW_NUMBER() OVER (PARTITION BY symbol ORDER BY timestamp DESC)` may give. */
  ghost predicate Numbering(rows: seq<Row>, s: Shape, rn: Row -> int) {
    && (forall r | r in rows :: rn(r) >= 1)
    && (forall r, x | r in rows && x in rows && r != x && s.Group(r) == s.Group(x) :: rn(r) != rn(x))
    && (forall r | r in rows && rn(r) > 1 ::
          exists x | x in rows :: s.Group(x) == s.Group(r) && rn(x) == rn(r) - 1)
    && (forall r, x | r in rows && x in rows && s.Group(r) == s.Group(x) && rn(r) < rn(x) :: s.Time(r) >= s.Time(x))
  }

  /** `WHERE symbol = g ORDER BY timestamp DESC`, in some order. */
  ghost predicate OfGroup(list: seq<Row>, rows: seq<Row>, s: Shape, g: Value) {
    && (forall x :: x in list <==> x in rows && s.Group(x) == g)
    && (forall i, j | 0 <= i < j < |list| :: s.Time(list[i]) >= s.Time(list[j]))
  }

  /** ... `LIMIT 1`. */
  function FirstOnly(list: seq<Row>): Option<Row> {
    if list == [] then None else Some(list[0])
  }

  // ---------------------------------------------------------------- the plain meaning

  predicate OneRowPerTime(rows: seq<Row>, s: Shape) {
    forall x, y | x in rows && y in rows && s.Group(x) == s.Group(y) && s.Time(x) == s.Time(y) :: x == y
  }

  predicate Latest(rows: seq<Row>, s: Shape, r: Row) {
    r in rows && forall x | x in rows && s.Group(x) == s.Group(r) :: s.Time(x) <= s.Time(r)
  }

  lemma MaxJoinIsLatest(rows: seq<Row>, s: Shape, r: Row)
    ensures r in MaxJoin(rows, s) <==> Latest(rows, s, r)
  {
    if r in rows {
      MaxTimeIsReached(rows, s, r);
    }
    assert r in MaxJoin(rows, s) <==> r in rows && MaxTime(rows, s, s.Group(r)) == Some(s.Time(r));
  }

  /** Off the columns: a row the join returns has the largest time of all rows with its group's value. */
  lemma MaxJoinColumns(rows: seq<Row>, s: Shape, r: Row)
    requires forall x | x in rows :: Get(x.vals, s.time).Int?
    ensures r in MaxJoin(rows, s)
            <==> && r in rows
                 && forall x | x in rows && Get(x.vals, s.group) == Get(r.vals, s.group) ::
                      Get(x.vals, s.time).i <= Get(r.vals, s.time).i
  {
    hide Get, MaxJoin;
    MaxJoinIsLatest(rows, s, r);
  }

  lemma MaxTimeIsReached(rows: seq<Row>, s: Shape, r: Row)
    requires r in rows
    ensures MaxTime(rows, s, s.Group(r)) == Some(s.Time(r)) <==> Latest(rows, s, r)
  {
    hide MaxTime, Get;
    var m := MaxTime(rows, s, s.Group(r));
    assert m.Some?;
    var x :| x in rows && s.Group(x) == s.Group(r) && s.Time(x) == m.value;
  }

  lemma DistinctOnIsLatest(rows: seq<Row>, s: Shape, sorted: seq<Row>, r: Row)
    requires OneRowPerTime(rows, s) && Ordered(sorted, rows, s)
    ensures DistinctOn(sorted, s, r) <==> Latest(rows, s, r)
  {
    if DistinctOn(sorted, s, r) {
      var i: nat :| i < |sorted| && StartsGroup(sorted, s, i) && sorted[i] == r;
      StretchStartIsLatest(rows, s, sorted, i);
    }
    if Latest(rows, s, r) {
      LatestStartsStretch(rows, s, sorted, r);
    }
  }

  lemma LatestStartsStretch(rows: seq<Row>, s: Shape, sorted: seq<Row>, r: Row)
    requires OneRowPerTime(rows, s) && Ordered(sorted, rows, s) && Latest(rows, s, r)
    ensures DistinctOn(sorted, s, r)
  {
    var i := FirstOfGroup(sorted, s, r);
    var j :| 0 <= j < |sorted| && sorted[j] == r;
    assert i <= j && sorted[i] in sorted;
    assert s.Time(sorted[i]) == s.Time(r);
    assert sorted[i] == r && StartsGroup(sorted, s, i);
  }

  lemma StretchStartIsLatest(rows: seq<Row>, s: Shape, sorted: seq<Row>, i: nat)
    requires Ordered(sorted, rows, s) && StartsGroup(sorted, s, i)
    ensures Latest(rows, s, sorted[i])
  {
    assert sorted[i] in sorted;
    forall x | x in rows && s.Group(x) == s.Group(sorted[i]) ensures s.Time(x) <= s.Time(sorted[i]) {
      var j :| 0 <= j < |sorted| && sorted[j] == x;
      OtherGroupsBefore(rows, s, sorted, i);
    }
  }

  lemma OtherGroupsBefore(rows: seq<Row>, s: Shape, sorted: seq<Row>, i: nat)
    requires Ordered(sorted, rows, s) && StartsGroup(sorted, s, i)
    ensures forall j | 0 <= j < i :: s.Group(sorted[j]) != s.Group(sorted[i])
  {
    if i > 0 {
      var k := i - 1;
      assert s.Group(sorted[k]) != s.Group(sorted[i]);
    }
  }

  lemma FirstOfGroup(sorted: seq<Row>, s: Shape, r: Row) returns (i: nat)
    requires r in sorted
    ensures i < |sorted| && s.Group(sorted[i]) == s.Group(r)
    ensures forall j | 0 <= j < i :: s.Group(sorted[j]) != s.Group(r)
    ensures forall j | 0 <= j < |sorted| && sorted[j] == r :: i <= j
  {
    i := 0;
    while s.Group(sorted[i]) != s.Group(r)
      invariant 0 <= i < |sorted| && forall j | 0 <= j < i :: s.Group(sorted[j]) != s.Group(r)
      invariant exists j | i <= j < |sorted| :: sorted[j] == r
      decreases |sorted| - i
    {
      i := i + 1;
    }
  }

  lemma {:induction false} NumberOneExists(rows: seq<Row>, s: Shape, rn: Row -> int, r: Row) returns (top: Row)
    requires Numbering(rows, s, rn) && r in rows
    ensures top in rows && s.Group(top) == s.Group(r) && rn(top) == 1
    decreases rn(r)
  {
    if rn(r) == 1 {
      top := r;
    } else {
      var x :| x in rows && s.Group(x) == s.Group(r) && rn(x) == rn(r) - 1;
      top := NumberOneExists(rows, s, rn, x);
    }
  }

  lemma RowNumberIsLatest(rows: seq<Row>, s: Shape, rn: Row -> int, r: Row)
    requires OneRowPerTime(rows, s) && Numbering(rows, s, rn) && r in rows
    ensures rn(r) == 1 <==> Latest(rows, s, r)
  {
    var top := NumberOneExists(rows, s, rn, r);
    if rn(r) == 1 {
      forall x | x in rows && s.Group(x) == s.Group(r) ensures s.Time(x) <= s.Time(r) {
        assert x != r ==> rn(r) < rn(x);
      }
    }
    if Latest(rows, s, r) {
      assert s.Time(top) <= s.Time(r);
      assert rn(top) < rn(r) ==> s.Time(top) >= s.Time(r);
    }
  }

  lemma LimitOneIsLatest(rows: seq<Row>, s: Shape, g: Value, list: seq<Row>)
    requires OneRowPerTime(rows, s) && OfGroup(list, rows, s, g)
    ensures FirstOnly(list).None? <==> forall x | x in rows :: s.Group(x) != g
    ensures forall r | s.Group(r) == g :: FirstOnly(list) == Some(r) <==> Latest(rows, s, r)
  {
    if list == [] {
      forall x | x in rows ensures s.Group(x) != g {
        assert x !in list;
      }
    } else {
      assert list[0] in list;
      forall x | x in rows && s.Group(x) == g ensures s.Time(x) <= s.Time(list[0]) {
        assert x in list;
      }
    }
  }

  /** On a table with one row per group and time, the four queries pick the same rows. */
  lemma FourQueriesAgree(rows: seq<Row>, s: Shape, sorted: seq<Row>, rn: Row -> int, list: seq<Row>, r: Row)
    requires OneRowPerTime(rows, s) && r in rows
    requires Ordered(sorted, rows, s) && Numbering(rows, s, rn) && OfGroup(list, rows, s, s.Group(r))
    ensures r in MaxJoin(rows, s) <==> DistinctOn(sorted, s, r)
    ensures r in MaxJoin(rows, s) <==> rn(r) == 1
    ensures r in MaxJoin(rows, s) <==> FirstOnly(list) == Some(r)
    ensures forall x | x in MaxJoin(rows, s) && s.Group(x) == s.Group(r) :: FirstOnly(list) == Some(x)
  {
    MaxJoinIsLatest(rows, s, r);
    DistinctOnIsLatest(rows, s, sorted, r);
    RowNumberIsLatest(rows, s, rn, r);
    LimitOneIsLatest(rows, s, s.Group(r), list);
    forall x | x in MaxJoin(rows, s) && s.Group(x) == s.Group(r) ensures FirstOnly(list) == Some(x) {
      MaxJoinIsLatest(rows, s, x);
    }
  }

  /**
   What `upsert_batch` can reach is of that kind, as far as a query sees it: the rows agree on
   every key column besides the group and the time (the movers' queries fix `type`).
   */
  lemma ReachableTablesQualify(table: seq<Row>, last: int, key: set<string>, unique: set<string>,
                               rows: seq<Row>, s: Shape)
    requires Sound(table, last, key, unique) && forall r | r in rows :: r in table && Get(r.vals, s.time).Int?
    requires forall x, y, c | x in rows && y in rows && c in key - {s.group, s.time} :: Get(x.vals, c) == Get(y.vals, c)
    ensures OneRowPerTime(rows, s)
  {
    hide Get;
    forall x, y | x in rows && y in rows && s.Group(x) == s.Group(y) && s.Time(x) == s.Time(y) ensures x == y {
      var i :| 0 <= i < |table| && table[i] == x;
      var j :| 0 <= j < |table| && table[j] == y;
      assert Get(x.vals, s.time) == Get(y.vals, s.time) && Get(x.vals, s.group) == Get(y.vals, s.group);
      assert forall c | c in key :: c == s.group || c == s.time || c in key - {s.group, s.time};
      SameKeySameRow(table, key, i, j);
    }
  }

  lemma SameKeySameRow(table: seq<Row>, key: set<string>, i: nat, j: nat)
    requires Keyed(Contents(table), key) && i < |table| && j < |table|
    requires forall c | c in key :: Get(table[i].vals, c) == Get(table[j].vals, c)
    ensures i == j
  {
    hide Get;
    OneMatch(Contents(table), key, table[i].vals, i, j);
  }

  /**
   Where two rows of a group tie at the latest time, the MAX join returns both while LIMIT 1
   returns one: the queries agree on a group exactly when its latest row is unique.
   */
  lemma TiesSeparateThem(rows: seq<Row>, s: Shape, g: Value, list: seq<Row>)
    requires OfGroup(list, rows, s, g)
    ensures (forall r | s.Group(r) == g :: r in MaxJoin(rows, s) <==> FirstOnly(list) == Some(r))
            <==> (forall x, y | s.Group(x) == g && s.Group(y) == g && Latest(rows, s, x) && Latest(rows, s, y) ::
                    x == y)
  {
    forall r ensures r in MaxJoin(rows, s) <==> Latest(rows, s, r) {
      MaxJoinIsLatest(rows, s, r);
    }
    if list != [] {
      assert list[0] in list;
      forall x | x in rows && s.Group(x) == g ensures s.Time(x) <= s.Time(list[0]) {
        assert x in list;
      }
      assert Latest(rows, s, list[0]);
    }
    forall r | Latest(rows, s, r) && s.Group(r) == g ensures list != [] {
      assert r in list;
    }
  }
}
