/**
 One table behind `upsert_batch` of services/sqlite_storage.py and services/db_service.py.

 The engine chooses ids and default columns: a new row gets an id above every earlier one
 (gaps allowed: a statement that only updates, or a rolled-back batch, may use up ids), and any
 statement, or the commit, may fail, which rolls the whole batch back.
 */
module TableStorage {
  import opened Common
  import opened KeyedTable

  datatype Row = Row(id: int, vals: Cols)

  datatype Failure = NotConnected | Refused | EngineFault

  function Contents(rows: seq<Row>): seq<Cols> {
    seq(|rows|, i requires 0 <= i < |rows| => rows[i].vals)
  }

  /** The table without ids, cut down to some columns. */
  function View(rows: seq<Row>, cols: set<string>): seq<Cols> {
    seq(|rows|, i requires 0 <= i < |rows| => Project(rows[i].vals, cols))
  }

  predicate Ascending(rows: seq<Row>) {
    forall i, j | 0 <= i < j < |rows| :: rows[i].id < rows[j].id
  }

  predicate Below(rows: seq<Row>, id: int) {
    forall i | 0 <= i < |rows| :: rows[i].id <= id
  }

  /** No two rows share a non-null value in any of the columns. */
  predicate Distinct(view: seq<Cols>, unique: set<string>) {
    forall i, j, c | 0 <= i < j < |view| && c in unique ::
      Get(view[i], c) == Get(view[j], c) ==> Get(view[i], c).Null?
  }

  predicate NonNull(w: Cols, key: set<string>) {
    forall c | c in key :: !Get(w, c).Null?
  }

  /** One statement: update the row with the key, or append a new one. */
  function PutRow(rows: seq<Row>, oc: OnConflict, w: Cols, id: int, defaults: Cols): seq<Row> {
    var i := Find(Contents(rows), oc.key, w);
    if i < |rows| then rows[i := Row(rows[i].id, rows[i].vals + Project(w, oc.update))]
    else rows + [Row(id, defaults + w)]
  }

  /** Later tables keep every row in place, with its id and every column outside `update`. */
  ghost predicate Grown(before: seq<Row>, after: seq<Row>, update: set<string>) {
    && |before| <= |after|
    && (forall i | 0 <= i < |before| :: before[i].id == after[i].id)
    && (forall i, c | 0 <= i < |before| && c !in update :: Get(after[i].vals, c) == Get(before[i].vals, c))
  }

  /** Whether every statement of a batch passes the NOT NULL key and the unique columns. */
  predicate Accepts(view: seq<Cols>, oc: OnConflict, unique: set<string>, batch: seq<Cols>)
    decreases |batch|
  {
    batch != [] ==>
      && NonNull(batch[0], oc.key)
      && Distinct(Put(view, oc, batch[0]), unique)
      && Accepts(Put(view, oc, batch[0]), oc, unique, batch[1..])
  }

  // ---------------------------------------------------------------- one statement

  lemma {:induction false} FindInView(rows: seq<Row>, key: set<string>, w: Cols, cols: set<string>)
    requires key <= cols
    ensures Find(Contents(rows), key, w) == Find(View(rows, cols), key, w)
  {
    forall i | 0 <= i < |rows|
      ensures SameKey(Contents(rows)[i], w, key) <==> SameKey(View(rows, cols)[i], w, key)
    {
      forall c | c in key ensures Get(Contents(rows)[i], c) == Get(View(rows, cols)[i], c) {
      }
    }
  }

  lemma ProjectUpdate(v: Cols, w: Cols, update: set<string>, cols: set<string>)
    requires update <= cols
    ensures Project(v + Project(w, update), cols) == Project(v, cols) + Project(w, update)
  {
  }

  lemma ProjectInsert(defaults: Cols, w: Cols)
    ensures Project(defaults + w, w.Keys) == w
  {
  }

  /** Seen through the batch's columns, a statement is `Put`, whatever the engine chose. */
  lemma StatementIsPut(rows: seq<Row>, oc: OnConflict, w: Cols, id: int, defaults: Cols)
    requires Proper(oc, w.Keys)
    ensures View(PutRow(rows, oc, w, id, defaults), w.Keys) == Put(View(rows, w.Keys), oc, w)
  {
    FindInView(rows, oc.key, w, w.Keys);
    var i := Find(Contents(rows), oc.key, w);
    if i < |rows| {
      ProjectUpdate(rows[i].vals, w, oc.update, w.Keys);
    } else {
      ProjectInsert(defaults, w);
    }
  }

  lemma StatementGrows(rows: seq<Row>, oc: OnConflict, w: Cols, id: int, defaults: Cols, last: int)
    requires Ascending(rows) && Below(rows, last) && last < id
    ensures var after := PutRow(rows, oc, w, id, defaults);
            Ascending(after) && Below(after, id) && Grown(rows, after, oc.update)
  {
  }

  lemma StatementKeepsKeys(rows: seq<Row>, oc: OnConflict, w: Cols, id: int, defaults: Cols)
    requires Proper(oc, w.Keys) && Keyed(Contents(rows), oc.key)
    ensures Keyed(Contents(PutRow(rows, oc, w, id, defaults)), oc.key)
  {
    var i := Find(Contents(rows), oc.key, w);
    var after := Contents(PutRow(rows, oc, w, id, defaults));
    if i < |rows| {
      assert after == Contents(rows)[i := Contents(rows)[i] + Project(w, oc.update)];
      assert SameKey(after[i], Contents(rows)[i], oc.key);
    } else {
      assert after == Contents(rows) + [defaults + w];
      assert SameKey(after[i], w, oc.key);
      assert forall j | 0 <= j < i ::
          SameKey(after[j], after[i], oc.key) ==> SameKey(Contents(rows)[j], w, oc.key);
    }
  }

  lemma DistinctInView(rows: seq<Row>, unique: set<string>, cols: set<string>)
    requires unique <= cols
    ensures Distinct(Contents(rows), unique) <==> Distinct(View(rows, cols), unique)
  {
    forall i, c | 0 <= i < |rows| && c in unique ensures Get(Contents(rows)[i], c) == Get(View(rows, cols)[i], c) {
    }
  }

  lemma KeyedInView(rows: seq<Row>, key: set<string>, cols: set<string>)
    requires key <= cols && Keyed(Contents(rows), key)
    ensures Keyed(View(rows, cols), key) && Uniform(View(rows, cols), cols)
  {
    forall i, j | 0 <= i < j < |rows| ensures !SameKey(View(rows, cols)[i], View(rows, cols)[j], key) {
      assert !SameKey(Contents(rows)[i], Contents(rows)[j], key);
      var c :| c in key && Get(Contents(rows)[i], c) != Get(Contents(rows)[j], c);
      assert Get(View(rows, cols)[i], c) != Get(View(rows, cols)[j], c);
    }
  }

  lemma GrownTransitive(a: seq<Row>, b: seq<Row>, c: seq<Row>, update: set<string>)
    requires Grown(a, b, update) && Grown(b, c, update)
    ensures Grown(a, c, update)
  {
  }

  // ---------------------------------------------------------------- the batch

  /** `[c for c in cols if c not in conflict_cols and c != "id"]`, unless a list is given. */
  function UpdateCols(cols: set<string>, conflict: set<string>, given: Option<set<string>>): set<string> {
    match given
    case Some(u) => u
    case None => cols - conflict - {"id"}
  }

  /** Every row cut or padded (with NULL) to the columns of the first. */
  function Normalized(batch: seq<Cols>, cols: set<string>): (r: seq<Cols>)
    ensures |r| == |batch| && Uniform(r, cols)
    ensures forall i, c | 0 <= i < |batch| && c in cols :: r[i][c] == if c in batch[i] then batch[i][c] else Null
  {
    seq(|batch|, i requires 0 <= i < |batch| => Project(batch[i], cols))
  }

  lemma NormalizedIsSame(batch: seq<Cols>, cols: set<string>)
    requires Uniform(batch, cols)
    ensures Normalized(batch, cols) == batch
  {
    forall i | 0 <= i < |batch| ensures Project(batch[i], cols) == batch[i] {
      assert batch[i].Keys == cols;
    }
  }

  /** What the constraints and the id column of a table always guarantee. */
  predicate Sound(rows: seq<Row>, last: int, key: set<string>, unique: set<string>) {
    Ascending(rows) && Below(rows, last) && Keyed(Contents(rows), key) && Distinct(Contents(rows), unique)
  }

  lemma StatementIsSound(rows: seq<Row>, last: int, oc: OnConflict, unique: set<string>, w: Cols,
                         id: int, defaults: Cols)
    requires Sound(rows, last, oc.key, unique) && Proper(oc, w.Keys) && last < id
    requires Distinct(Contents(PutRow(rows, oc, w, id, defaults)), unique)
    ensures Sound(PutRow(rows, oc, w, id, defaults), id, oc.key, unique)
    ensures Grown(rows, PutRow(rows, oc, w, id, defaults), oc.update)
  {
    StatementGrows(rows, oc, w, id, defaults, last);
    StatementKeepsKeys(rows, oc, w, id, defaults);
  }

  /** With no further unique column, only a NULL in the key is refused. */
  lemma {:induction false} AcceptsKeyedRows(view: seq<Cols>, oc: OnConflict, batch: seq<Cols>)
    ensures Accepts(view, oc, {}, batch)
            <==> forall i, c | 0 <= i < |batch| && c in oc.key :: c in batch[i] && batch[i][c] != Null
    decreases |batch|
  {
    if batch != [] {
      var next, rest := Put(view, oc, batch[0]), batch[1..];
      AcceptsKeyedRows(next, oc, rest);
      assert forall i | 1 <= i < |batch| :: batch[i] == rest[i - 1];
      FirstAndRest(batch, oc.key);
    }
  }

  lemma FirstAndRest(batch: seq<Cols>, key: set<string>)
    requires batch != []
    ensures (forall i, c | 0 <= i < |batch| && c in key :: c in batch[i] && batch[i][c] != Null)
            <==> (forall c | c in key :: c in batch[0] && batch[0][c] != Null)
                 && forall i, c | 0 <= i < |batch[1..]| && c in key :: c in batch[1..][i] && batch[1..][i][c] != Null
  {
    var rest := batch[1..];
    assert forall i | 0 <= i < |rest| :: rest[i] == batch[i + 1];
    assert forall i | 1 <= i < |batch| :: batch[i] == rest[i - 1];
  }

  /**
   The statements of a batch inside one transaction; on failure, how far the ids got.  `fault` is
   the statement (or, past the last one, the commit) at which the engine fails for a reason other
   than the key and the unique columns.
   */
  method ExecuteMany(before: seq<Row>, last: int, oc: OnConflict, unique: set<string>,
                     cols: set<string>, values: seq<Cols>, fault: Option<nat>)
    returns (r: Result<seq<Row>, Failure>, used: int)
    requires Sound(before, last, oc.key, unique) && Proper(oc, cols) && Uniform(values, cols)
    ensures used >= last && (r.Err? ==> r.error.Refused? || r.error.EngineFault?)
    ensures r.Ok? ==>
              && Sound(r.value, used, oc.key, unique) && Grown(before, r.value, oc.update)
              && View(r.value, cols) == PutAll(View(before, cols), oc, values)
    ensures r.Ok? ==> fault.None? || fault.value > |values|
    ensures r.Err? && r.error.EngineFault? ==> fault.Some? && fault.value <= |values|
    ensures unique <= cols ==>
              && (r.Ok? ==> Accepts(View(before, cols), oc, unique, values))
              && (r.Err? && r.error.Refused? ==> !Accepts(View(before, cols), oc, unique, values))
  {
    hide Put, PutRow, Project, NonNull, Distinct, SameKey;
    var rows := before;
    used := last;
    assert values[0..] == values;
    for i := 0 to |values|
      invariant used >= last && Sound(rows, used, oc.key, unique) && Grown(before, rows, oc.update)
      invariant fault.Some? ==> fault.value >= i
      invariant PutAll(View(rows, cols), oc, values[i..]) == PutAll(View(before, cols), oc, values)
      invariant unique <= cols ==>
                  Accepts(View(rows, cols), oc, unique, values[i..]) == Accepts(View(before, cols), oc, unique, values)
    {
      if fault == Some(i) {
        return Err(EngineFault), used;
      }
      var gap: int := *;
      var id := used + Max(1, gap);
      var defaults: Cols := *;
      var next := PutRow(rows, oc, values[i], id, defaults);
      StatementIsPut(rows, oc, values[i], id, defaults);
      assert values[i..][0] == values[i] && values[i..][1..] == values[i + 1..];
      if unique <= cols {
        DistinctInView(next, unique, cols);
      }
      if !NonNull(values[i], oc.key) || !Distinct(Contents(next), unique) {
        return Err(Refused), used;
      }
      StatementIsSound(rows, used, oc, unique, values[i], id, defaults);
      GrownTransitive(before, rows, next, oc.update);
      rows, used := next, id;
    }
    if fault == Some(|values|) {
      return Err(EngineFault), used;
    }
    return Ok(rows), used;
  }

  /** The conflict clause `upsert_batch` builds. */
  function Clause(cols: set<string>, conflictCols: set<string>, updateCols: Option<set<string>>): OnConflict {
    OnConflict(conflictCols, UpdateCols(cols, conflictCols, updateCols))
  }

  /** What `ON CONFLICT` a batch gets, spelled out. */
  lemma ClauseMeaning(cols: set<string>, conflictCols: set<string>, updateCols: Option<set<string>>)
    ensures Clause(cols, conflictCols, updateCols).key == conflictCols
    ensures updateCols.Some? ==> Clause(cols, conflictCols, updateCols).update == updateCols.value
    ensures updateCols.None? ==>
              forall c :: c in Clause(cols, conflictCols, updateCols).update
                          <==> c in cols && c !in conflictCols && c != "id"
  {
  }

  class Table {
    const key: set<string>      // the composite UNIQUE constraint upserts are aimed at
    const unique: set<string>   // further single UNIQUE columns
    var rows: seq<Row>
    var lastId: int
    var connected: bool

    predicate Valid()
      reads this
    {
      Sound(rows, lastId, key, unique)
    }

    /**
     What it takes for a batch to go in: a connection, the table's own key as conflict target, no
     engine fault up to the commit, and no broken constraint at any statement.
     */
    predicate GoesIn(batch: seq<Cols>, conflictCols: set<string>, updateCols: Option<set<string>>, fault: Option<nat>)
      reads this
    {
      && connected
      && (batch != [] ==>
            && conflictCols == key <= batch[0].Keys
            && (fault.None? || fault.value > |batch|)
            && Accepts(View(rows, batch[0].Keys), Clause(batch[0].Keys, key, updateCols), unique,
                       Normalized(batch, batch[0].Keys)))
    }

    constructor (key: set<string>, unique: set<string>)
      ensures Valid() && rows == [] && !connected
      ensures this.key == key && this.unique == unique
    {
      this.key := key;
      this.unique := unique;
      rows := [];
      lastId := 0;
      connected := false;
    }

    method UpsertBatch(batch: seq<Cols>, conflictCols: set<string>, updateCols: Option<set<string>>, fault: Option<nat>)
      returns (r: Result<(nat, nat), Failure>)
      requires Valid()
      requires updateCols.Some? && batch != [] ==> updateCols.value <= batch[0].Keys
      modifies this
      ensures Valid() && connected == old(connected)
      ensures r == Err(NotConnected) <==> !connected
      ensures connected && batch == [] ==> r == Ok((0, 0))
      ensures r.Err? || batch == [] ==> rows == old(rows)
      ensures r.Ok? ==> r.value == (|batch|, 0)
      ensures r.Ok? && batch != [] ==>
                var cols := batch[0].Keys;
                var oc := Clause(cols, conflictCols, updateCols);
                && conflictCols == key && Proper(oc, cols)
                && View(rows, cols) == PutAll(View(old(rows), cols), oc, Normalized(batch, cols))
                && Grown(old(rows), rows, oc.update)
      ensures batch == [] || unique <= batch[0].Keys ==>
                (r.Ok? <==> old(GoesIn(batch, conflictCols, updateCols, fault)))
      ensures connected && unique == {} && batch != [] ==>
                (r.Ok? <==> && conflictCols == key <= batch[0].Keys && (fault.None? || fault.value > |batch|)
                            && forall i, c | 0 <= i < |batch| && c in key :: c in batch[i] && batch[i][c] != Null)
    {
      hide Accepts, PutAll, Grown, View, Project, Put;
      if !connected {
        return Err(NotConnected);
      }
      if |batch| == 0 {
        return Ok((0, 0));
      }
      var cols := batch[0].Keys;
      if conflictCols != key || !(key <= cols) {
        return Err(Refused);
      }
      var values := Normalized(batch, cols);
      AcceptsKeyedRows(View(rows, cols), Clause(cols, key, updateCols), values);
      var done, used := ExecuteMany(rows, lastId, Clause(cols, key, updateCols), unique, cols, values, fault);
      KeyedValues(batch, cols, key);
      if done.Ok? {
        rows, lastId := done.value, used;
        return Ok((|batch|, 0));
      } else {
        lastId := used;
        return Err(done.error);
      }
    }
  }

  lemma KeyedValues(batch: seq<Cols>, cols: set<string>, key: set<string>)
    requires key <= cols
    ensures (forall i, c | 0 <= i < |batch| && c in key :: c in batch[i] && batch[i][c] != Null)
            <==> forall i, c | 0 <= i < |batch| && c in key ::
                   c in Normalized(batch, cols)[i] && Normalized(batch, cols)[i][c] != Null
  {
    var values := Normalized(batch, cols);
    forall i, c | 0 <= i < |batch| && c in key
      ensures c in values[i] && (values[i][c] != Null <==> c in batch[i] && batch[i][c] != Null)
    {
    }
  }
}
