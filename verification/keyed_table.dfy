/**
 INSERT ... ON CONFLICT (key) DO UPDATE / DO NOTHING on a keyed table, row by row.

 A table is first looked at without its ids: the sequence of its rows' columns, in id order.
 `Put` is one statement on that sequence and `PutAll` a whole batch.  `TableStorage` shows that
 both storage backends do this, whatever ids the engine hands out.
 */
module KeyedTable {
  import opened Common

  datatype Value = Null | Int(i: int) | Text(s: string)

  type Cols = map<string, Value>

  /** The conflict target and the columns of DO UPDATE SET (none: DO NOTHING). */
  datatype OnConflict = OnConflict(key: set<string>, update: set<string>)

  function Get(v: Cols, c: string): Value {
    if c in v then v[c] else Null
  }

  function Project(v: Cols, cs: set<string>): Cols {
    map c | c in cs :: Get(v, c)
  }

  predicate SameKey(a: Cols, b: Cols, key: set<string>) {
    forall c | c in key :: Get(a, c) == Get(b, c)
  }

  /** The first row that carries the key of `w`, or the length when there is none. */
  function Find(view: seq<Cols>, key: set<string>, w: Cols): (i: nat)
    ensures i <= |view|
    ensures forall j | 0 <= j < i :: !SameKey(view[j], w, key)
    ensures i < |view| ==> SameKey(view[i], w, key)
  {
    if view == [] then 0
    else if SameKey(view[0], w, key) then 0
    else 1 + Find(view[1..], key, w)
  }

  function Put(view: seq<Cols>, oc: OnConflict, w: Cols): seq<Cols> {
    var i := Find(view, oc.key, w);
    if i < |view| then view[i := view[i] + Project(w, oc.update)] else view + [w]
  }

  function PutAll(view: seq<Cols>, oc: OnConflict, batch: seq<Cols>): seq<Cols>
    decreases |batch|
  {
    if batch == [] then view else PutAll(Put(view, oc, batch[0]), oc, batch[1..])
  }

  // ---------------------------------------------------------------- well-formed batches

  predicate Keyed(view: seq<Cols>, key: set<string>) {
    forall i, j | 0 <= i < j < |view| :: !SameKey(view[i], view[j], key)
  }

  predicate Uniform(view: seq<Cols>, cols: set<string>) {
    forall i | 0 <= i < |view| :: view[i].Keys == cols
  }

  /** The key and the update list are columns of the batch; the list may repeat key columns. */
  predicate Proper(oc: OnConflict, cols: set<string>) {
    oc.key <= cols && oc.update <= cols
  }

  /** Rows with one key match the same rows. */
  lemma SameMatches(a: Cols, b: Cols, w: Cols, key: set<string>)
    requires SameKey(a, b, key)
    ensures SameKey(a, w, key) <==> SameKey(b, w, key)
    ensures SameKey(w, a, key) <==> SameKey(w, b, key)
  {
  }

  /** Writing columns that agree on the key columns among them keeps the key. */
  lemma UpdateKeepsKey(v: Cols, oc: OnConflict, w: Cols)
    requires SameKey(v, w, oc.key)
    ensures SameKey(v + Project(w, oc.update), v, oc.key)
  {
  }

  lemma PutKeepsKeys(view: seq<Cols>, oc: OnConflict, w: Cols, cols: set<string>)
    requires Uniform(view, cols) && w.Keys == cols && Proper(oc, cols) && Keyed(view, oc.key)
    ensures Uniform(Put(view, oc, w), cols) && Keyed(Put(view, oc, w), oc.key)
    ensures |view| <= |Put(view, oc, w)|
    ensures forall i | 0 <= i < |view| :: SameKey(Put(view, oc, w)[i], view[i], oc.key)
  {
    hide SameKey, Project;
    var k, next := Find(view, oc.key, w), Put(view, oc, w);
    forall i | 0 <= i < |view| ensures SameKey(next[i], view[i], oc.key) {
      SameKeyAsItself(view[i], oc.key);
      if i == k {
        UpdateKeepsKey(view[k], oc, w);
      }
    }
    if k < |view| {
      assert (view[k] + Project(w, oc.update)).Keys == cols by {
        ProjectKeys(w, oc.update);
      }
      KeyedWithin(view, next, oc.key);
    }
  }

  lemma SameKeyAsItself(v: Cols, key: set<string>)
    ensures SameKey(v, v, key)
  {
  }

  lemma ProjectKeys(v: Cols, cs: set<string>)
    ensures Project(v, cs).Keys == cs
  {
  }

  lemma KeyedWithin(view: seq<Cols>, next: seq<Cols>, key: set<string>)
    requires Keyed(view, key) && |view| == |next|
    requires forall i | 0 <= i < |view| :: SameKey(next[i], view[i], key)
    ensures Keyed(next, key)
  {
    hide SameKey;
    forall i, j | 0 <= i < j < |next| ensures !SameKey(next[i], next[j], key) {
      SameMatches(next[i], view[i], next[j], key);
      SameMatches(next[j], view[j], view[i], key);
    }
  }

  lemma {:induction false} PutAllKeepsKeys(view: seq<Cols>, oc: OnConflict, batch: seq<Cols>, cols: set<string>)
    requires Uniform(view, cols) && Uniform(batch, cols) && Proper(oc, cols) && Keyed(view, oc.key)
    ensures Uniform(PutAll(view, oc, batch), cols) && Keyed(PutAll(view, oc, batch), oc.key)
    ensures |view| <= |PutAll(view, oc, batch)|
    ensures forall i | 0 <= i < |view| :: SameKey(PutAll(view, oc, batch)[i], view[i], oc.key)
    decreases |batch|
  {
    if batch != [] {
      PutKeepsKeys(view, oc, batch[0], cols);
      PutAllKeepsKeys(Put(view, oc, batch[0]), oc, batch[1..], cols);
    }
  }

  lemma PutAt(view: seq<Cols>, oc: OnConflict, w: Cols, i: nat)
    requires Keyed(view, oc.key) && i < |view|
    ensures |view| <= |Put(view, oc, w)|
    ensures Put(view, oc, w)[i] == if SameKey(view[i], w, oc.key) then view[i] + Project(w, oc.update) else view[i]
  {
    var k := Find(view, oc.key, w);
    if k < |view| && k != i && SameKey(view[i], w, oc.key) {
      assert SameKey(view[k], view[i], oc.key);
    }
  }

  lemma OneMatch(view: seq<Cols>, key: set<string>, w: Cols, i: nat, j: nat)
    requires Keyed(view, key) && i < |view| && j < |view|
    requires SameKey(view[i], w, key) && SameKey(view[j], w, key)
    ensures i == j
  {
    assert SameKey(view[i], view[j], key) && SameKey(view[j], view[i], key);
  }

  /** A batch split anywhere is the two parts, one after the other. */
  lemma {:induction false} PutAllSplits(view: seq<Cols>, oc: OnConflict, a: seq<Cols>, b: seq<Cols>)
    ensures PutAll(view, oc, a + b) == PutAll(PutAll(view, oc, a), oc, b)
    decreases |a|
  {
    if a == [] {
      assert a + b == b;
    } else {
      assert (a + b)[0] == a[0] && (a + b)[1..] == a[1..] + b;
      PutAllSplits(Put(view, oc, a[0]), oc, a[1..], b);
    }
  }

  // ---------------------------------------------------------------- what a batch leaves behind

  /** The last row of the batch with the key of `w`. */
  function Last(batch: seq<Cols>, key: set<string>, w: Cols): (r: Option<Cols>)
    ensures r.Some? ==> r.value in batch && SameKey(r.value, w, key)
    ensures r.None? <==> forall x | x in batch :: !SameKey(x, w, key)
  {
    if batch == [] then None
    else
      var later := Last(batch[1..], key, w);
      if later.Some? then later
      else if SameKey(batch[0], w, key) then Some(batch[0]) else None
  }

  /** The first row of the batch with the key of `w`. */
  function First(batch: seq<Cols>, key: set<string>, w: Cols): (r: Option<Cols>)
    ensures r.Some? ==> r.value in batch && SameKey(r.value, w, key)
    ensures r.None? <==> forall x | x in batch :: !SameKey(x, w, key)
  {
    if batch == [] then None
    else if SameKey(batch[0], w, key) then Some(batch[0])
    else First(batch[1..], key, w)
  }

  lemma LastIgnoresData(batch: seq<Cols>, key: set<string>, v: Cols, w: Cols)
    requires SameKey(v, w, key)
    ensures Last(batch, key, v) == Last(batch, key, w)
  {
  }

  function Overwrite(v: Cols, w: Option<Cols>, update: set<string>): Cols {
    if w.Some? then v + Project(w.value, update) else v
  }

  lemma OverwriteTwice(v: Cols, a: Cols, b: Option<Cols>, update: set<string>)
    ensures Overwrite(v + Project(a, update), b, update)
            == if b.Some? then Overwrite(v, b, update) else v + Project(a, update)
  {
  }

  /** A row the table already held keeps its place and takes the last write of its key. */
  lemma {:induction false} OldRowsTakeLastWrite(view: seq<Cols>, oc: OnConflict, batch: seq<Cols>,
                                                cols: set<string>, i: nat)
    requires Uniform(view, cols) && Uniform(batch, cols) && Proper(oc, cols) && Keyed(view, oc.key)
    requires i < |view| <= |PutAll(view, oc, batch)|
    ensures PutAll(view, oc, batch)[i] == Overwrite(view[i], Last(batch, oc.key, view[i]), oc.update)
    decreases |batch|
  {
    if batch != [] {
      var next, rest := Put(view, oc, batch[0]), batch[1..];
      PutKeepsKeys(view, oc, batch[0], cols);
      PutAllKeepsKeys(next, oc, rest, cols);
      OldRowsTakeLastWrite(next, oc, rest, cols, i);
      PutAt(view, oc, batch[0], i);
      LastIgnoresData(rest, oc.key, next[i], view[i]);
      OverwriteTwice(view[i], batch[0], Last(rest, oc.key, view[i]), oc.update);
      assert SameKey(view[i], batch[0], oc.key) <==> SameKey(batch[0], view[i], oc.key);
    }
  }

  lemma PutFinds(view: seq<Cols>, oc: OnConflict, w: Cols, cols: set<string>) returns (i: nat)
    requires Uniform(view, cols) && w.Keys == cols && Proper(oc, cols) && Keyed(view, oc.key)
    ensures i < |Put(view, oc, w)| && SameKey(Put(view, oc, w)[i], w, oc.key)
    ensures Project(Put(view, oc, w)[i], oc.update) == Project(w, oc.update)
  {
    i := Find(view, oc.key, w);
  }

  /** Every key of the batch is in the table afterwards, with the updated columns of its last write. */
  lemma {:induction false} BatchKeysArePresent(view: seq<Cols>, oc: OnConflict, batch: seq<Cols>,
                                               cols: set<string>, w: Cols)
    returns (i: nat)
    requires Uniform(view, cols) && Uniform(batch, cols) && Proper(oc, cols) && Keyed(view, oc.key)
    requires w in batch
    ensures i < |PutAll(view, oc, batch)| && SameKey(PutAll(view, oc, batch)[i], w, oc.key)
    ensures Last(batch, oc.key, w).Some?
    ensures Project(PutAll(view, oc, batch)[i], oc.update) == Project(Last(batch, oc.key, w).value, oc.update)
    decreases |batch|
  {
    var next, rest := Put(view, oc, batch[0]), batch[1..];
    PutKeepsKeys(view, oc, batch[0], cols);
    var later := Last(rest, oc.key, w);
    if later.Some? {
      i := BatchKeysArePresent(next, oc, rest, cols, later.value);
      LastIgnoresData(rest, oc.key, later.value, w);
    } else {
      assert SameKey(w, w, oc.key);
      assert w == batch[0];
      i := PutFinds(view, oc, batch[0], cols);
      UnwrittenRowStays(next, oc, rest, cols, i, w);
    }
  }

  /** A row that a batch appends carries a key that was not in the table. */
  lemma {:induction false} AppendedRowIsUnknown(view: seq<Cols>, oc: OnConflict, batch: seq<Cols>,
                                                cols: set<string>, j: nat)
    returns (w: Cols)
    requires Uniform(view, cols) && Uniform(batch, cols) && Proper(oc, cols) && Keyed(view, oc.key)
    requires |view| <= j < |PutAll(view, oc, batch)|
    ensures w in batch && SameKey(PutAll(view, oc, batch)[j], w, oc.key) && Find(view, oc.key, w) == |view|
    decreases |batch|
  {
    hide SameKey, Project;
    var next, rest := Put(view, oc, batch[0]), batch[1..];
    PutKeepsKeys(view, oc, batch[0], cols);
    PutAllKeepsKeys(next, oc, rest, cols);
    if j < |next| {
      w := batch[0];
    } else {
      w := AppendedRowIsUnknown(next, oc, rest, cols, j);
      forall i | 0 <= i < |view| ensures !SameKey(view[i], w, oc.key) {
        SameMatches(next[i], view[i], w, oc.key);
      }
    }
  }

  /** And every such key of the batch gets a row. */
  lemma UnknownKeyIsAppended(view: seq<Cols>, oc: OnConflict, batch: seq<Cols>, cols: set<string>, w: Cols)
    returns (j: nat)
    requires Uniform(view, cols) && Uniform(batch, cols) && Proper(oc, cols) && Keyed(view, oc.key)
    requires w in batch && Find(view, oc.key, w) == |view|
    ensures |view| <= j < |PutAll(view, oc, batch)| && SameKey(PutAll(view, oc, batch)[j], w, oc.key)
  {
    hide SameKey, Project;
    PutAllKeepsKeys(view, oc, batch, cols);
    forall i | 0 <= i < |view| ensures !SameKey(PutAll(view, oc, batch)[i], w, oc.key) {
      SameMatches(PutAll(view, oc, batch)[i], view[i], w, oc.key);
    }
    j := BatchKeysArePresent(view, oc, batch, cols, w);
  }

  lemma UnwrittenRowStays(view: seq<Cols>, oc: OnConflict, batch: seq<Cols>, cols: set<string>, i: nat, w: Cols)
    requires Uniform(view, cols) && Uniform(batch, cols) && Proper(oc, cols) && Keyed(view, oc.key)
    requires i < |view| && SameKey(view[i], w, oc.key) && Last(batch, oc.key, w).None?
    ensures i < |PutAll(view, oc, batch)| && PutAll(view, oc, batch)[i] == view[i]
  {
    PutAllKeepsKeys(view, oc, batch, cols);
    OldRowsTakeLastWrite(view, oc, batch, cols, i);
    LastIgnoresData(batch, oc.key, view[i], w);
  }

  lemma {:induction false} KnownKeysAddNoRows(view: seq<Cols>, oc: OnConflict, batch: seq<Cols>, cols: set<string>)
    requires Uniform(view, cols) && Uniform(batch, cols) && Proper(oc, cols) && Keyed(view, oc.key)
    requires forall w | w in batch :: Find(view, oc.key, w) < |view|
    ensures |PutAll(view, oc, batch)| == |view|
    decreases |batch|
  {
    if batch != [] {
      var next := Put(view, oc, batch[0]);
      PutKeepsKeys(view, oc, batch[0], cols);
      forall w | w in batch[1..] ensures Find(next, oc.key, w) < |next| {
        var i := Find(view, oc.key, w);
        assert SameKey(next[i], w, oc.key);
      }
      KnownKeysAddNoRows(next, oc, batch[1..], cols);
    }
  }

  /** Re-running a batch changes nothing, repeated keys and any update list included. */
  lemma Idempotent(view: seq<Cols>, oc: OnConflict, batch: seq<Cols>, cols: set<string>)
    requires Uniform(view, cols) && Uniform(batch, cols) && Proper(oc, cols) && Keyed(view, oc.key)
    ensures PutAll(PutAll(view, oc, batch), oc, batch) == PutAll(view, oc, batch)
  {
    var once := PutAll(view, oc, batch);
    PutAllKeepsKeys(view, oc, batch, cols);
    forall w | w in batch ensures Find(once, oc.key, w) < |once| {
      var i := BatchKeysArePresent(view, oc, batch, cols, w);
    }
    KnownKeysAddNoRows(once, oc, batch, cols);
    forall i | 0 <= i < |once| ensures PutAll(once, oc, batch)[i] == once[i] {
      OldRowsTakeLastWrite(once, oc, batch, cols, i);
      var last := Last(batch, oc.key, once[i]);
      if last.Some? {
        var j := BatchKeysArePresent(view, oc, batch, cols, last.value);
        LastIgnoresData(batch, oc.key, last.value, once[i]);
        assert SameKey(once[j], once[i], oc.key) && SameKey(once[i], once[j], oc.key);
        assert j == i;
        Reassign(once[i], last.value, oc.update);
      }
    }
  }

  lemma Reassign(v: Cols, w: Cols, update: set<string>)
    requires update <= v.Keys && Project(v, update) == Project(w, update)
    ensures v + Project(w, update) == v
  {
    forall c | c in update ensures Project(w, update)[c] == v[c] {
      assert Project(v, update)[c] == v[c];
    }
  }

  /** A run cut off after any prefix and then repeated in full ends where one clean run ends. */
  lemma CrashAndRerun(view: seq<Cols>, oc: OnConflict, batch: seq<Cols>, cols: set<string>, done: nat)
    requires Uniform(view, cols) && Uniform(batch, cols) && Proper(oc, cols) && Keyed(view, oc.key)
    requires done <= |batch|
    ensures PutAll(PutAll(view, oc, batch[..done]), oc, batch) == PutAll(view, oc, batch)
  {
    var head, tail := batch[..done], batch[done..];
    assert batch == head + tail;
    PutAllSplits(PutAll(view, oc, head), oc, head, tail);
    Idempotent(view, oc, head, cols);
    PutAllSplits(view, oc, head, tail);
  }
}
