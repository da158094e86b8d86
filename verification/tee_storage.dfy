/**
 `TeeStorage` of services/storage.py: every write goes to the primary backend and then to the
 secondary, whose failures are swallowed; reads come from the primary.
 */
module TeeStorage {
  import opened Common
  import opened KeyedTable
  import TableStorage

  // ---------------------------------------------------------------- one key of a table

  function Lookup(view: seq<Cols>, key: set<string>, w: Cols): Option<Cols> {
    var i := Find(view, key, w);
    if i < |view| then Some(view[i]) else None
  }

  lemma LookupAt(view: seq<Cols>, key: set<string>, w: Cols, i: nat)
    requires Keyed(view, key) && i < |view| && SameKey(view[i], w, key)
    ensures Lookup(view, key, w) == Some(view[i])
  {
    OneMatch(view, key, w, Find(view, key, w), i);
  }

  /** A statement for another key leaves this one alone. */
  lemma OtherKeyIsKept(view: seq<Cols>, oc: OnConflict, x: Cols, cols: set<string>, w: Cols)
    requires Uniform(view, cols) && x.Keys == cols && Proper(oc, cols) && Keyed(view, oc.key)
    requires !SameKey(x, w, oc.key)
    ensures Lookup(Put(view, oc, x), oc.key, w) == Lookup(view, oc.key, w)
  {
    var next := Put(view, oc, x);
    PutKeepsKeys(view, oc, x, cols);
    var i := Find(view, oc.key, w);
    if i < |view| {
      assert !SameKey(w, x, oc.key);
      SameMatches(view[i], w, x, oc.key);
      PutAt(view, oc, x, i);
      LookupAt(next, oc.key, w, i);
    } else {
      forall j | 0 <= j < |next| ensures !SameKey(next[j], w, oc.key) {
        if j < |view| {
          SameMatches(next[j], view[j], w, oc.key);
        }
      }
    }
  }

  lemma {:induction false} UnwrittenKey(view: seq<Cols>, oc: OnConflict, batch: seq<Cols>, cols: set<string>, w: Cols)
    requires Uniform(view, cols) && Uniform(batch, cols) && Proper(oc, cols) && Keyed(view, oc.key)
    requires Last(batch, oc.key, w).None?
    ensures Lookup(PutAll(view, oc, batch), oc.key, w) == Lookup(view, oc.key, w)
    decreases |batch|
  {
    if batch != [] {
      PutKeepsKeys(view, oc, batch[0], cols);
      OtherKeyIsKept(view, oc, batch[0], cols, w);
      UnwrittenKey(Put(view, oc, batch[0]), oc, batch[1..], cols, w);
    }
  }

  predicate Overwrites(oc: OnConflict, cols: set<string>) {
    oc.key <= cols && oc.update == cols - oc.key
  }

  predicate FirstWins(oc: OnConflict, cols: set<string>) {
    oc.key <= cols && oc.update == {}
  }

  /** Overwriting: a key holds its last write. */
  lemma LastWriteIsHeld(view: seq<Cols>, oc: OnConflict, batch: seq<Cols>, cols: set<string>, w: Cols)
    requires Uniform(view, cols) && Uniform(batch, cols) && Overwrites(oc, cols) && Keyed(view, oc.key)
    requires Last(batch, oc.key, w).Some?
    ensures Lookup(PutAll(view, oc, batch), oc.key, w) == Last(batch, oc.key, w)
  {
    var last := Last(batch, oc.key, w).value;
    LastIgnoresData(batch, oc.key, last, w);
    PutAllKeepsKeys(view, oc, batch, cols);
    var i := BatchKeysArePresent(view, oc, batch, cols, last);
    var held := PutAll(view, oc, batch)[i];
    LookupAt(PutAll(view, oc, batch), oc.key, w, i);
    forall c | c in cols ensures held[c] == last[c] {
      if c in oc.key {
        assert Get(held, c) == Get(last, c);
      } else {
        assert Project(held, oc.update)[c] == Project(last, oc.update)[c];
      }
    }
    assert last.Keys == cols && held.Keys == cols;
    assert held == last;
  }

  lemma FirstWriteStep(view: seq<Cols>, oc: OnConflict, x: Cols, cols: set<string>, w: Cols)
    requires Uniform(view, cols) && x.Keys == cols && FirstWins(oc, cols) && Keyed(view, oc.key)
    ensures Lookup(Put(view, oc, x), oc.key, w)
            == if Lookup(view, oc.key, w).None? && SameKey(x, w, oc.key) then Some(x) else Lookup(view, oc.key, w)
  {
    var i := Find(view, oc.key, w);
    PutKeepsKeys(view, oc, x, cols);
    if i < |view| {
      PutAt(view, oc, x, i);
      assert view[i] + Project(x, {}) == view[i];
      LookupAt(Put(view, oc, x), oc.key, w, i);
    } else if SameKey(x, w, oc.key) {
      NewKeyIsAppended(view, oc, x, w);
      LookupAt(Put(view, oc, x), oc.key, w, |view|);
    } else {
      OtherKeyIsKept(view, oc, x, cols, w);
    }
  }

  /** DO NOTHING: a key holds what it held, or else its first write. */
  lemma {:induction false} FirstWriteIsHeld(view: seq<Cols>, oc: OnConflict, batch: seq<Cols>, cols: set<string>,
        w: Cols)
    requires Uniform(view, cols) && Uniform(batch, cols) && FirstWins(oc, cols) && Keyed(view, oc.key)
    ensures var was := Lookup(view, oc.key, w);
            Lookup(PutAll(view, oc, batch), oc.key, w) == if was.Some? then was else First(batch, oc.key, w)
    decreases |batch|
  {
    hide Put, Lookup, Keyed, SameKey, Project;
    if batch != [] {
      PutKeepsKeys(view, oc, batch[0], cols);
      FirstWriteStep(view, oc, batch[0], cols, w);
      FirstWriteIsHeld(Put(view, oc, batch[0]), oc, batch[1..], cols, w);
    }
  }

  lemma NewKeyIsAppended(view: seq<Cols>, oc: OnConflict, x: Cols, w: Cols)
    requires SameKey(x, w, oc.key) && Lookup(view, oc.key, w).None?
    ensures Put(view, oc, x) == view + [x]
  {
    var i := Find(view, oc.key, x);
    if i < |view| {
      assert SameKey(view[i], w, oc.key);
    }
  }

  // ---------------------------------------------------------------- runs

  /** One tee'd batch and what became of it on each side. */
  datatype Op = Op(batch: seq<Cols>, primaryOk: bool, secondaryOk: bool)

  /** A side took the batch.  The secondary is only tried once the primary accepted. */
  predicate Took(op: Op, secondary: bool) {
    op.primaryOk && (secondary ==> op.secondaryOk)
  }

  /** The rows a side accepted, in order. */
  function Accepted(ops: seq<Op>, secondary: bool): seq<Cols> {
    if ops == [] then []
    else (if Took(ops[0], secondary) then ops[0].batch else []) + Accepted(ops[1..], secondary)
  }

  function Side(view: seq<Cols>, oc: OnConflict, ops: seq<Op>, secondary: bool): seq<Cols>
    decreases |ops|
  {
    if ops == [] then view
    else
      var next := if Took(ops[0], secondary) then PutAll(view, oc, ops[0].batch) else view;
      Side(next, oc, ops[1..], secondary)
  }

  predicate UniformOps(ops: seq<Op>, cols: set<string>) {
    forall i | 0 <= i < |ops| :: Uniform(ops[i].batch, cols)
  }

  lemma {:induction false} SideIsAccepted(view: seq<Cols>, oc: OnConflict, ops: seq<Op>, secondary: bool)
    ensures Side(view, oc, ops, secondary) == PutAll(view, oc, Accepted(ops, secondary))
    decreases |ops|
  {
    if ops != [] {
      var took := if Took(ops[0], secondary) then ops[0].batch else [];
      SideIsAccepted(PutAll(view, oc, took), oc, ops[1..], secondary);
      PutAllSplits(view, oc, took, Accepted(ops[1..], secondary));
    }
  }

  lemma {:induction false} AcceptedFacts(ops: seq<Op>, cols: set<string>)
    requires UniformOps(ops, cols)
    ensures Uniform(Accepted(ops, true), cols) && Uniform(Accepted(ops, false), cols)
    ensures forall x | x in Accepted(ops, true) :: x in Accepted(ops, false)
  {
    if ops != [] {
      AcceptedFacts(ops[1..], cols);
    }
  }

  lemma {:induction false} AcceptedSplits(a: seq<Op>, b: seq<Op>, secondary: bool)
    ensures Accepted(a + b, secondary) == Accepted(a, secondary) + Accepted(b, secondary)
  {
    if a == [] {
      assert a + b == b;
    } else {
      assert (a + b)[1..] == a[1..] + b;
      AcceptedSplits(a[1..], b, secondary);
    }
  }

  lemma {:induction false} LastSplits(a: seq<Cols>, b: seq<Cols>, key: set<string>, w: Cols)
    ensures Last(a + b, key, w) == if Last(b, key, w).Some? then Last(b, key, w) else Last(a, key, w)
    ensures First(a + b, key, w) == if First(a, key, w).Some? then First(a, key, w) else First(b, key, w)
  {
    if a == [] {
      assert a + b == b;
    } else {
      assert (a + b)[0] == a[0] && (a + b)[1..] == a[1..] + b;
      LastSplits(a[1..], b, key, w);
    }
  }

  /** The batch carries the key of `w`. */
  predicate Carries(op: Op, key: set<string>, w: Cols) {
    exists x | x in op.batch :: SameKey(x, w, key)
  }

  lemma {:induction false} NoneCarries(ops: seq<Op>, key: set<string>, w: Cols, secondary: bool)
    requires forall op | op in ops && op.primaryOk :: !Carries(op, key, w)
    ensures Last(Accepted(ops, secondary), key, w).None? && First(Accepted(ops, secondary), key, w).None?
  {
    if ops != [] {
      NoneCarries(ops[1..], key, w, secondary);
      assert ops[0] in ops;
    }
  }

  /** The secondary never holds a key the primary lacks. */
  lemma SecondaryKeysAreInPrimary(primary: seq<Cols>, secondary: seq<Cols>, oc: OnConflict, ops: seq<Op>,
                                  cols: set<string>, w: Cols)
    requires Uniform(primary, cols) && Uniform(secondary, cols) && UniformOps(ops, cols) && Proper(oc, cols)
    requires Keyed(primary, oc.key) && Keyed(secondary, oc.key)
    requires Lookup(secondary, oc.key, w).Some? ==> Lookup(primary, oc.key, w).Some?
    requires Lookup(Side(secondary, oc, ops, true), oc.key, w).Some?
    ensures Lookup(Side(primary, oc, ops, false), oc.key, w).Some?
  {
    SideIsAccepted(primary, oc, ops, false);
    SideIsAccepted(secondary, oc, ops, true);
    AcceptedFacts(ops, cols);
    var all, some := Accepted(ops, false), Accepted(ops, true);
    PutAllKeepsKeys(primary, oc, all, cols);
    if Last(all, oc.key, w).Some? {
      var i := BatchKeysArePresent(primary, oc, all, cols, Last(all, oc.key, w).value);
      assert SameKey(PutAll(primary, oc, all)[i], w, oc.key);
    } else {
      UnwrittenKey(primary, oc, all, cols, w);
      UnwrittenKey(secondary, oc, some, cols, w);
    }
  }

  // ---------------------------------------------------------------- when the two sides agree

  /** What one side holds for a key: its start row until a write changes it. */
  function HeldLast(view: seq<Cols>, oc: OnConflict, ops: seq<Op>, secondary: bool, w: Cols): Option<Cols> {
    var last := Last(Accepted(ops, secondary), oc.key, w);
    if last.Some? then last else Lookup(view, oc.key, w)
  }

  function HeldFirst(view: seq<Cols>, oc: OnConflict, ops: seq<Op>, secondary: bool, w: Cols): Option<Cols> {
    var was := Lookup(view, oc.key, w);
    if was.Some? then was else First(Accepted(ops, secondary), oc.key, w)
  }

  /** Overwrite tables: a side holds the last row it accepted for a key, or its start row. */
  lemma SideHoldsLast(view: seq<Cols>, oc: OnConflict, cols: set<string>, ops: seq<Op>, secondary: bool, w: Cols)
    requires Uniform(view, cols) && UniformOps(ops, cols) && Overwrites(oc, cols) && Keyed(view, oc.key)
    ensures Lookup(Side(view, oc, ops, secondary), oc.key, w) == HeldLast(view, oc, ops, secondary, w)
  {
    hide Lookup, Keyed, Uniform, Last, Accepted, Side, UniformOps;
    SideIsAccepted(view, oc, ops, secondary);
    AcceptedFacts(ops, cols);
    if Last(Accepted(ops, secondary), oc.key, w).Some? {
      LastWriteIsHeld(view, oc, Accepted(ops, secondary), cols, w);
    } else {
      UnwrittenKey(view, oc, Accepted(ops, secondary), cols, w);
    }
  }

  /** First-wins tables: a side holds its start row, or else the first row it accepted for the key. */
  lemma SideHoldsFirst(view: seq<Cols>, oc: OnConflict, cols: set<string>, ops: seq<Op>, secondary: bool, w: Cols)
    requires Uniform(view, cols) && UniformOps(ops, cols) && FirstWins(oc, cols) && Keyed(view, oc.key)
    ensures Lookup(Side(view, oc, ops, secondary), oc.key, w) == HeldFirst(view, oc, ops, secondary, w)
  {
    SideIsAccepted(view, oc, ops, secondary);
    AcceptedFacts(ops, cols);
    FirstWriteIsHeld(view, oc, Accepted(ops, secondary), cols, w);
  }

  /** The two sides hold the same columns for the key of `w`, or neither holds it. */
  predicate Agree(primary: seq<Cols>, secondary: seq<Cols>, oc: OnConflict, ops: seq<Op>, w: Cols) {
    Lookup(Side(primary, oc, ops, false), oc.key, w) == Lookup(Side(secondary, oc, ops, true), oc.key, w)
  }

  /**
   Overwrite tables: after any run the sides agree on a key exactly when the last rows they
   accepted for it are the same, the start row standing in where a side accepted none.
   */
  lemma OverwriteAgreesExactlyWhen(primary: seq<Cols>, secondary: seq<Cols>, oc: OnConflict, cols: set<string>,
                                   ops: seq<Op>, w: Cols)
    requires Uniform(primary, cols) && Uniform(secondary, cols) && UniformOps(ops, cols)
    requires Overwrites(oc, cols) && Keyed(primary, oc.key) && Keyed(secondary, oc.key)
    ensures Agree(primary, secondary, oc, ops, w)
            <==> HeldLast(primary, oc, ops, false, w) == HeldLast(secondary, oc, ops, true, w)
  {
    SideHoldsLast(primary, oc, cols, ops, false, w);
    SideHoldsLast(secondary, oc, cols, ops, true, w);
  }

  /**
   First-wins tables: after any run the sides agree on a key new to both exactly when the first
   rows they accepted for it are the same.
   */
  lemma FirstWinsAgreesExactlyWhen(primary: seq<Cols>, secondary: seq<Cols>, oc: OnConflict, cols: set<string>,
                                   ops: seq<Op>, w: Cols)
    requires Uniform(primary, cols) && Uniform(secondary, cols) && UniformOps(ops, cols)
    requires FirstWins(oc, cols) && Keyed(primary, oc.key) && Keyed(secondary, oc.key)
    requires Lookup(primary, oc.key, w).None? && Lookup(secondary, oc.key, w).None?
    ensures Agree(primary, secondary, oc, ops, w)
            <==> First(Accepted(ops, false), oc.key, w) == First(Accepted(ops, true), oc.key, w)
  {
    SideHoldsFirst(primary, oc, cols, ops, false, w);
    SideHoldsFirst(secondary, oc, cols, ops, true, w);
  }

  /**
   First-wins tables: once both sides hold a row for a key, no further run changes whether they
   agree on it.  A difference is for ever, and so is an agreement.
   */
  lemma FirstWinsIsForEver(primary: seq<Cols>, secondary: seq<Cols>, oc: OnConflict, cols: set<string>,
                           ops: seq<Op>, later: seq<Op>, w: Cols)
    requires Uniform(primary, cols) && Uniform(secondary, cols) && UniformOps(ops, cols) && UniformOps(later, cols)
    requires FirstWins(oc, cols) && Keyed(primary, oc.key) && Keyed(secondary, oc.key)
    requires Lookup(Side(primary, oc, ops, false), oc.key, w).Some?
    requires Lookup(Side(secondary, oc, ops, true), oc.key, w).Some?
    ensures Agree(primary, secondary, oc, ops + later, w) <==> Agree(primary, secondary, oc, ops, w)
  {
    hide Lookup, Keyed, Uniform, First, Accepted, Side;
    HeldFirstStays(primary, oc, cols, ops, later, false, w);
    HeldFirstStays(secondary, oc, cols, ops, later, true, w);
  }

  lemma HeldFirstStays(view: seq<Cols>, oc: OnConflict, cols: set<string>, ops: seq<Op>, later: seq<Op>,
                       secondary: bool, w: Cols)
    requires Uniform(view, cols) && UniformOps(ops, cols) && UniformOps(later, cols)
    requires FirstWins(oc, cols) && Keyed(view, oc.key)
    requires Lookup(Side(view, oc, ops, secondary), oc.key, w).Some?
    ensures Lookup(Side(view, oc, ops + later, secondary), oc.key, w)
            == Lookup(Side(view, oc, ops, secondary), oc.key, w)
  {
    hide Lookup, Keyed, Uniform, First, Accepted, Side;
    SideHoldsFirst(view, oc, cols, ops, secondary, w);
    SideHoldsFirst(view, oc, cols, ops + later, secondary, w);
    AcceptedSplits(ops, later, secondary);
    LastSplits(Accepted(ops, secondary), Accepted(later, secondary), oc.key, w);
  }

  // ---------------------------------------------------------------- in terms of the batches

  /** The first batch with a key that a side took decides what that side accepted first. */
  lemma FirstTaken(earlier: seq<Op>, op: Op, later: seq<Op>, secondary: bool, key: set<string>, w: Cols)
    requires Took(op, secondary) && Carries(op, key, w)
    requires First(Accepted(earlier, secondary), key, w).None?
    ensures First(Accepted(earlier + [op] + later, secondary), key, w) == First(op.batch, key, w)
  {
    AcceptedSplits(earlier + [op], later, secondary);
    AcceptedSplits(earlier, [op], secondary);
    assert Accepted([op], secondary) == op.batch by {
      assert [op][1..] == [];
    }
    LastSplits(Accepted(earlier, secondary) + op.batch, Accepted(later, secondary), key, w);
    LastSplits(Accepted(earlier, secondary), op.batch, key, w);
  }

  /** The last batch with a key that a side took decides what that side accepted last. */
  lemma LastTaken(earlier: seq<Op>, op: Op, later: seq<Op>, secondary: bool, key: set<string>, w: Cols)
    requires Took(op, secondary) && Carries(op, key, w)
    requires forall o | o in later && o.primaryOk :: !Carries(o, key, w)
    ensures Last(Accepted(earlier + [op] + later, secondary), key, w) == Last(op.batch, key, w)
    ensures Last(op.batch, key, w).Some?
  {
    AcceptedSplits(earlier + [op], later, secondary);
    AcceptedSplits(earlier, [op], secondary);
    assert Accepted([op], secondary) == op.batch by {
      assert [op][1..] == [];
    }
    NoneCarries(later, key, w, secondary);
    LastSplits(Accepted(earlier, secondary) + op.batch, Accepted(later, secondary), key, w);
    LastSplits(Accepted(earlier, secondary), op.batch, key, w);
  }

  /**
   Overwrite tables: once the last batch the primary accepted with a key also succeeded on the
   secondary, both sides hold its row, whatever failed before or came after.
   */
  lemma OverwriteAgreement(primary: seq<Cols>, secondary: seq<Cols>, oc: OnConflict, cols: set<string>, w: Cols,
                           earlier: seq<Op>, op: Op, later: seq<Op>)
    requires Uniform(primary, cols) && Uniform(secondary, cols) && UniformOps(earlier + [op] + later, cols)
    requires Overwrites(oc, cols) && Keyed(primary, oc.key) && Keyed(secondary, oc.key)
    requires op.primaryOk && op.secondaryOk && Carries(op, oc.key, w)
    requires forall o | o in later && o.primaryOk :: !Carries(o, oc.key, w)
    ensures var ops := earlier + [op] + later;
            && Lookup(Side(primary, oc, ops, false), oc.key, w) == Last(op.batch, oc.key, w)
            && Lookup(Side(secondary, oc, ops, true), oc.key, w) == Last(op.batch, oc.key, w)
  {
    SideHoldsLast(primary, oc, cols, earlier + [op] + later, false, w);
    SideHoldsLast(secondary, oc, cols, earlier + [op] + later, true, w);
    LastTaken(earlier, op, later, false, oc.key, w);
    LastTaken(earlier, op, later, true, oc.key, w);
  }

  /**
   First-wins tables: if the first batch the primary accepted with a new key also succeeded on
   the secondary, both sides hold its row for ever.
   */
  lemma FirstWinsAgreement(primary: seq<Cols>, secondary: seq<Cols>, oc: OnConflict, cols: set<string>, w: Cols,
                           earlier: seq<Op>, op: Op, later: seq<Op>)
    requires Uniform(primary, cols) && Uniform(secondary, cols) && UniformOps(earlier + [op] + later, cols)
    requires FirstWins(oc, cols) && Keyed(primary, oc.key) && Keyed(secondary, oc.key)
    requires Lookup(primary, oc.key, w).None? && Lookup(secondary, oc.key, w).None?
    requires op.primaryOk && op.secondaryOk && Carries(op, oc.key, w)
    requires forall o | o in earlier && o.primaryOk :: !Carries(o, oc.key, w)
    ensures var ops := earlier + [op] + later;
            && Lookup(Side(primary, oc, ops, false), oc.key, w) == First(op.batch, oc.key, w)
            && Lookup(Side(secondary, oc, ops, true), oc.key, w) == First(op.batch, oc.key, w)
  {
    SideHoldsFirst(primary, oc, cols, earlier + [op] + later, false, w);
    SideHoldsFirst(secondary, oc, cols, earlier + [op] + later, true, w);
    NoneCarries(earlier, oc.key, w, false);
    NoneCarries(earlier, oc.key, w, true);
    FirstTaken(earlier, op, later, false, oc.key, w);
    FirstTaken(earlier, op, later, true, oc.key, w);
  }

  /**
   First-wins tables: if the secondary missed the first batch with a new key and took a later
   one, then from there on the sides agree exactly when those two batches carry the same row.
   */
  lemma MissedFirstWriteAgreesExactlyWhen(primary: seq<Cols>, secondary: seq<Cols>, oc: OnConflict,
                                          cols: set<string>, w: Cols, earlier: seq<Op>, missed: Op,
                                          between: seq<Op>, taken: Op, later: seq<Op>)
    requires Uniform(primary, cols) && Uniform(secondary, cols)
    requires UniformOps(earlier + [missed] + between + [taken] + later, cols)
    requires FirstWins(oc, cols) && Keyed(primary, oc.key) && Keyed(secondary, oc.key)
    requires Lookup(primary, oc.key, w).None? && Lookup(secondary, oc.key, w).None?
    requires forall o | o in earlier && o.primaryOk :: !Carries(o, oc.key, w)
    requires missed.primaryOk && !missed.secondaryOk && Carries(missed, oc.key, w)
    requires forall o | o in between && o.primaryOk && o.secondaryOk :: !Carries(o, oc.key, w)
    requires taken.primaryOk && taken.secondaryOk && Carries(taken, oc.key, w)
    ensures Agree(primary, secondary, oc, earlier + [missed] + between + [taken] + later, w)
            <==> First(missed.batch, oc.key, w) == First(taken.batch, oc.key, w)
  {
    hide First, Accepted, Carries, Agree, Lookup, Keyed, Uniform;
    FirstWinsAgreesExactlyWhen(primary, secondary, oc, cols, earlier + [missed] + between + [taken] + later, w);
    FirstOnPrimary(earlier, missed, between + [taken] + later, oc.key, w);
    SameOps(earlier + [missed], between, [taken], later);
    NothingTaken(earlier, missed, between, oc.key, w);
    FirstTaken(earlier + [missed] + between, taken, later, true, oc.key, w);
  }

  lemma SameOps(a: seq<Op>, b: seq<Op>, c: seq<Op>, d: seq<Op>)
    ensures a + b + c + d == a + (b + c + d)
  {
  }

  lemma FirstOnPrimary(earlier: seq<Op>, op: Op, later: seq<Op>, key: set<string>, w: Cols)
    requires op.primaryOk && Carries(op, key, w) && forall o | o in earlier && o.primaryOk :: !Carries(o, key, w)
    ensures First(Accepted(earlier + [op] + later, false), key, w) == First(op.batch, key, w)
  {
    hide First, Accepted, Carries;
    NoneCarries(earlier, key, w, false);
    FirstTaken(earlier, op, later, false, key, w);
  }

  lemma NothingTaken(earlier: seq<Op>, missed: Op, between: seq<Op>, key: set<string>, w: Cols)
    requires forall o | o in earlier && o.primaryOk :: !Carries(o, key, w)
    requires !missed.secondaryOk
    requires forall o | o in between && o.primaryOk && o.secondaryOk :: !Carries(o, key, w)
    ensures First(Accepted(earlier + [missed] + between, true), key, w).None?
  {
    hide First, Accepted, Carries;
    NoneTaken(earlier + [missed] + between, key, w);
  }

  lemma {:induction false} NoneTaken(ops: seq<Op>, key: set<string>, w: Cols)
    requires forall op | op in ops && op.primaryOk && op.secondaryOk :: !Carries(op, key, w)
    ensures First(Accepted(ops, true), key, w).None?
  {
    if ops != [] {
      NoneTaken(ops[1..], key, w);
      assert ops[0] in ops;
    }
  }

  // ---------------------------------------------------------------- the news table

  const NEWS_KEY: set<string> := {"url_hash"}

  /** The fields of `CompanyNewsIn`. */
  const NEWS_COLS: set<string> :=
    {"symbol", "headline", "url_hash", "full_url", "source", "summary", "sentiment", "published_at", "scraped_at"}

  /** `update_cols=[]`: the first scrape wins. */
  const NEWS_CLAUSE := TableStorage.Clause(NEWS_COLS, NEWS_KEY, Some({}))

  /**
   It happens with one article scraped twice: every scrape stamps its own `scraped_at`, so when the
   secondary misses the first one the backends never agree on the article again.
   */
  lemma RescrapedNewsDiffers(first: Cols, again: Cols, later: seq<Op>)
    requires first.Keys == again.Keys == NEWS_COLS && UniformOps(later, NEWS_COLS)
    requires Get(first, "url_hash") == Get(again, "url_hash") && Get(first, "scraped_at") != Get(again, "scraped_at")
    ensures !Agree([], [], NEWS_CLAUSE, [Op([first], true, false)] + [Op([again], true, true)] + later, first)
  {
    hide Agree;
    var missed, taken := Op([first], true, false), Op([again], true, true);
    OneArticle(first, first);
    OneArticle(first, again);
    assert [] + [missed] + [] + [taken] + later == [missed] + [taken] + later;
    MissedFirstWriteAgreesExactlyWhen([], [], NEWS_CLAUSE, NEWS_COLS, first, [], missed, [], taken, later);
  }

  lemma OneArticle(w: Cols, v: Cols)
    requires Get(v, "url_hash") == Get(w, "url_hash")
    ensures First([v], NEWS_KEY, w) == Some(v) && Carries(Op([v], true, true), NEWS_KEY, w)
    ensures Carries(Op([v], true, false), NEWS_KEY, w)
  {
    assert SameKey(v, w, NEWS_KEY) && v in [v];
  }

  // ---------------------------------------------------------------- the object

  class Tee {
    const primary: TableStorage.Table
    const secondary: TableStorage.Table

    predicate Valid()
      reads primary, secondary
    {
      primary != secondary && primary.Valid() && secondary.Valid()
    }

    constructor (primary: TableStorage.Table, secondary: TableStorage.Table)
      ensures this.primary == primary && this.secondary == secondary
    {
      this.primary := primary;
      this.secondary := secondary;
    }

    /**
     Returns the primary's answer.  The secondary is tried exactly when the primary took the batch,
     and then takes it exactly when nothing on its own side stands in the way.
     */
    method UpsertBatch(batch: seq<Cols>, conflictCols: set<string>, updateCols: Option<set<string>>,
                       primaryFault: Option<nat>, secondaryFault: Option<nat>)
      returns (r: Result<(nat, nat), TableStorage.Failure>, ghost op: Op)
      requires Valid()
      requires updateCols.Some? && batch != [] ==> updateCols.value <= batch[0].Keys
      modifies primary, secondary
      ensures Valid() && primary.connected == old(primary.connected)
      ensures op == Op(TableStorage.Normalized(batch, ColsOf(batch)), r.Ok?, op.secondaryOk)
      ensures var cols, oc := ColsOf(batch), TableStorage.Clause(ColsOf(batch), conflictCols, updateCols);
              && TableStorage.View(primary.rows, cols)
                 == Side(TableStorage.View(old(primary.rows), cols), oc, [op], false)
              && TableStorage.View(secondary.rows, cols)
                 == Side(TableStorage.View(old(secondary.rows), cols), oc, [op], true)
      ensures r.Err? ==> primary.rows == old(primary.rows) && secondary.rows == old(secondary.rows)
      ensures r == Err(TableStorage.NotConnected) <==> !old(primary.connected)
      ensures r.Ok? ==> r.value == (|batch|, 0)
      ensures batch == [] || primary.unique <= batch[0].Keys ==>
                (r.Ok? <==> old(primary.GoesIn(batch, conflictCols, updateCols, primaryFault)))
      ensures batch == [] || secondary.unique <= batch[0].Keys ==>
                (op.secondaryOk <==> r.Ok? && old(secondary.GoesIn(batch, conflictCols, updateCols, secondaryFault)))
      ensures secondary.unique == {} && batch != [] ==>
                (op.secondaryOk
                 <==> && r.Ok? && old(secondary.connected) && conflictCols == secondary.key <= batch[0].Keys
                      && (secondaryFault.None? || secondaryFault.value > |batch|)
                      && forall i, c | 0 <= i < |batch| && c in conflictCols :: c in batch[i] && batch[i][c] != Null)
    {
      hide Side, PutAll, TableStorage.View, TableStorage.Accepts, TableStorage.Grown;
      r := primary.UpsertBatch(batch, conflictCols, updateCols, primaryFault);
      op := Op(TableStorage.Normalized(batch, ColsOf(batch)), r.Ok?, false);
      if r.Ok? {
        var swallowed := secondary.UpsertBatch(batch, conflictCols, updateCols, secondaryFault);
        op := op.(secondaryOk := swallowed.Ok?);
      }
      SideOfOne(TableStorage.View(old(primary.rows), ColsOf(batch)),
                TableStorage.Clause(ColsOf(batch), conflictCols, updateCols), op, false);
      SideOfOne(TableStorage.View(old(secondary.rows), ColsOf(batch)),
                TableStorage.Clause(ColsOf(batch), conflictCols, updateCols), op, true);
      NothingPut(TableStorage.View(old(primary.rows), ColsOf(batch)),
                 TableStorage.Clause(ColsOf(batch), conflictCols, updateCols));
      NothingPut(TableStorage.View(old(secondary.rows), ColsOf(batch)),
                 TableStorage.Clause(ColsOf(batch), conflictCols, updateCols));
    }
  }

  lemma SideOfOne(view: seq<Cols>, oc: OnConflict, op: Op, secondary: bool)
    ensures Side(view, oc, [op], secondary) == if Took(op, secondary) then PutAll(view, oc, op.batch) else view
  {
    assert [op][1..] == [];
  }

  lemma NothingPut(view: seq<Cols>, oc: OnConflict)
    ensures PutAll(view, oc, []) == view
  {
  }

  function ColsOf(batch: seq<Cols>): set<string> {
    if batch == [] then {} else batch[0].Keys
  }
}
