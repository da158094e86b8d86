/**
 The company master of scrapers/bse.py: `_normalize_master` drops repeated ISINs, then one
 upsert on (symbol, exchange) goes to a table whose ISIN column is UNIQUE as well.
 */
module BseMaster {
  import opened Common
  import opened KeyedTable
  import opened TableStorage

  const MASTER_KEY: set<string> := {"symbol", "exchange"}

  /** The columns a record fills besides its symbol and ISIN. */
  const GIVEN_COLS: set<string> := {"company_name", "sector", "industry", "raw_payload"}

  /** The fields of `StockMasterIn`, all of which `model_dump` writes for every record. */
  const MASTER_COLS: set<string> := MASTER_KEY + {"isin", "is_active", "market_cap_cr", "listing_date"} + GIVEN_COLS

  const MASTER_CLAUSE := Clause(MASTER_COLS, MASTER_KEY, None)

  /**
   One fetched record: the symbol after `normalize_symbol` (None when that rejects it), the ISIN,
   the given columns, and whether `StockMasterIn` accepts all but the ISIN.
   */
  datatype Raw = Raw(symbol: Option<string>, isin: Option<string>, given: Cols, restValid: bool)

  /** The columns a row fixes itself. */
  function OwnCols(r: Raw): Cols
    requires r.symbol.Some?
  {
    map["symbol" := Text(r.symbol.value), "exchange" := Text("BSE"),
        "isin" := if r.isin.Some? then Text(r.isin.value) else Null,
        "is_active" := Int(1), "market_cap_cr" := Null, "listing_date" := Null]
  }

  function MasterRow(r: Raw): Cols
    requires r.symbol.Some?
  {
    Project(r.given, GIVEN_COLS) + OwnCols(r)
  }

  /** What the row of a record must say, column by column. */
  predicate RowSays(v: Cols, r: Raw) {
    && r.symbol.Some?
    && Get(v, "symbol") == Text(r.symbol.value) && Get(v, "exchange") == Text("BSE")
    && Get(v, "isin") == (if r.isin.Some? then Text(r.isin.value) else Null)
    && Get(v, "is_active") == Int(1) && Get(v, "market_cap_cr") == Null && Get(v, "listing_date") == Null
    && Get(v, "company_name") == Get(r.given, "company_name") && Get(v, "sector") == Get(r.given, "sector")
    && Get(v, "industry") == Get(r.given, "industry") && Get(v, "raw_payload") == Get(r.given, "raw_payload")
  }

  // ---------------------------------------------------------------- what the loop keeps

  /**
   A record survives when it has a symbol, its fields are valid (an ISIN has 12 characters), and no
   earlier record with a symbol had its ISIN.
   */
  predicate Kept(raw: seq<Raw>, i: nat)
    requires i < |raw|
  {
    && raw[i].symbol.Some? && raw[i].restValid
    && (raw[i].isin.None? || |raw[i].isin.value| == 12)
    && (raw[i].isin.Some? ==> forall j | 0 <= j < i :: raw[j].symbol.Some? ==> raw[j].isin != raw[i].isin)
  }

  /** The surviving records, in order: all of them and no other. */
  function KeptIndices(raw: seq<Raw>, n: nat): (r: seq<nat>)
    requires n <= |raw|
    ensures forall p | 0 <= p < |r| :: r[p] < n && Kept(raw, r[p])
    ensures forall p, q | 0 <= p < q < |r| :: r[p] < r[q]
    ensures forall i | 0 <= i < n && Kept(raw, i) :: i in r
  {
    if n == 0 then []
    else KeptIndices(raw, n - 1) + if Kept(raw, n - 1) then [n - 1] else []
  }

  function KeptRows(raw: seq<Raw>, n: nat): seq<Cols>
    requires n <= |raw|
  {
    var kept := KeptIndices(raw, n);
    seq(|kept|, p requires 0 <= p < |kept| => MasterRow(raw[kept[p]]))
  }

  /** The ISINs of the first `n` records with a symbol. */
  function SeenIsins(raw: seq<Raw>, n: nat): set<string>
    requires n <= |raw|
  {
    set j | 0 <= j < n && raw[j].symbol.Some? && raw[j].isin.Some? && raw[j].isin.value != "" :: raw[j].isin.value
  }

  lemma SeenDecides(raw: seq<Raw>, n: nat)
    requires n < |raw| && raw[n].symbol.Some? && raw[n].restValid && raw[n].isin.Some? && |raw[n].isin.value| == 12
    ensures Kept(raw, n) <==> raw[n].isin.value !in SeenIsins(raw, n)
  {
    if raw[n].isin.value in SeenIsins(raw, n) {
      var j :| 0 <= j < n && raw[j].symbol.Some? && raw[j].isin.Some? && raw[j].isin.value == raw[n].isin.value;
      assert raw[j].isin == raw[n].isin;
    }
  }

  method NormalizeMaster(raw: seq<Raw>) returns (out: seq<Cols>)
    ensures out == KeptRows(raw, |raw|)
    ensures var kept := KeptIndices(raw, |raw|);
            |out| == |kept| && forall p | 0 <= p < |kept| :: RowSays(out[p], raw[kept[p]])
  {
    hide MasterRow, RowSays;
    out := [];
    var seen: set<string> := {};
    for i := 0 to |raw|
      invariant out == KeptRows(raw, i)
      invariant seen == SeenIsins(raw, i)
    {
      var r := raw[i];
      if r.symbol.None? {
        continue;
      }
      if r.restValid && r.isin.Some? && |r.isin.value| == 12 {
        SeenDecides(raw, i);
      }
      if r.isin.Some? && r.isin.value != "" && r.isin.value in seen {
        continue;
      }
      if r.isin.Some? && r.isin.value != "" {
        seen := seen + {r.isin.value};
      }
      if r.restValid && (r.isin.None? || |r.isin.value| == 12) {
        out := out + [MasterRow(r)];
      }
    }
    forall p | 0 <= p < |out| ensures RowSays(out[p], raw[KeptIndices(raw, |raw|)[p]]) {
      RowColumns(raw[KeptIndices(raw, |raw|)[p]]);
    }
  }

  predicate DistinctIsins(batch: seq<Cols>) {
    forall p, q | 0 <= p < q < |batch| ::
      Get(batch[p], "isin") == Get(batch[q], "isin") ==> Get(batch[p], "isin").Null?
  }

  predicate CleanBatch(batch: seq<Cols>) {
    && Uniform(batch, MASTER_COLS) && DistinctIsins(batch)
    && forall p | 0 <= p < |batch| :: NonNull(batch[p], MASTER_KEY)
  }

  lemma ColumnsAreApart(r: Raw)
    requires r.symbol.Some?
    ensures OwnCols(r).Keys !! GIVEN_COLS && OwnCols(r).Keys + GIVEN_COLS == MASTER_COLS
  {
  }

  lemma GivenColumns(r: Raw, c: string)
    requires r.symbol.Some? && c in GIVEN_COLS
    ensures Get(MasterRow(r), c) == Get(r.given, c)
  {
    ColumnsAreApart(r);
  }

  lemma OwnColumns(r: Raw, c: string)
    requires r.symbol.Some? && c in OwnCols(r)
    ensures Get(MasterRow(r), c) == OwnCols(r)[c]
  {
  }

  /** A row has every column, and each says what it must. */
  lemma RowColumns(r: Raw)
    requires r.symbol.Some?
    ensures MasterRow(r).Keys == MASTER_COLS && NonNull(MasterRow(r), MASTER_KEY)
    ensures RowSays(MasterRow(r), r)
  {
    hide Get, Project;
    ColumnsAreApart(r);
    ProjectKeys(r.given, GIVEN_COLS);
    GivenColumns(r, "company_name");
    GivenColumns(r, "sector");
    GivenColumns(r, "industry");
    GivenColumns(r, "raw_payload");
    OwnColumns(r, "symbol");
    OwnColumns(r, "exchange");
    OwnColumns(r, "isin");
    OwnColumns(r, "is_active");
    OwnColumns(r, "market_cap_cr");
    OwnColumns(r, "listing_date");
  }

  /** What goes to `save` has every column and a key, and repeats no ISIN. */
  lemma KeptRowsAreClean(raw: seq<Raw>, n: nat)
    requires n <= |raw|
    ensures CleanBatch(KeptRows(raw, n))
  {
    hide MasterRow, Get, NonNull;
    var rows, kept := KeptRows(raw, n), KeptIndices(raw, n);
    forall p | 0 <= p < |rows| ensures rows[p].Keys == MASTER_COLS && NonNull(rows[p], MASTER_KEY) {
      RowColumns(raw[kept[p]]);
    }
    forall p, q | 0 <= p < q < |rows|
      ensures Get(rows[p], "isin") == Get(rows[q], "isin") ==> Get(rows[p], "isin").Null?
    {
      RowColumns(raw[kept[p]]);
      RowColumns(raw[kept[q]]);
      assert Kept(raw, kept[q]) && raw[kept[p]].symbol.Some?;
    }
  }

  // ---------------------------------------------------------------- when the batch goes in

  /**
   The ISIN of batch row `p` is free for it: wherever the table already holds that ISIN, the row
   is its own, or an earlier row of the batch rewrites that row (with another ISIN, or none).
   */
  predicate IsinFree(view: seq<Cols>, batch: seq<Cols>, p: nat)
    requires p < |batch|
  {
    var isin := Get(batch[p], "isin");
    !isin.Null? ==>
      forall i | 0 <= i < |view| && Get(view[i], "isin") == isin ::
        SameKey(view[i], batch[p], MASTER_KEY) || exists q | 0 <= q < p :: SameKey(view[i], batch[q], MASTER_KEY)
  }

  predicate StoredMaster(view: seq<Cols>) {
    Uniform(view, MASTER_COLS) && Keyed(view, MASTER_KEY) && Distinct(view, {"isin"})
  }

  lemma ClauseFacts()
    ensures Proper(MASTER_CLAUSE, MASTER_COLS) && "isin" in MASTER_CLAUSE.update && "isin" !in MASTER_KEY
    ensures MASTER_CLAUSE.key == MASTER_KEY
  {
    assert "isin" in MASTER_COLS && "isin" !in MASTER_KEY && "isin" != "id";
  }

  /** Every column but the key is overwritten. */
  lemma UpdatedColumns()
    ensures MASTER_CLAUSE.update ==
            {"isin", "is_active", "market_cap_cr", "listing_date", "company_name", "sector", "industry", "raw_payload"}
  {
    assert "id" !in MASTER_COLS;
  }

  /** The ISIN column after one statement. */
  lemma IsinAfterPut(view: seq<Cols>, w: Cols, i: nat)
    requires StoredMaster(view) && w.Keys == MASTER_COLS && i < |Put(view, MASTER_CLAUSE, w)|
    ensures Get(Put(view, MASTER_CLAUSE, w)[i], "isin")
            == if i < |view| && !SameKey(view[i], w, MASTER_KEY) then Get(view[i], "isin") else Get(w, "isin")
  {
    ClauseFacts();
    if i < |view| {
      PutAt(view, MASTER_CLAUSE, w, i);
    }
  }

  /** One statement keeps the ISINs unique exactly when no row with another key holds its ISIN. */
  lemma StatementFits(view: seq<Cols>, w: Cols)
    requires StoredMaster(view) && w.Keys == MASTER_COLS
    ensures Distinct(Put(view, MASTER_CLAUSE, w), {"isin"}) <==> IsinFree(view, [w], 0)
  {
    ClauseFacts();
    var next := Put(view, MASTER_CLAUSE, w);
    var k := Find(view, MASTER_KEY, w);
    PutKeepsKeys(view, MASTER_CLAUSE, w, MASTER_COLS);
    assert k < |next|;
    forall i | 0 <= i < |next|
      ensures Get(next[i], "isin")
              == if i < |view| && !SameKey(view[i], w, MASTER_KEY) then Get(view[i], "isin") else Get(w, "isin")
      ensures i < |view| && SameKey(view[i], w, MASTER_KEY) ==> i == k
    {
      IsinAfterPut(view, w, i);
      if i < |view| && SameKey(view[i], w, MASTER_KEY) {
        OneMatch(view, MASTER_KEY, w, k, i);
      }
    }
    if Distinct(next, {"isin"}) {
      var isin := Get(w, "isin");
      forall i | 0 <= i < |view| && Get(view[i], "isin") == isin && !isin.Null?
        ensures SameKey(view[i], w, MASTER_KEY)
      {
        OneHolder(next, isin, i, k);
      }
    }
  }

  lemma OneHolder(view: seq<Cols>, isin: Value, i: nat, j: nat)
    requires Distinct(view, {"isin"}) && !isin.Null? && i < |view| && j < |view|
    requires Get(view[i], "isin") == isin && Get(view[j], "isin") == isin
    ensures i == j
  {
    var c := "isin";
    assert c in {"isin"};
  }

  /** Freedom of the later rows is not changed by having written the first one. */
  lemma FreeAfterPut(view: seq<Cols>, batch: seq<Cols>, p: nat)
    requires StoredMaster(view) && CleanBatch(batch) && p + 1 < |batch|
    requires StoredMaster(Put(view, MASTER_CLAUSE, batch[0]))
    ensures IsinFree(view, batch, p + 1) <==> IsinFree(Put(view, MASTER_CLAUSE, batch[0]), batch[1..], p)
  {
    ClauseFacts();
    var w, rest := batch[0], batch[1..];
    var next := Put(view, MASTER_CLAUSE, w);
    PutKeepsKeys(view, MASTER_CLAUSE, w, MASTER_COLS);
    var isin := Get(rest[p], "isin");
    if !isin.Null? {
      assert Get(w, "isin") != isin;
      forall i | 0 <= i < |next| ensures Get(next[i], "isin") == isin
                                         <==> i < |view| && !SameKey(view[i], w, MASTER_KEY)
                                              && Get(view[i], "isin") == isin {
        IsinAfterPut(view, w, i);
      }
      forall i | 0 <= i < |view| && !SameKey(view[i], w, MASTER_KEY)
        ensures next[i] == view[i]
        ensures (exists q | 0 <= q < p + 1 :: SameKey(view[i], batch[q], MASTER_KEY))
                <==> (exists q | 0 <= q < p :: SameKey(next[i], rest[q], MASTER_KEY))
      {
        PutAt(view, MASTER_CLAUSE, w, i);
        ShiftedMatch(view[i], batch, p);
      }
    }
  }

  lemma ShiftedMatch(v: Cols, batch: seq<Cols>, p: nat)
    requires p < |batch| && !SameKey(v, batch[0], MASTER_KEY)
    ensures (exists q | 0 <= q < p + 1 :: SameKey(v, batch[q], MASTER_KEY))
            <==> (exists q | 0 <= q < p :: SameKey(v, batch[1..][q], MASTER_KEY))
  {
    if q :| 0 <= q < p + 1 && SameKey(v, batch[q], MASTER_KEY) {
      assert batch[1..][q - 1] == batch[q];
    }
    if q :| 0 <= q < p && SameKey(v, batch[1..][q], MASTER_KEY) {
      assert batch[1..][q] == batch[q + 1];
    }
  }

  /**
   A master batch goes in exactly when every ISIN in it is free at its turn, which a caller can
   read off the table and the batch beforehand.  Repeated symbols in the batch do not matter.
   */
  lemma {:induction false} GoesInExactlyWhen(view: seq<Cols>, batch: seq<Cols>)
    requires StoredMaster(view) && CleanBatch(batch)
    ensures Accepts(view, MASTER_CLAUSE, {"isin"}, batch) <==> forall p | 0 <= p < |batch| :: IsinFree(view, batch, p)
    decreases |batch|
  {
    if batch != [] {
      ClauseFacts();
      StatementFits(view, batch[0]);
      assert IsinFree(view, [batch[0]], 0) <==> IsinFree(view, batch, 0);
      var next := Put(view, MASTER_CLAUSE, batch[0]);
      if Distinct(next, {"isin"}) {
        PutKeepsKeys(view, MASTER_CLAUSE, batch[0], MASTER_COLS);
        GoesInExactlyWhen(next, batch[1..]);
        forall p | 0 <= p < |batch| - 1
          ensures IsinFree(view, batch, p + 1) <==> IsinFree(next, batch[1..], p)
        {
          FreeAfterPut(view, batch, p);
        }
        FromShifted(view, next, batch);
      }
    }
  }

  lemma FromShifted(view: seq<Cols>, next: seq<Cols>, batch: seq<Cols>)
    requires batch != []
    requires forall p | 0 <= p < |batch| - 1 :: IsinFree(view, batch, p + 1) <==> IsinFree(next, batch[1..], p)
    ensures (forall p | 0 <= p < |batch| :: IsinFree(view, batch, p))
            <==> IsinFree(view, batch, 0) && forall p | 0 <= p < |batch| - 1 :: IsinFree(next, batch[1..], p)
  {
    if IsinFree(view, batch, 0) && forall p | 0 <= p < |batch| - 1 :: IsinFree(next, batch[1..], p) {
      forall p | 0 <= p < |batch| ensures IsinFree(view, batch, p) {
        if p > 0 {
          assert IsinFree(next, batch[1..], p - 1);
        }
      }
    }
    if forall p | 0 <= p < |batch| :: IsinFree(view, batch, p) {
      forall p | 0 <= p < |batch| - 1 ensures IsinFree(next, batch[1..], p) {
        assert IsinFree(view, batch, p + 1);
      }
    }
  }

  /** The simple case: every ISIN the table already holds is held by the row with the same key. */
  lemma OwnIsinsGoIn(view: seq<Cols>, batch: seq<Cols>)
    requires StoredMaster(view) && CleanBatch(batch)
    requires forall p, i | 0 <= p < |batch| && 0 <= i < |view| && Get(view[i], "isin") == Get(batch[p], "isin") ::
               Get(batch[p], "isin").Null? || SameKey(view[i], batch[p], MASTER_KEY)
    ensures Accepts(view, MASTER_CLAUSE, {"isin"}, batch)
  {
    GoesInExactlyWhen(view, batch);
  }

  lemma StoredView(rows: seq<Row>, last: int)
    requires Sound(rows, last, MASTER_KEY, {"isin"})
    ensures StoredMaster(View(rows, MASTER_COLS))
  {
    DistinctInView(rows, {"isin"}, MASTER_COLS);
    KeyedInView(rows, MASTER_KEY, MASTER_COLS);
  }

  // ---------------------------------------------------------------- what a save leaves

  lemma {:induction false} LastOfBatch(batch: seq<Cols>, key: set<string>, w: Cols) returns (p: nat)
    requires Last(batch, key, w).Some?
    ensures p < |batch| && batch[p] == Last(batch, key, w).value
    ensures forall q | p < q < |batch| :: !SameKey(batch[q], w, key)
  {
    hide SameKey;
    if Last(batch[1..], key, w).Some? {
      var q := LastOfBatch(batch[1..], key, w);
      p := q + 1;
      assert forall i | p < i < |batch| :: batch[i] == batch[1..][i - 1];
    } else {
      p := 0;
      assert forall i | 0 < i < |batch| :: batch[i] == batch[1..][i - 1] && batch[i] in batch[1..];
    }
  }

  lemma KeyBySymbol(v: Cols, w: Cols, r: Raw, s: Raw)
    requires RowSays(v, r) && RowSays(w, s)
    ensures SameKey(v, w, MASTER_KEY) <==> r.symbol == s.symbol
  {
    hide Get;
    assert "symbol" in MASTER_KEY;
    assert forall c | c in MASTER_KEY :: c == "symbol" || c == "exchange";
  }

  lemma SaysAlike(v: Cols, w: Cols, r: Raw)
    requires RowSays(w, r) && v.Keys == MASTER_COLS && w.Keys == MASTER_COLS
    requires SameKey(v, w, MASTER_KEY) && Project(v, MASTER_CLAUSE.update) == Project(w, MASTER_CLAUSE.update)
    ensures RowSays(v, r)
  {
    hide RowSays;
    ClauseMeaning(MASTER_COLS, MASTER_KEY, None);
    assert "id" !in MASTER_COLS;
    forall c | c in MASTER_COLS ensures v[c] == w[c] {
      if c in MASTER_KEY {
        assert Get(v, c) == Get(w, c);
      } else {
        assert Project(v, MASTER_CLAUSE.update)[c] == Project(w, MASTER_CLAUSE.update)[c];
      }
    }
    assert v == w;
  }

  /** The last kept record with the symbol of record `i`. */
  ghost predicate LastWithSymbol(raw: seq<Raw>, i: nat, l: nat)
    requires i < |raw|
  {
    && l < |raw| && Kept(raw, l) && raw[l].symbol == raw[i].symbol
    && forall m | l < m < |raw| && Kept(raw, m) :: raw[m].symbol != raw[i].symbol
  }

  /** In the batch, the last row with a kept record's key is that of the last kept record with its symbol. */
  lemma LastKept(raw: seq<Raw>, i: nat) returns (a: nat, l: nat)
    requires i < |raw| && Kept(raw, i)
    ensures l < |raw| && LastWithSymbol(raw, i, l)
    ensures a < |KeptRows(raw, |raw|)|
    ensures var batch := KeptRows(raw, |raw|);
            var last := Last(batch, MASTER_KEY, batch[a]);
            last.Some? && RowSays(last.value, raw[l]) && SameKey(last.value, batch[a], MASTER_KEY)
            && last.value in batch
  {
    hide RowSays, MasterRow, SameKey, Kept, Last;
    var batch, kept := KeptRows(raw, |raw|), KeptIndices(raw, |raw|);
    a :| 0 <= a < |kept| && kept[a] == i;
    assert batch[a] in batch;
    SameKeyAsItself(batch[a], MASTER_KEY);
    var b := LastOfBatch(batch, MASTER_KEY, batch[a]);
    l := kept[b];
    KeptSays(raw);
    KeyBySymbol(batch[b], batch[a], raw[l], raw[i]);
    NoneAfter(raw, a, b);
  }

  lemma NoneAfter(raw: seq<Raw>, a: nat, b: nat)
    requires a < |KeptIndices(raw, |raw|)| && b < |KeptIndices(raw, |raw|)|
    requires forall q | b < q < |KeptIndices(raw, |raw|)| ::
               !SameKey(KeptRows(raw, |raw|)[q], KeptRows(raw, |raw|)[a], MASTER_KEY)
    ensures forall m | KeptIndices(raw, |raw|)[b] < m < |raw| && Kept(raw, m) ::
              raw[m].symbol != raw[KeptIndices(raw, |raw|)[a]].symbol
  {
    hide RowSays, MasterRow, SameKey, Kept, KeptRows;
    var batch, kept := KeptRows(raw, |raw|), KeptIndices(raw, |raw|);
    KeptSays(raw);
    forall m | kept[b] < m < |raw| && Kept(raw, m) ensures raw[m].symbol != raw[kept[a]].symbol {
      var c := LaterPosition(raw, b, m);
      KeyBySymbol(batch[c], batch[a], raw[m], raw[kept[a]]);
    }
  }

  lemma LaterPosition(raw: seq<Raw>, b: nat, m: nat) returns (c: nat)
    requires b < |KeptIndices(raw, |raw|)| && KeptIndices(raw, |raw|)[b] < m < |raw| && Kept(raw, m)
    ensures b < c < |KeptIndices(raw, |raw|)| && KeptIndices(raw, |raw|)[c] == m
  {
    hide Kept;
    var kept := KeptIndices(raw, |raw|);
    c :| 0 <= c < |kept| && kept[c] == m;
  }

  /** After the batch, a kept record's symbol has a row that says what its last kept record says. */
  lemma KeptRecordIsHeld(view: seq<Cols>, raw: seq<Raw>, i: nat) returns (p: nat, l: nat)
    requires StoredMaster(view) && i < |raw| && Kept(raw, i)
    ensures LastWithSymbol(raw, i, l)
    ensures p < |PutAll(view, MASTER_CLAUSE, KeptRows(raw, |raw|))|
    ensures RowSays(PutAll(view, MASTER_CLAUSE, KeptRows(raw, |raw|))[p], raw[l])
  {
    hide RowSays, SameKey, Project, Kept, Last, PutAll, KeptRows, LastWithSymbol, Keyed;
    var batch := KeptRows(raw, |raw|);
    KeptRowsAreClean(raw, |raw|);
    ClauseFacts();
    var a;
    a, l := LastKept(raw, i);
    p := BatchKeysArePresent(view, MASTER_CLAUSE, batch, MASTER_COLS, batch[a]);
    var last, held := Last(batch, MASTER_KEY, batch[a]).value, PutAll(view, MASTER_CLAUSE, batch)[p];
    PutAllKeepsKeys(view, MASTER_CLAUSE, batch, MASTER_COLS);
    SameThrough(held, batch[a], last);
    SaysAlike(held, last, raw[l]);
  }

  lemma SameThrough(v: Cols, w: Cols, x: Cols)
    requires SameKey(v, w, MASTER_KEY) && SameKey(x, w, MASTER_KEY)
    ensures SameKey(v, x, MASTER_KEY)
  {
  }

  lemma KeptSays(raw: seq<Raw>)
    ensures |KeptRows(raw, |raw|)| == |KeptIndices(raw, |raw|)|
    ensures forall p | 0 <= p < |KeptIndices(raw, |raw|)| ::
              RowSays(KeptRows(raw, |raw|)[p], raw[KeptIndices(raw, |raw|)[p]])
  {
    hide RowSays, MasterRow;
    var kept := KeptIndices(raw, |raw|);
    forall p | 0 <= p < |kept| ensures RowSays(KeptRows(raw, |raw|)[p], raw[kept[p]]) {
      RowColumns(raw[kept[p]]);
    }
  }

  lemma SaysInView(rows: seq<Row>, p: nat, r: Raw)
    requires p < |rows| && RowSays(View(rows, MASTER_COLS)[p], r)
    ensures RowSays(rows[p].vals, r)
  {
    forall c | c in MASTER_COLS ensures Get(View(rows, MASTER_COLS)[p], c) == Get(rows[p].vals, c) {
    }
    ColumnsAreApart(r);
  }

  /** The rows after a save: for each kept record one that says what the last one of its symbol says. */
  ghost predicate SavedRecords(rows: seq<Row>, raw: seq<Raw>) {
    forall i | 0 <= i < |raw| && Kept(raw, i) ::
      exists p: nat, l: nat | p < |rows| && LastWithSymbol(raw, i, l) :: RowSays(rows[p].vals, raw[l])
  }

  /** `normalize` then `save` of the master task. */
  method SaveMaster(db: Table, raw: seq<Raw>, fault: Option<nat>) returns (r: Result<(nat, nat), Failure>)
    requires db.Valid() && db.key == MASTER_KEY && db.unique == {"isin"}
    modifies db
    ensures db.Valid()
    ensures r.Err? ==> db.rows == old(db.rows)
    ensures var view, batch := View(old(db.rows), MASTER_COLS), KeptRows(raw, |raw|);
            && (r.Ok? <==> batch == []
                           || (&& old(db.connected) && (fault.None? || fault.value > |batch|)
                               && forall p | 0 <= p < |batch| :: IsinFree(view, batch, p)))
            && (r.Ok? ==> r.value == (|batch|, 0) && View(db.rows, MASTER_COLS) == PutAll(view, MASTER_CLAUSE, batch))
    ensures r.Ok? ==> SavedRecords(db.rows, raw)
  {
    hide MasterRow, RowSays, IsinFree, PutAll, Project, Kept, Accepts, CleanBatch;
    var records := NormalizeMaster(raw);
    ghost var view := View(db.rows, MASTER_COLS);
    StoredView(db.rows, db.lastId);
    if |records| == 0 {
      r := Ok((0, 0));
      NothingPut(view);
    } else {
      KeptRowsAreClean(raw, |raw|);
      CleanFacts(records);
      ClauseFacts();
      GoesInExactlyWhen(view, records);
      NormalizedIsSame(records, MASTER_COLS);
      assert records[0].Keys == MASTER_COLS;
      r := db.UpsertBatch(records, MASTER_KEY, None, fault);
    }
    if r.Ok? {
      forall i | 0 <= i < |raw| && Kept(raw, i)
        ensures exists p: nat, l: nat | p < |db.rows| && LastWithSymbol(raw, i, l) :: RowSays(db.rows[p].vals, raw[l])
      {
        var p, l := KeptRecordIsHeld(view, raw, i);
        assert View(db.rows, MASTER_COLS) == PutAll(view, MASTER_CLAUSE, records);
        SaysInView(db.rows, p, raw[l]);
      }
    }
  }

  lemma NothingPut(view: seq<Cols>)
    ensures PutAll(view, MASTER_CLAUSE, []) == view
  {
  }

  lemma CleanFacts(batch: seq<Cols>)
    requires CleanBatch(batch)
    ensures Uniform(batch, MASTER_COLS)
  {
  }
}
