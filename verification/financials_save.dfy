/**
 `ScreenerScraper.save` of scrapers/screener.py: the upsert that is meant to make a picked symbol
 fresh.  `scraped_at` is a column default, so only inserted rows carry a new one.
 */
module FinancialsSave {
  import opened Common
  import opened KeyedTable
  import opened TableStorage
  import opened StaleSymbols

  // ---------------------------------------------------------------- what a save does to the selection

  const FINANCIALS_KEY: set<string> := {"symbol", "period_type", "period_end_date"}

  /** The fields of `FinancialsIn`; `scraped_at` is not among them. */
  const FINANCIALS_COLS: set<string> := FINANCIALS_KEY +
    {"revenue_cr", "ebitda_cr", "ebitda_margin_pct", "net_profit_cr", "eps_ttm", "pe_ratio", "pb_ratio",
     "roe_pct", "roce_pct", "debt_equity_ratio", "operating_cf_cr", "free_cf_cr", "book_value", "raw_payload"}

  const FINANCIALS_CLAUSE := Clause(FINANCIALS_COLS, FINANCIALS_KEY, None)

  lemma ClauseFacts()
    ensures Proper(FINANCIALS_CLAUSE, FINANCIALS_COLS)
    ensures FINANCIALS_CLAUSE.key == FINANCIALS_KEY == {"symbol", "period_type", "period_end_date"}
    ensures "symbol" in FINANCIALS_KEY && "symbol" in FINANCIALS_COLS
    ensures "symbol" !in FINANCIALS_CLAUSE.update && "scraped_at" !in FINANCIALS_CLAUSE.update
  {
    assert "scraped_at" !in FINANCIALS_COLS;
  }

  /** Every column but the key is overwritten, and none stamps the row. */
  lemma UpdatedColumns()
    ensures FINANCIALS_CLAUSE.update ==
            {"revenue_cr", "ebitda_cr", "ebitda_margin_pct", "net_profit_cr", "eps_ttm", "pe_ratio", "pb_ratio",
             "roe_pct", "roce_pct", "debt_equity_ratio", "operating_cf_cr", "free_cf_cr", "book_value", "raw_payload"}
  {
    assert "id" !in FINANCIALS_COLS;
  }

  predicate HasRows(view: seq<Cols>, symbol: Value) {
    exists i | 0 <= i < |view| :: Get(view[i], "symbol") == symbol
  }

  lemma ScrapedHasRows(financials: seq<Row>, s: Value)
    ensures LastScraped(financials, s).Some? <==> HasRows(View(financials, FINANCIALS_COLS), s)
  {
    ClauseFacts();
    var view := View(financials, FINANCIALS_COLS);
    assert forall i | 0 <= i < |view| :: Get(view[i], "symbol") == Symbol(financials[i]);
    if x :| x in financials && Symbol(x) == s {
      var i :| 0 <= i < |financials| && financials[i] == x;
      assert Get(view[i], "symbol") == s;
    }
  }

  lemma RowsInBoth(view: seq<Cols>, next: seq<Cols>, s: Value)
    requires |view| <= |next| && forall i | 0 <= i < |view| :: Get(next[i], "symbol") == Get(view[i], "symbol")
    ensures HasRows(view, s) ==> HasRows(next, s)
    ensures |view| == |next| ==> (HasRows(view, s) <==> HasRows(next, s))
    ensures |next| == |view| + 1 ==> (HasRows(next, s) <==> HasRows(view, s) || Get(next[|view|], "symbol") == s)
  {
    hide Get;
    if i :| 0 <= i < |view| && Get(view[i], "symbol") == s {
      assert Get(next[i], "symbol") == s;
    }
  }

  lemma RowsAfterPut(view: seq<Cols>, w: Cols, s: Value)
    requires Uniform(view, FINANCIALS_COLS) && w.Keys == FINANCIALS_COLS && Keyed(view, FINANCIALS_KEY)
    ensures HasRows(Put(view, FINANCIALS_CLAUSE, w), s) <==> HasRows(view, s) || Get(w, "symbol") == s
  {
    hide HasRows, Project, Keyed, Uniform;
    ClauseFacts();
    var next := Put(view, FINANCIALS_CLAUSE, w);
    PutKeepsKeys(view, FINANCIALS_CLAUSE, w, FINANCIALS_COLS);
    forall i | 0 <= i < |view| ensures Get(next[i], "symbol") == Get(view[i], "symbol") {
      assert SameKey(next[i], view[i], FINANCIALS_KEY);
    }
    RowsInBoth(view, next, s);
    var k := Find(view, FINANCIALS_KEY, w);
    if k < |view| {
      assert SameKey(view[k], w, FINANCIALS_KEY);
      HeldByRow(view, k, s);
    }
  }

  lemma HeldByRow(view: seq<Cols>, k: nat, s: Value)
    requires k < |view|
    ensures Get(view[k], "symbol") == s ==> HasRows(view, s)
  {
  }

  lemma {:induction false} RowsAfterSave(view: seq<Cols>, batch: seq<Cols>, s: Value)
    requires Uniform(view, FINANCIALS_COLS) && Uniform(batch, FINANCIALS_COLS) && Keyed(view, FINANCIALS_KEY)
    ensures HasRows(PutAll(view, FINANCIALS_CLAUSE, batch), s) <==> HasRows(view, s) || HasRows(batch, s)
    decreases |batch|
  {
    hide HasRows, Put, Keyed;
    if batch != [] {
      ClauseFacts();
      PutKeepsKeys(view, FINANCIALS_CLAUSE, batch[0], FINANCIALS_COLS);
      RowsAfterPut(view, batch[0], s);
      RowsAfterSave(Put(view, FINANCIALS_CLAUSE, batch[0]), batch[1..], s);
      FirstOrLater(batch, s);
    } else {
      NoRows(s);
    }
  }

  lemma NoRows(s: Value)
    ensures !HasRows([], s)
  {
  }

  lemma FirstOrLater(batch: seq<Cols>, s: Value)
    requires batch != []
    ensures HasRows(batch, s) <==> Get(batch[0], "symbol") == s || HasRows(batch[1..], s)
  {
    if i :| 0 <= i < |batch| && Get(batch[i], "symbol") == s {
      if i > 0 {
        assert batch[1..][i - 1] == batch[i];
      }
    }
    if HasRows(batch[1..], s) {
      var i :| 0 <= i < |batch[1..]| && Get(batch[1..][i], "symbol") == s;
      assert batch[i + 1] == batch[1..][i];
    }
  }

  // ---------------------------------------------------------------- what a save does to the ages

  /** The rows stay, with their symbol and their `scraped_at`. */
  predicate Extends(before: seq<Row>, after: seq<Row>) {
    && |before| <= |after|
    && forall i | 0 <= i < |before| ::
         Symbol(before[i]) == Symbol(after[i]) && BY_SYMBOL.Time(before[i]) == BY_SYMBOL.Time(after[i])
  }

  /** The engine stamps new rows later than every row it held. */
  predicate FreshDefaults(before: seq<Row>, after: seq<Row>) {
    forall i, j | 0 <= i < |before| <= j < |after| :: BY_SYMBOL.Time(before[i]) < BY_SYMBOL.Time(after[j])
  }

  predicate GainsRow(before: seq<Row>, after: seq<Row>, s: Value) {
    exists j | |before| <= j < |after| :: Symbol(after[j]) == s
  }

  lemma OldRowsCount(before: seq<Row>, after: seq<Row>, s: Value)
    requires Extends(before, after) && LastScraped(before, s).Some?
    ensures LastScraped(after, s).Some? && LastScraped(before, s).value <= LastScraped(after, s).value
  {
    hide LatestRows.MaxTime, Get;
    var x :| x in before && BY_SYMBOL.Group(x) == s && BY_SYMBOL.Time(x) == LastScraped(before, s).value;
    var i :| 0 <= i < |before| && before[i] == x;
    assert after[i] in after && Symbol(after[i]) == s;
  }

  lemma NothingElseCounts(before: seq<Row>, after: seq<Row>, s: Value)
    requires Extends(before, after) && !GainsRow(before, after, s) && LastScraped(after, s).Some?
    ensures LastScraped(before, s).Some? && LastScraped(after, s).value <= LastScraped(before, s).value
  {
    hide LatestRows.MaxTime, Get;
    var x :| x in after && BY_SYMBOL.Group(x) == s && BY_SYMBOL.Time(x) == LastScraped(after, s).value;
    var i :| 0 <= i < |after| && after[i] == x;
    assert Symbol(after[i]) == s;
    assert before[i] in before && Symbol(before[i]) == s;
  }

  lemma NewRowCounts(before: seq<Row>, after: seq<Row>, s: Value)
    requires FreshDefaults(before, after) && GainsRow(before, after, s)
    ensures LastScraped(after, s).Some? && LastScraped(after, s) != LastScraped(before, s)
  {
    hide LatestRows.MaxTime, Get;
    var j :| |before| <= j < |after| && Symbol(after[j]) == s;
    assert after[j] in after && BY_SYMBOL.Group(after[j]) == s;
    if LastScraped(before, s).Some? {
      var x :| x in before && BY_SYMBOL.Group(x) == s && BY_SYMBOL.Time(x) == LastScraped(before, s).value;
      var i :| 0 <= i < |before| && before[i] == x;
      assert BY_SYMBOL.Time(before[i]) < BY_SYMBOL.Time(after[j]);
    }
  }

  /** A symbol's age changes exactly when the symbol gains a row. */
  lemma AgeFollowsRows(before: seq<Row>, after: seq<Row>, s: Value)
    requires Extends(before, after) && FreshDefaults(before, after)
    ensures LastScraped(after, s) == LastScraped(before, s) <==> !GainsRow(before, after, s)
  {
    hide LastScraped, GainsRow, Extends, FreshDefaults;
    if GainsRow(before, after, s) {
      NewRowCounts(before, after, s);
    } else {
      if LastScraped(before, s).Some? {
        OldRowsCount(before, after, s);
      }
      if LastScraped(after, s).Some? {
        NothingElseCounts(before, after, s);
      }
    }
  }

  /** A record of the symbol with a period that the table does not have. */
  predicate BringsPeriod(view: seq<Cols>, records: seq<Cols>, s: Value) {
    exists w | w in records :: Get(w, "symbol") == s && Find(view, FINANCIALS_KEY, w) == |view|
  }

  /** What a successful upsert does to the rows (`TableStorage.Table.UpsertBatch`). */
  ghost predicate Saved(before: seq<Row>, after: seq<Row>, records: seq<Cols>) {
    && View(after, FINANCIALS_COLS) == PutAll(View(before, FINANCIALS_COLS), FINANCIALS_CLAUSE, records)
    && Grown(before, after, FINANCIALS_CLAUSE.update)
  }

  lemma SavedExtends(before: seq<Row>, after: seq<Row>, records: seq<Cols>)
    ensures Saved(before, after, records) ==> Extends(before, after)
  {
    hide Get;
    if Saved(before, after, records) {
      ClauseFacts();
      forall i | 0 <= i < |before|
        ensures Symbol(before[i]) == Symbol(after[i]) && BY_SYMBOL.Time(before[i]) == BY_SYMBOL.Time(after[i])
      {
        assert Get(before[i].vals, "scraped_at") == Get(after[i].vals, "scraped_at");
      }
    }
  }

  lemma SymbolInView(rows: seq<Row>, j: nat)
    requires j < |rows|
    ensures |View(rows, FINANCIALS_COLS)| == |rows|
    ensures Get(View(rows, FINANCIALS_COLS)[j], "symbol") == Symbol(rows[j])
  {
    ClauseFacts();
  }

  lemma SymbolOfKey(a: Cols, b: Cols)
    requires SameKey(a, b, FINANCIALS_KEY)
    ensures Get(a, "symbol") == Get(b, "symbol")
  {
    ClauseFacts();
  }

  /** A symbol gains a row exactly when the batch brings a period of it that was not there. */
  lemma RowsFollowPeriods(before: seq<Row>, after: seq<Row>, records: seq<Cols>, s: Value)
    requires Keyed(Contents(before), FINANCIALS_KEY) && Uniform(records, FINANCIALS_COLS)
    ensures Saved(before, after, records) ==>
              (GainsRow(before, after, s) <==> BringsPeriod(View(before, FINANCIALS_COLS), records, s))
  {
    hide Get, SameKey, Put, PutAll, View, Symbol, Grown, Keyed, Uniform;
    var view := View(before, FINANCIALS_COLS);
    if Saved(before, after, records) {
      ClauseFacts();
      KeyedInView(before, FINANCIALS_KEY, FINANCIALS_COLS);
      ViewLength(before);
      ViewLength(after);
      if j: nat :| |before| <= j < |after| && Symbol(after[j]) == s {
        var w := AppendedRowIsUnknown(view, FINANCIALS_CLAUSE, records, FINANCIALS_COLS, j);
        SymbolInView(after, j);
        SymbolOfKey(View(after, FINANCIALS_COLS)[j], w);
      }
      if w :| w in records && Get(w, "symbol") == s && Find(view, FINANCIALS_KEY, w) == |view| {
        var j := UnknownKeyIsAppended(view, FINANCIALS_CLAUSE, records, FINANCIALS_COLS, w);
        SymbolInView(after, j);
        SymbolOfKey(View(after, FINANCIALS_COLS)[j], w);
        assert Symbol(after[j]) == s;
      }
    }
  }

  lemma ViewLength(rows: seq<Row>)
    ensures |View(rows, FINANCIALS_COLS)| == |rows|
  {
  }

  /**
   A save leaves a symbol exactly as old as it was when it brings no new period of that symbol,
   whatever it brings of others: updating known periods never makes a symbol fresher.
   */
  lemma FresherExactlyWhen(before: seq<Row>, after: seq<Row>, records: seq<Cols>, s: Value)
    requires Keyed(Contents(before), FINANCIALS_KEY) && Uniform(records, FINANCIALS_COLS)
    ensures Saved(before, after, records) && FreshDefaults(before, after) ==>
              (LastScraped(after, s) == LastScraped(before, s)
               <==> !BringsPeriod(View(before, FINANCIALS_COLS), records, s))
  {
    hide LastScraped, BringsPeriod, Saved, FreshDefaults, Keyed, Uniform;
    if Saved(before, after, records) && FreshDefaults(before, after) {
      SavedExtends(before, after, records);
      AgeFollowsRows(before, after, s);
      RowsFollowPeriods(before, after, records, s);
    }
  }

  /** No record leaves a key column empty. */
  predicate KeysGiven(records: seq<Cols>) {
    forall i | 0 <= i < |records| ::
      && "symbol" in records[i] && records[i]["symbol"] != Null
      && "period_type" in records[i] && records[i]["period_type"] != Null
      && "period_end_date" in records[i] && records[i]["period_end_date"] != Null
  }

  lemma KeysGivenMeaning(records: seq<Cols>)
    ensures KeysGiven(records)
            <==> forall i, c | 0 <= i < |records| && c in FINANCIALS_KEY :: c in records[i] && records[i][c] != Null
  {
    assert "symbol" in FINANCIALS_KEY && "period_type" in FINANCIALS_KEY && "period_end_date" in FINANCIALS_KEY;
    assert forall c | c in FINANCIALS_KEY :: c == "symbol" || c == "period_type" || c == "period_end_date";
  }

  /**
   `ScreenerScraper.save`: one batch for all the picked symbols.  A symbol has rows afterwards
   exactly when it had some or was saved, and it has become fresher exactly when the batch brings
   a new period of it.
   */
  method SaveFinancials(db: Table, records: seq<Cols>, fault: Option<nat>) returns (r: Result<(nat, nat), Failure>)
    requires db.Valid() && db.key == FINANCIALS_KEY && db.unique == {} && Uniform(records, FINANCIALS_COLS)
    modifies db
    ensures db.Valid() && (r.Err? ==> db.rows == old(db.rows))
    ensures r.Ok? ==> r.value == (|records|, 0)
    ensures r.Ok? <==> || records == []
                       || (old(db.connected) && (fault.None? || fault.value > |records|) && KeysGiven(records))
    ensures r.Ok? ==>
              forall s :: LastScraped(db.rows, s).Some? <==> LastScraped(old(db.rows), s).Some? || HasRows(records, s)
    ensures r.Ok? && FreshDefaults(old(db.rows), db.rows) ==>
              forall s :: LastScraped(db.rows, s) == LastScraped(old(db.rows), s)
                          <==> !BringsPeriod(View(old(db.rows), FINANCIALS_COLS), records, s)
  {
    hide HasRows, LastScraped, Put, Keyed, Grown, Sound, BringsPeriod, FreshDefaults, KeysGiven;
    ghost var before := db.rows;
    if |records| == 0 {
      forall s ensures !HasRows(records, s) && !BringsPeriod(View(before, FINANCIALS_COLS), records, s) {
        NoRows(s);
        NoPeriods(View(before, FINANCIALS_COLS), s);
      }
      return Ok((0, 0));
    }
    ClauseFacts();
    SoundIsKeyed(before, db.lastId, FINANCIALS_KEY, db.unique);
    KeyedInView(before, FINANCIALS_KEY, FINANCIALS_COLS);
    NormalizedIsSame(records, FINANCIALS_COLS);
    KeysGivenMeaning(records);
    r := db.UpsertBatch(records, FINANCIALS_KEY, None, fault);
    if r.Ok? {
      forall s ensures LastScraped(db.rows, s).Some? <==> LastScraped(before, s).Some? || HasRows(records, s) {
        ScrapedHasRows(before, s);
        ScrapedHasRows(db.rows, s);
        RowsAfterSave(View(before, FINANCIALS_COLS), records, s);
      }
      forall s {
        FresherExactlyWhen(before, db.rows, records, s);
      }
    }
  }

  lemma NoPeriods(view: seq<Cols>, s: Value)
    ensures !BringsPeriod(view, [], s)
  {
  }

  lemma SoundIsKeyed(rows: seq<Row>, last: int, key: set<string>, unique: set<string>)
    requires Sound(rows, last, key, unique)
    ensures Keyed(Contents(rows), key)
  {
  }

  /** A run that saves at least one row for each picked symbol, and none for others, is a round. */
  lemma SaveIsARound(master: seq<Row>, before: seq<Row>, after: seq<Row>, picked: seq<Row>, records: seq<Cols>)
    requires forall s :: LastScraped(after, s).Some? <==> LastScraped(before, s).Some? || HasRows(records, s)
    requires forall s :: HasRows(records, s) <==> s in SymbolsOf(picked)
    ensures RoundDone(master, before, after, picked)
  {
    hide LastScraped, HasRows, Symbol, Active;
  }
}
