/**
 `get_symbols_for_scraping` of services/sqlite_storage.py and services/db_service.py, and how its
 runs work through the symbols that were never scraped.

 Which of several equally old symbols LIMIT keeps is up to the engine, so the selection is a
 relation.  Times are whole milliseconds (see `IsoTime.StaleTestIsMillisecondOrder`).
 */
module StaleSymbols {
  import opened Common
  import opened KeyedTable
  import opened TableStorage
  import LatestRows

  // ---------------------------------------------------------------- the selection

  const BY_SYMBOL := LatestRows.Shape("symbol", "scraped_at")

  /** `SELECT symbol, MAX(scraped_at) FROM financials GROUP BY symbol`, joined on the left. */
  function LastScraped(financials: seq<Row>, symbol: Value): Option<int> {
    LatestRows.MaxTime(financials, BY_SYMBOL, symbol)
  }

  function Symbol(r: Row): Value {
    Get(r.vals, "symbol")
  }

  predicate Active(r: Row) {
    Get(r.vals, "is_active") == Int(1)
  }

  predicate Stale(financials: seq<Row>, cutoff: int, r: Row) {
    var last := LastScraped(financials, Symbol(r));
    last.None? || last.value < cutoff
  }

  predicate Eligible(master: seq<Row>, financials: seq<Row>, cutoff: int, r: Row) {
    r in master && Active(r) && Stale(financials, cutoff, r)
  }

  /** `ORDER BY last_scraped IS NOT NULL, last_scraped`: never scraped first, then the oldest. */
  predicate Before(financials: seq<Row>, a: Row, b: Row) {
    var x, y := LastScraped(financials, Symbol(a)), LastScraped(financials, Symbol(b));
    y.Some? && (x.None? || x.value < y.value)
  }

  /** Any result the query may give. */
  predicate Pick(master: seq<Row>, financials: seq<Row>, cutoff: int, limit: nat, picked: seq<Row>) {
    && |picked| <= limit
    && (forall r | r in picked :: Eligible(master, financials, cutoff, r))
    && (forall i, j | 0 <= i < j < |picked| :: picked[i] != picked[j] && !Before(financials, picked[j], picked[i]))
    && (forall r | r in master && Eligible(master, financials, cutoff, r) && r !in picked ::
          |picked| == limit && forall p | p in picked :: !Before(financials, r, p))
  }

  // ---------------------------------------------------------------- the selection, row by row

  /** `scraped_at` is NOT NULL. */
  predicate Stamped(financials: seq<Row>) {
    forall f | f in financials :: "scraped_at" in f.vals && f.vals["scraped_at"].Int?
  }

  predicate SameSymbol(f: Row, r: Row) {
    Get(f.vals, "symbol") == Get(r.vals, "symbol")
  }

  /** An active stock whose financials, if any, were all scraped before the cutoff. */
  predicate Overdue(master: seq<Row>, financials: seq<Row>, cutoff: int, r: Row)
    requires Stamped(financials)
  {
    && r in master && "is_active" in r.vals && r.vals["is_active"] == Int(1)
    && forall f | f in financials && SameSymbol(f, r) :: f.vals["scraped_at"].i < cutoff
  }

  /** Some row of the later stock is newer than every row, if any, of the earlier one. */
  predicate ScrapedEarlier(financials: seq<Row>, a: Row, b: Row)
    requires Stamped(financials)
  {
    exists g | g in financials && SameSymbol(g, b) ::
      forall f | f in financials && SameSymbol(f, a) :: f.vals["scraped_at"].i < g.vals["scraped_at"].i
  }

  lemma NewestRow(financials: seq<Row>, r: Row) returns (newest: Row)
    requires Stamped(financials) && LastScraped(financials, Symbol(r)).Some?
    ensures newest in financials && SameSymbol(newest, r)
    ensures newest.vals["scraped_at"] == Int(LastScraped(financials, Symbol(r)).value)
    ensures forall f | f in financials && SameSymbol(f, r) :: f.vals["scraped_at"].i <= newest.vals["scraped_at"].i
  {
    hide LatestRows.MaxTime;
    newest :| newest in financials && BY_SYMBOL.Group(newest) == Symbol(r)
              && BY_SYMBOL.Time(newest) == LastScraped(financials, Symbol(r)).value;
    forall f | f in financials && SameSymbol(f, r) ensures f.vals["scraped_at"].i <= newest.vals["scraped_at"].i {
      assert BY_SYMBOL.Group(f) == Symbol(r) && BY_SYMBOL.Time(f) == f.vals["scraped_at"].i;
    }
  }

  lemma NoRowOf(financials: seq<Row>, r: Row)
    ensures LastScraped(financials, Symbol(r)).None? <==> forall f | f in financials :: !SameSymbol(f, r)
  {
    hide LatestRows.MaxTime, Get;
    assert forall f :: BY_SYMBOL.Group(f) == Symbol(f);
  }

  lemma EligibleIsOverdue(master: seq<Row>, financials: seq<Row>, cutoff: int, r: Row)
    requires Stamped(financials)
    ensures Eligible(master, financials, cutoff, r) <==> Overdue(master, financials, cutoff, r)
  {
    hide LastScraped, SameSymbol;
    NoRowOf(financials, r);
    if LastScraped(financials, Symbol(r)).Some? {
      var newest := NewestRow(financials, r);
    }
  }

  lemma BeforeIsEarlier(financials: seq<Row>, a: Row, b: Row)
    requires Stamped(financials)
    ensures Before(financials, a, b) <==> ScrapedEarlier(financials, a, b)
  {
    hide LastScraped, SameSymbol;
    NoRowOf(financials, a);
    NoRowOf(financials, b);
    if LastScraped(financials, Symbol(b)).Some? {
      var g := NewestRow(financials, b);
      if LastScraped(financials, Symbol(a)).Some? {
        var f := NewestRow(financials, a);
      }
    }
  }

  /**
   What the query may return, said of the rows themselves: at most the limit of overdue stocks, none
   twice, the earliest scraped first; and an overdue stock is left out only by a full list of others
   that were scraped no later.
   */
  lemma PickMeaning(master: seq<Row>, financials: seq<Row>, cutoff: int, limit: nat, picked: seq<Row>)
    requires Stamped(financials)
    ensures Pick(master, financials, cutoff, limit, picked)
            <==> && |picked| <= limit
                 && (forall r | r in picked :: Overdue(master, financials, cutoff, r))
                 && (forall i, j | 0 <= i < j < |picked| ::
                       picked[i] != picked[j] && !ScrapedEarlier(financials, picked[j], picked[i]))
                 && (forall r | r in master && Overdue(master, financials, cutoff, r) && r !in picked ::
                       |picked| == limit && forall p | p in picked :: !ScrapedEarlier(financials, r, p))
  {
    hide Overdue, ScrapedEarlier, Eligible, Before;
    forall r ensures Eligible(master, financials, cutoff, r) <==> Overdue(master, financials, cutoff, r) {
      EligibleIsOverdue(master, financials, cutoff, r);
    }
    forall a, b ensures Before(financials, a, b) <==> ScrapedEarlier(financials, a, b) {
      BeforeIsEarlier(financials, a, b);
    }
  }

  /** A stock that is inactive, or has a row from the cutoff on, is in no pick. */
  lemma FreshIsNotPicked(master: seq<Row>, financials: seq<Row>, cutoff: int, limit: nat, picked: seq<Row>, r: Row)
    requires Stamped(financials) && Pick(master, financials, cutoff, limit, picked)
    requires ("is_active" in r.vals ==> r.vals["is_active"] != Int(1))
             || exists f | f in financials :: SameSymbol(f, r) && f.vals["scraped_at"].i >= cutoff
    ensures r !in picked
  {
    hide Pick;
    PickMeaning(master, financials, cutoff, limit, picked);
    assert !Overdue(master, financials, cutoff, r);
  }

  /** An active stock with only older rows, or none, is in every pick that is not full. */
  lemma OverdueIsPicked(master: seq<Row>, financials: seq<Row>, cutoff: int, limit: nat, picked: seq<Row>, r: Row)
    requires Stamped(financials) && Pick(master, financials, cutoff, limit, picked) && |picked| < limit
    requires r in master && "is_active" in r.vals && r.vals["is_active"] == Int(1)
    requires forall f | f in financials && SameSymbol(f, r) :: f.vals["scraped_at"].i < cutoff
    ensures r in picked
  {
    hide Pick;
    PickMeaning(master, financials, cutoff, limit, picked);
    assert Overdue(master, financials, cutoff, r);
  }

  predicate OneActiveRowPerSymbol(master: seq<Row>) {
    forall a, b | a in master && b in master && Active(a) && Active(b) && Symbol(a) == Symbol(b) :: a == b
  }

  // ---------------------------------------------------------------- never-scraped symbols

  function SymbolsOf(rows: seq<Row>): set<Value> {
    set x | x in rows :: Symbol(x)
  }

  /** The active symbols without a financials row. */
  function NeverScraped(master: seq<Row>, financials: seq<Row>): set<Value> {
    set x | x in master && Active(x) && LastScraped(financials, Symbol(x)).None? :: Symbol(x)
  }

  lemma {:induction false} DistinctSymbols(rows: seq<Row>)
    requires forall i, j | 0 <= i < j < |rows| :: Symbol(rows[i]) != Symbol(rows[j])
    ensures |SymbolsOf(rows)| == |rows|
  {
    if rows != [] {
      var front, last := rows[..|rows| - 1], rows[|rows| - 1];
      DistinctSymbols(front);
      assert rows == front + [last];
      assert SymbolsOf(rows) == SymbolsOf(front) + {Symbol(last)};
      assert forall x | x in front :: Symbol(x) != Symbol(last);
    } else {
      assert SymbolsOf(rows) == {};
    }
  }

  lemma PickedSymbols(master: seq<Row>, financials: seq<Row>, cutoff: int, limit: nat, picked: seq<Row>)
    requires OneActiveRowPerSymbol(master) && Pick(master, financials, cutoff, limit, picked)
    ensures |SymbolsOf(picked)| == |picked| <= limit
  {
    forall i, j | 0 <= i < j < |picked| ensures Symbol(picked[i]) != Symbol(picked[j]) {
      assert picked[i] in picked && picked[j] in picked;
    }
    DistinctSymbols(picked);
  }

  /** As long as one never-scraped symbol is left out, the pick is full and all never-scraped. */
  lemma NeverScrapedFirst(master: seq<Row>, financials: seq<Row>, cutoff: int, limit: nat, picked: seq<Row>, s: Value)
    requires Pick(master, financials, cutoff, limit, picked)
    requires s in NeverScraped(master, financials) && s !in SymbolsOf(picked)
    ensures |picked| == limit && SymbolsOf(picked) <= NeverScraped(master, financials)
  {
    var x :| x in master && Active(x) && Symbol(x) == s;
    assert Eligible(master, financials, cutoff, x);
    forall p | p in picked ensures LastScraped(financials, Symbol(p)).None? {
      assert !Before(financials, x, p);
    }
  }

  lemma Subtract(all: set<Value>, part: set<Value>)
    requires part <= all
    ensures |all - part| == |all| - |part|
  {
    assert all == (all - part) + part;
  }

  lemma NotLarger(part: set<Value>, all: set<Value>)
    requires part <= all
    ensures |part| <= |all|
  {
    Subtract(all, part);
  }

  /** A run takes the limit off the never-scraped symbols, or all that are left. */
  lemma RoundTakesLimit(master: seq<Row>, financials: seq<Row>, cutoff: int, limit: nat, picked: seq<Row>)
    requires OneActiveRowPerSymbol(master) && Pick(master, financials, cutoff, limit, picked)
    ensures |NeverScraped(master, financials) - SymbolsOf(picked)| == Max(0, |NeverScraped(master, financials)| - limit)
  {
    hide Pick, NeverScraped, SymbolsOf, OneActiveRowPerSymbol;
    var never, took := NeverScraped(master, financials), SymbolsOf(picked);
    PickedSymbols(master, financials, cutoff, limit, picked);
    if never <= took {
      assert never - took == {};
      NotLarger(never, took);
    } else {
      var s :| s in never && s !in took;
      NeverScrapedFirst(master, financials, cutoff, limit, picked, s);
      Subtract(never, took);
      assert s in never - took;
    }
  }

  /** Afterwards exactly the picked symbols have left the never-scraped ones (see `SaveFinancials`). */
  predicate RoundDone(master: seq<Row>, before: seq<Row>, after: seq<Row>, picked: seq<Row>) {
    NeverScraped(master, after) == NeverScraped(master, before) - SymbolsOf(picked)
  }

  /** A sequence of runs: run `k` picks from the tables as they are then. */
  predicate Rounds(master: seq<Row>, tables: seq<seq<Row>>, cutoffs: seq<int>, limit: nat, picks: seq<seq<Row>>)
    decreases |picks|
  {
    && |tables| == |picks| + 1 && |cutoffs| == |picks|
    && (picks != [] ==>
          && Pick(master, tables[0], cutoffs[0], limit, picks[0])
          && RoundDone(master, tables[0], tables[1], picks[0])
          && Rounds(master, tables[1..], cutoffs[1..], limit, picks[1..]))
  }

  lemma FirstRound(master: seq<Row>, tables: seq<seq<Row>>, cutoffs: seq<int>, limit: nat, picks: seq<seq<Row>>)
    requires Rounds(master, tables, cutoffs, limit, picks)
    ensures |tables| == |picks| + 1 && |cutoffs| == |picks|
    ensures picks != [] ==>
              && Pick(master, tables[0], cutoffs[0], limit, picks[0])
              && NeverScraped(master, tables[1]) == NeverScraped(master, tables[0]) - SymbolsOf(picks[0])
              && Rounds(master, tables[1..], cutoffs[1..], limit, picks[1..])
  {
  }

  /** How many never-scraped symbols are left: `limit` fewer after each run, down to none. */
  lemma {:induction false} LeftAfter(master: seq<Row>, tables: seq<seq<Row>>, cutoffs: seq<int>, limit: nat,
                                     picks: seq<seq<Row>>)
    requires OneActiveRowPerSymbol(master) && Rounds(master, tables, cutoffs, limit, picks)
    ensures |tables| == |picks| + 1
    ensures |NeverScraped(master, tables[|picks|])| == Max(0, |NeverScraped(master, tables[0])| - limit * |picks|)
    decreases |picks|
  {
    hide Rounds, Pick, NeverScraped, SymbolsOf, OneActiveRowPerSymbol, Max;
    FirstRound(master, tables, cutoffs, limit, picks);
    var n := |NeverScraped(master, tables[0])|;
    if picks != [] {
      RoundTakesLimit(master, tables[0], cutoffs[0], limit, picks[0]);
      LeftAfter(master, tables[1..], cutoffs[1..], limit, picks[1..]);
      OneRoundLess(n, limit, |picks|);
    } else {
      NoRounds(n, limit);
    }
  }

  lemma OneRoundLess(n: nat, limit: nat, rounds: nat)
    requires rounds > 0
    ensures Max(0, Max(0, n - limit) - limit * (rounds - 1)) == Max(0, n - limit * rounds)
  {
    assert limit * rounds == limit * (rounds - 1) + limit;
    assert limit * (rounds - 1) >= 0;
  }

  lemma NoRounds(n: nat, limit: nat)
    ensures n == Max(0, n - limit * 0)
  {
  }

  predicate PickedSometime(picks: seq<seq<Row>>, s: Value) {
    exists k | 0 <= k < |picks| :: s in SymbolsOf(picks[k])
  }

  lemma PickedLater(picks: seq<seq<Row>>, s: Value)
    requires picks != []
    ensures PickedSometime(picks, s) <==> s in SymbolsOf(picks[0]) || PickedSometime(picks[1..], s)
  {
    if k :| 0 <= k < |picks| && s in SymbolsOf(picks[k]) {
      if k > 0 {
        assert picks[1..][k - 1] == picks[k];
      }
    }
    if PickedSometime(picks[1..], s) {
      var k :| 0 <= k < |picks[1..]| && s in SymbolsOf(picks[1..][k]);
      assert picks[k + 1] == picks[1..][k];
    }
  }

  /** A symbol never scraped at the start is picked by some run exactly when it has rows at the end. */
  lemma {:induction false} PickedIsScraped(master: seq<Row>, tables: seq<seq<Row>>, cutoffs: seq<int>, limit: nat,
                                           picks: seq<seq<Row>>, s: Value)
    requires Rounds(master, tables, cutoffs, limit, picks) && s in NeverScraped(master, tables[0])
    ensures PickedSometime(picks, s) <==> s !in NeverScraped(master, tables[|picks|])
    decreases |picks|
  {
    hide Rounds, Pick, NeverScraped, SymbolsOf, PickedSometime;
    FirstRound(master, tables, cutoffs, limit, picks);
    if picks != [] {
      PickedLater(picks, s);
      if s in NeverScraped(master, tables[1]) {
        PickedIsScraped(master, tables[1..], cutoffs[1..], limit, picks[1..], s);
      } else {
        StaysScraped(master, tables[1..], cutoffs[1..], limit, picks[1..], s);
      }
    } else {
      NoPicks(s);
    }
  }

  lemma NoPicks(s: Value)
    ensures !PickedSometime([], s)
  {
  }

  lemma {:induction false} StaysScraped(master: seq<Row>, tables: seq<seq<Row>>, cutoffs: seq<int>, limit: nat,
                                        picks: seq<seq<Row>>, s: Value)
    requires Rounds(master, tables, cutoffs, limit, picks) && s !in NeverScraped(master, tables[0])
    ensures s !in NeverScraped(master, tables[|picks|])
    decreases |picks|
  {
    hide Rounds, Pick, NeverScraped, SymbolsOf;
    FirstRound(master, tables, cutoffs, limit, picks);
    if picks != [] {
      StaysScraped(master, tables[1..], cutoffs[1..], limit, picks[1..], s);
    }
  }

  /**
   Whatever the engine does about ties, the runs have picked every never-scraped symbol exactly
   when there were at least N / limit of them: ceil(N / limit) runs suffice and fewer do not.
   */
  lemma AllPickedExactlyWhen(master: seq<Row>, tables: seq<seq<Row>>, cutoffs: seq<int>, limit: nat,
                             picks: seq<seq<Row>>)
    requires OneActiveRowPerSymbol(master) && Rounds(master, tables, cutoffs, limit, picks)
    ensures (forall s | s in NeverScraped(master, tables[0]) :: PickedSometime(picks, s))
            <==> |NeverScraped(master, tables[0])| <= limit * |picks|
  {
    hide Rounds, Max, NeverScraped, PickedSometime, OneActiveRowPerSymbol;
    FirstRound(master, tables, cutoffs, limit, picks);
    var first, last := NeverScraped(master, tables[0]), NeverScraped(master, tables[|picks|]);
    LeftAfter(master, tables, cutoffs, limit, picks);
    forall s | s in first ensures PickedSometime(picks, s) <==> s !in last {
      PickedIsScraped(master, tables, cutoffs, limit, picks, s);
    }
    forall s | s !in first ensures s !in last {
      StaysScraped(master, tables, cutoffs, limit, picks, s);
    }
    EmptyExactlyWhen(first, last);
    CutToNothing(|first|, limit * |picks|);
  }

  lemma EmptyExactlyWhen(first: set<Value>, last: set<Value>)
    requires forall s | s !in first :: s !in last
    ensures (forall s | s in first :: s !in last) <==> |last| == 0
  {
    if forall s | s in first :: s !in last {
      assert forall s :: s !in last;
      assert last == {};
    }
  }

  lemma CutToNothing(n: int, cut: int)
    ensures Max(0, n - cut) == 0 <==> n <= cut
  {
  }
}
