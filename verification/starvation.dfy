/**
 Which symbols `get_symbols_for_scraping` can pick at all, and why later rounds may never reach
 some of them.
 */
module Starvation {
  import opened Common
  import opened KeyedTable
  import opened TableStorage
  import opened StaleSymbols
  import opened FinancialsSave

  // ---------------------------------------------------------------- who is picked

  /** The eligible rows that the order puts strictly before a row. */
  function Ahead(master: seq<Row>, financials: seq<Row>, cutoff: int, r: Row): set<Row> {
    set x | x in master && Eligible(master, financials, cutoff, x) && Before(financials, x, r)
  }

  /** The other eligible rows that the order does not put behind a row. */
  function NotBehind(master: seq<Row>, financials: seq<Row>, cutoff: int, r: Row): set<Row> {
    set x | x in master && Eligible(master, financials, cutoff, x) && x != r && !Before(financials, r, x)
  }

  function EligibleRows(master: seq<Row>, financials: seq<Row>, cutoff: int): set<Row> {
    set x | x in master && Eligible(master, financials, cutoff, x)
  }

  /** The first `n` of a set of rows, in an order the engine may use. */
  predicate Chosen(financials: seq<Row>, all: set<Row>, n: nat, picked: seq<Row>) {
    && |picked| <= n && (forall p | p in picked :: p in all)
    && (forall i, j | 0 <= i < j < |picked| :: picked[i] != picked[j] && !Before(financials, picked[j], picked[i]))
    && (forall r | r in all && r !in picked :: |picked| == n && forall p | p in picked :: !Before(financials, r, p))
  }

  lemma ChosenIsPick(master: seq<Row>, financials: seq<Row>, cutoff: int, limit: nat, picked: seq<Row>)
    ensures Pick(master, financials, cutoff, limit, picked)
            <==> Chosen(financials, EligibleRows(master, financials, cutoff), limit, picked)
  {
    hide Before, Active, Stale;
    var all := EligibleRows(master, financials, cutoff);
    assert forall r :: r in all <==> Eligible(master, financials, cutoff, r);
  }

  predicate FirstIn(financials: seq<Row>, all: set<Row>, m: Row) {
    m in all && forall x | x in all :: !Before(financials, x, m)
  }

  /** Some row of a set comes first, and not after a given one. */
  lemma {:induction false} SomeFirst(financials: seq<Row>, all: set<Row>, x: Row) returns (m: Row)
    requires x in all
    ensures FirstIn(financials, all, m) && (m == x || Before(financials, m, x))
    decreases all
  {
    hide LastScraped;
    if y :| y in all && Before(financials, y, x) {
      m := SomeFirst(financials, all - {x}, y);
    } else {
      m := x;
    }
  }

  /** A first row, then a choice from the others. */
  lemma ChosenCons(financials: seq<Row>, all: set<Row>, n: nat, m: Row, rest: seq<Row>)
    requires n > 0 && FirstIn(financials, all, m) && Chosen(financials, all - {m}, n - 1, rest)
    ensures Chosen(financials, all, n, [m] + rest)
  {
    hide Before;
    var picked := [m] + rest;
    forall i, j | 0 <= i < j < |picked|
      ensures picked[i] != picked[j] && !Before(financials, picked[j], picked[i])
    {
      assert picked[j] == rest[j - 1] && rest[j - 1] in rest;
      assert i > 0 ==> picked[i] == rest[i - 1];
    }
    forall r | r in all && r !in picked
      ensures |picked| == n && forall p | p in picked :: !Before(financials, r, p)
    {
      assert r != m && r !in rest;
    }
  }

  lemma NothingChosen(financials: seq<Row>, all: set<Row>)
    ensures Chosen(financials, all, 0, []) && Chosen(financials, {}, 0, [])
  {
  }

  lemma {:induction false} Choose(financials: seq<Row>, all: set<Row>, n: nat) returns (picked: seq<Row>)
    ensures Chosen(financials, all, n, picked)
    decreases n
  {
    hide Before, FirstIn;
    picked := [];
    if n > 0 {
      if x :| x in all {
        var m := SomeFirst(financials, all, x);
        var rest := Choose(financials, all - {m}, n - 1);
        ChosenCons(financials, all, n, m, rest);
        picked := [m] + rest;
      }
    }
  }

  function AheadIn(financials: seq<Row>, all: set<Row>, r: Row): set<Row> {
    set x | x in all && Before(financials, x, r)
  }

  function NotBehindIn(financials: seq<Row>, all: set<Row>, r: Row): set<Row> {
    set x | x in all && x != r && !Before(financials, r, x)
  }

  /** With fewer than `n` rows ahead, some choice has the row. */
  lemma {:induction false} ChooseWith(financials: seq<Row>, all: set<Row>, n: nat, r: Row) returns (picked: seq<Row>)
    requires r in all && |AheadIn(financials, all, r)| < n
    ensures Chosen(financials, all, n, picked) && r in picked
    decreases n
  {
    hide Before, Chosen;
    var m := SomeFirst(financials, all, r);
    if m == r {
      var rest := Choose(financials, all - {r}, n - 1);
      ChosenCons(financials, all, n, r, rest);
      picked := [r] + rest;
    } else {
      assert AheadIn(financials, all - {m}, r) == AheadIn(financials, all, r) - {m};
      var rest := ChooseWith(financials, all - {m}, n - 1, r);
      ChosenCons(financials, all, n, m, rest);
      picked := [m] + rest;
    }
  }

  lemma EmptyOrNot(s: set<Row>)
    ensures |s| == 0 || exists x :: x in s
  {
    if forall x :: x !in s {
      assert s == {};
    }
  }

  lemma NotBehindStays(financials: seq<Row>, x: Row, m: Row, r: Row)
    requires !Before(financials, r, x) && (m == x || Before(financials, m, x))
    ensures !Before(financials, r, m)
  {
    hide LastScraped;
  }

  /** With at least `n` others not behind, some choice leaves the row out. */
  lemma {:induction false} ChooseWithout(financials: seq<Row>, all: set<Row>, n: nat, r: Row) returns (picked: seq<Row>)
    requires r in all && |NotBehindIn(financials, all, r)| >= n
    ensures Chosen(financials, all, n, picked) && r !in picked
    decreases n
  {
    hide Before, Chosen;
    if n == 0 {
      picked := [];
      NothingChosen(financials, all);
    } else {
      EmptyOrNot(NotBehindIn(financials, all, r));
      var x :| x in NotBehindIn(financials, all, r);
      var m := SomeFirst(financials, all - {r}, x);
      NotBehindStays(financials, x, m, r);
      assert NotBehindIn(financials, all - {m}, r) == NotBehindIn(financials, all, r) - {m};
      var rest := ChooseWithout(financials, all - {m}, n - 1, r);
      assert FirstIn(financials, all, m);
      ChosenCons(financials, all, n, m, rest);
      picked := [m] + rest;
    }
  }

  lemma {:induction false} RowCount(rows: seq<Row>)
    ensures |set x | x in rows| <= |rows|
    ensures (forall i, j | 0 <= i < j < |rows| :: rows[i] != rows[j]) ==> |set x | x in rows| == |rows|
  {
    if rows != [] {
      var front, last := rows[..|rows| - 1], rows[|rows| - 1];
      RowCount(front);
      assert rows == front + [last];
      assert (set x | x in rows) == (set x | x in front) + {last};
    } else {
      assert (set x | x in rows) == {};
    }
  }

  lemma FewerRows(part: set<Row>, all: set<Row>)
    requires part <= all
    ensures |part| <= |all| && (part != all ==> |part| < |all|)
  {
    assert all == part + (all - part);
    EmptyOrNot(all - part);
  }

  /** A chosen row has fewer than `n` rows ahead: all of those are chosen as well. */
  lemma AheadOfChosen(financials: seq<Row>, all: set<Row>, n: nat, picked: seq<Row>, r: Row)
    requires Chosen(financials, all, n, picked) && r in picked
    ensures |AheadIn(financials, all, r)| < n
  {
    hide LastScraped;
    var chosen := set x | x in picked;
    assert AheadIn(financials, all, r) <= chosen - {r};
    RowCount(picked);
    FewerRows(AheadIn(financials, all, r), chosen - {r});
    FewerRows(chosen - {r}, chosen);
  }

  /** A row left out has at least `n` others not behind it: the chosen ones. */
  lemma NotBehindLeftOut(financials: seq<Row>, all: set<Row>, n: nat, picked: seq<Row>, r: Row)
    requires Chosen(financials, all, n, picked) && r in all && r !in picked
    ensures |NotBehindIn(financials, all, r)| >= n
  {
    hide Before;
    var chosen := set x | x in picked;
    RowCount(picked);
    FewerRows(chosen, NotBehindIn(financials, all, r));
  }

  lemma SameSets(master: seq<Row>, financials: seq<Row>, cutoff: int, r: Row)
    ensures Ahead(master, financials, cutoff, r) == AheadIn(financials, EligibleRows(master, financials, cutoff), r)
    ensures NotBehind(master, financials, cutoff, r)
            == NotBehindIn(financials, EligibleRows(master, financials, cutoff), r)
  {
    hide Before, Eligible;
  }

  /**
   An eligible row is in no result the query may give exactly when at least `limit` eligible rows
   come strictly before it.
   */
  lemma NeverPickedExactlyWhen(master: seq<Row>, financials: seq<Row>, cutoff: int, limit: nat, r: Row)
    requires Eligible(master, financials, cutoff, r)
    ensures (forall picked | Pick(master, financials, cutoff, limit, picked) :: r !in picked)
            <==> |Ahead(master, financials, cutoff, r)| >= limit
  {
    hide Before, Chosen, Pick, AheadIn, Ahead, NotBehind, NotBehindIn;
    var all := EligibleRows(master, financials, cutoff);
    SameSets(master, financials, cutoff, r);
    forall picked | Pick(master, financials, cutoff, limit, picked) && r in picked
      ensures |AheadIn(financials, all, r)| < limit
    {
      ChosenIsPick(master, financials, cutoff, limit, picked);
      AheadOfChosen(financials, all, limit, picked, r);
    }
    if |AheadIn(financials, all, r)| < limit {
      var picked := ChooseWith(financials, all, limit, r);
      ChosenIsPick(master, financials, cutoff, limit, picked);
    }
  }

  /**
   It is in every result exactly when fewer than `limit` other eligible rows are not behind it.
   In between, the engine's tie-breaking decides.
   */
  lemma AlwaysPickedExactlyWhen(master: seq<Row>, financials: seq<Row>, cutoff: int, limit: nat, r: Row)
    requires Eligible(master, financials, cutoff, r)
    ensures (forall picked | Pick(master, financials, cutoff, limit, picked) :: r in picked)
            <==> |NotBehind(master, financials, cutoff, r)| < limit
  {
    hide Before, Chosen, Pick, AheadIn, Ahead, NotBehind, NotBehindIn;
    var all := EligibleRows(master, financials, cutoff);
    SameSets(master, financials, cutoff, r);
    forall picked | Pick(master, financials, cutoff, limit, picked) && r !in picked
      ensures |NotBehindIn(financials, all, r)| >= limit
    {
      ChosenIsPick(master, financials, cutoff, limit, picked);
      NotBehindLeftOut(financials, all, limit, picked, r);
    }
    if |NotBehindIn(financials, all, r)| >= limit {
      var picked := ChooseWithout(financials, all, limit, r);
      ChosenIsPick(master, financials, cutoff, limit, picked);
    }
  }

  // ---------------------------------------------------------------- later rounds

  /** No run ever makes these rows' symbols fresher (see `FresherExactlyWhen`). */
  predicate AgesStay(tables: seq<seq<Row>>, rows: set<Row>) {
    forall k, x | 0 <= k < |tables| && x in rows :: LastScraped(tables[k], Symbol(x))
            == LastScraped(tables[0], Symbol(x))
  }

  /** A save that brings no period of these rows' symbols (`FinancialsSave.Saved`, with fresh defaults). */
  ghost predicate NoPeriodFor(before: seq<Row>, after: seq<Row>, records: seq<Cols>, rows: set<Row>) {
    && Keyed(Contents(before), FINANCIALS_KEY) && Uniform(records, FINANCIALS_COLS)
    && Saved(before, after, records) && FreshDefaults(before, after)
    && forall x | x in rows :: !BringsPeriod(View(before, FINANCIALS_COLS), records, Symbol(x))
  }

  /** Saves that bring no period of some symbols leave them as old as they were, run after run. */
  lemma {:induction false} SavesKeepAges(tables: seq<seq<Row>>, batches: seq<seq<Cols>>, rows: set<Row>)
    requires |tables| == |batches| + 1
    requires forall k | 0 <= k < |batches| :: NoPeriodFor(tables[k], tables[k + 1], batches[k], rows)
    ensures AgesStay(tables, rows)
  {
    hide NoPeriodFor, LastScraped, Symbol;
    if batches != [] {
      var n := |batches| - 1;
      assert forall k | 0 <= k < n :: batches[..n][k] == batches[k];
      SavesKeepAges(tables[..n + 1], batches[..n], rows);
      assert NoPeriodFor(tables[n], tables[n + 1], batches[n], rows);
      forall x | x in rows ensures LastScraped(tables[n + 1], Symbol(x)) == LastScraped(tables[n], Symbol(x)) {
        OneSave(tables[n], tables[n + 1], batches[n], rows, x);
      }
      assert forall k | 0 <= k <= n :: tables[..n + 1][k] == tables[k];
    }
  }

  lemma OneSave(before: seq<Row>, after: seq<Row>, records: seq<Cols>, rows: set<Row>, x: Row)
    requires NoPeriodFor(before, after, records, rows) && x in rows
    ensures LastScraped(after, Symbol(x)) == LastScraped(before, Symbol(x))
  {
    hide LastScraped, BringsPeriod, Saved, FreshDefaults, Keyed, Uniform;
    FresherExactlyWhen(before, after, records, Symbol(x));
  }

  lemma StillAhead(master: seq<Row>, first: seq<Row>, later: seq<Row>, cutoff: int, laterCutoff: int, r: Row)
    requires cutoff <= laterCutoff && Eligible(master, first, cutoff, r)
    requires forall x | x in Ahead(master, first, cutoff, r) + {r} ::
               LastScraped(later, Symbol(x)) == LastScraped(first, Symbol(x))
    ensures Eligible(master, later, laterCutoff, r)
    ensures |Ahead(master, first, cutoff, r)| <= |Ahead(master, later, laterCutoff, r)|
  {
    hide LastScraped;
    assert r in Ahead(master, first, cutoff, r) + {r};
    FewerRows(Ahead(master, first, cutoff, r), Ahead(master, later, laterCutoff, r));
  }

  /**
   Over any number of runs with a rising cutoff in which neither an eligible symbol nor those
   ahead of it gain a period, no run can ever pick it exactly when at least `limit` were ahead of
   it at the start, however old it gets and however ties are broken.
   */
  lemma StarvesExactlyWhen(master: seq<Row>, tables: seq<seq<Row>>, cutoffs: seq<int>, limit: nat, r: Row)
    requires |tables| == |cutoffs| > 0 && Eligible(master, tables[0], cutoffs[0], r)
    requires forall k | 0 <= k < |cutoffs| :: cutoffs[0] <= cutoffs[k]
    requires AgesStay(tables, Ahead(master, tables[0], cutoffs[0], r) + {r})
    ensures (forall k, picked | 0 <= k < |tables| && Pick(master, tables[k], cutoffs[k], limit, picked) :: r !in picked)
            <==> |Ahead(master, tables[0], cutoffs[0], r)| >= limit
  {
    hide Pick, Ahead, Eligible, LastScraped, Symbol;
    NeverPickedExactlyWhen(master, tables[0], cutoffs[0], limit, r);
    if |Ahead(master, tables[0], cutoffs[0], r)| >= limit {
      forall k, picked | 0 <= k < |tables| && Pick(master, tables[k], cutoffs[k], limit, picked) ensures r !in picked {
        StillAhead(master, tables[0], tables[k], cutoffs[0], cutoffs[k], r);
        NeverPickedExactlyWhen(master, tables[k], cutoffs[k], limit, r);
      }
    }
  }

  /**
   The same, said of the saves: over any number of them that bring no period of the symbol or of
   those ahead of it.
   */
  lemma StarvesUnderSaves(master: seq<Row>, tables: seq<seq<Row>>, batches: seq<seq<Cols>>, cutoffs: seq<int>,
                          limit: nat, r: Row)
    requires |tables| == |cutoffs| == |batches| + 1 && Eligible(master, tables[0], cutoffs[0], r)
    requires forall k | 0 <= k < |cutoffs| :: cutoffs[0] <= cutoffs[k]
    requires forall k | 0 <= k < |batches| ::
               NoPeriodFor(tables[k], tables[k + 1], batches[k], Ahead(master, tables[0], cutoffs[0], r) + {r})
    ensures (forall k, picked | 0 <= k < |tables| && Pick(master, tables[k], cutoffs[k], limit, picked) :: r !in picked)
            <==> |Ahead(master, tables[0], cutoffs[0], r)| >= limit
  {
    hide NoPeriodFor, AgesStay, Ahead, Pick, Eligible;
    SavesKeepAges(tables, batches, Ahead(master, tables[0], cutoffs[0], r) + {r});
    StarvesExactlyWhen(master, tables, cutoffs, limit, r);
  }

  lemma TwoAges(a: Row, b: Row)
    requires Symbol(a) != Symbol(b)
    ensures LastScraped([a, b], Symbol(a)) == Some(BY_SYMBOL.Time(a))
    ensures LastScraped([a, b], Symbol(b)) == Some(BY_SYMBOL.Time(b))
  {
    assert [a, b][1..] == [b] && [b][1..] == [];
    assert LatestRows.MaxTime([b], BY_SYMBOL, Symbol(a)) == None;
    assert LatestRows.MaxTime([b], BY_SYMBOL, Symbol(b)) == Some(BY_SYMBOL.Time(b));
  }

  function StockRow(id: int, symbol: string): Row {
    Row(id, map["symbol" := Text(symbol), "exchange" := Text("BSE"), "is_active" := Int(1)])
  }

  function PeriodRow(id: int, symbol: string, scrapedAt: int): Row {
    Row(id, map["symbol" := Text(symbol), "period_type" := Text("annual"), "period_end_date" := Int(0),
                "scraped_at" := Int(scrapedAt)])
  }

  /**
   It happens with two symbols, one known period each and one symbol a run: as long as neither
   gains a period, the second one is never picked, at any later cutoff.
   */
  lemma StarvationHappens(s: string, t: string, later: seq<Row>, cutoff: int, picked: seq<Row>)
    requires s != t && cutoff >= 2
    ensures var master := [StockRow(1, s), StockRow(2, t)];
            var financials := [PeriodRow(1, s, 0), PeriodRow(2, t, 1)];
            && Sound(master, 2, {"symbol", "exchange"}, {"isin"}) && Sound(financials, 2, FINANCIALS_KEY, {})
            && Eligible(master, financials, cutoff, master[1])
            && ((forall x :: LastScraped(later, x)
                    == LastScraped(financials, x)) && Pick(master, later, cutoff, 1, picked)
                ==> master[1] !in picked)
  {
    hide LastScraped, Ahead, Pick, Sound, Eligible;
    var a, b := StockRow(1, s), StockRow(2, t);
    var financials := [PeriodRow(1, s, 0), PeriodRow(2, t, 1)];
    RealTables(s, t);
    TwoAges(financials[0], financials[1]);
    OneAhead(a, b, financials, cutoff);
    if (forall x :: LastScraped(later, x) == LastScraped(financials, x)) && Pick([a, b], later, cutoff, 1, picked) {
      OneAhead(a, b, later, cutoff);
      NeverPickedExactlyWhen([a, b], later, cutoff, 1, b);
    }
  }

  lemma OneAhead(a: Row, b: Row, financials: seq<Row>, cutoff: int)
    requires Active(a) && Active(b) && LastScraped(financials, Symbol(a)) == Some(0) && cutoff >= 2
    requires LastScraped(financials, Symbol(b)) == Some(1)
    ensures Eligible([a, b], financials, cutoff, b) && |Ahead([a, b], financials, cutoff, b)| >= 1
  {
    hide LastScraped, Symbol;
    assert a in Ahead([a, b], financials, cutoff, b);
  }

  lemma RealTables(s: string, t: string)
    requires s != t
    ensures Sound([StockRow(1, s), StockRow(2, t)], 2, {"symbol", "exchange"}, {"isin"})
    ensures Sound([PeriodRow(1, s, 0), PeriodRow(2, t, 1)], 2, FINANCIALS_KEY, {})
  {
    var c := "symbol";
    assert c in {"symbol", "exchange"} && c in FINANCIALS_KEY;
    assert Get(StockRow(1, s).vals, c) != Get(StockRow(2, t).vals, c);
    assert Get(PeriodRow(1, s, 0).vals, c) != Get(PeriodRow(2, t, 1).vals, c);
  }
}
