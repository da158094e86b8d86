# Verification of the market-data scraper's core

This project models, in Dafny, the parts of the repository in which a mistake would be quiet: the
guard around every upstream call, the upsert store and what the jobs do to it, the queries read
from that store, and the NAVAll parser. Each part follows the code's own branches and constants,
and is tied by proof to a plain statement of what it is for.

Run `dafny verify dfyconfig.toml`.

## What is modelled

**The fetch guard.** `CircuitBreaking` is the shared breaker. The lock covers admission and the
recording of an outcome but not the call between them, so a run is any interleaving of those two
critical sections, cancellations included, under a clock that does not go back. The class carries
the code's three fields; its ghost trace ties them to the history of outcomes, and callers are told
about outcomes only. `RateLimiting` is the lock-protected interval limiter, and `Fetching` is
`_get`: one limiter turn, then retries through the breaker.

**The keyed store.** `KeyedTable` is INSERT ... ON CONFLICT on a sequence of rows without ids.
`TableStorage` puts ids, engine-chosen default columns, unique columns, transactions and failures at
any point around it and shows that both backends' `upsert_batch` does the former. `AmfiSave` (1000-row
chunks and re-runs), `BseMaster` (a second unique column) and `TeeStorage` (two backends) are built on
it. `RunRecord` is `BaseScraper.run` with its log row and checkpoint.

**Queries.** `GrowingWalk` is a cursor walk over a table that changes between the pages;
`StocksPaging` and `FundsPaging` are the two cursor-paged lists, `LatestRows` compares the four ways
the repository asks for a latest row, `StaleSymbols`, `FinancialsSave` and `Starvation` are the
selection of symbols to scrape next and what a scrape does to it, `Placeholders` and `RouterQueries`
are the `$n` to `?` translation and the queries built for it, and `IsoTime` is ISO text standing in
for time order. Where SQL leaves an order open, the query is a relation and the theorems hold for
every order an engine may choose.

**Text.** `NavAll` is the header-carrying line parser with a print and parse round trip; `Volume` is
`normalize_volume`. `Decimal`, `PythonText`, `Paging` and `Common` are shared helpers.

## What turned out to need a condition

- The half-open state admits any number of probes at once, not one
  (`CircuitBreaking.HalfOpenAdmitsAnyNumberOfProbes`).
- A threshold or reset of 0 falls back to the configured default, because of `or`
  (services/circuit_breaker.py:32-33). The tests that pass `reset_seconds=0`
  (tests/test_services/test_circuit_breaker.py:43-59) read it as "at once".
- scripts/cmots/comments.py:320-324 promises jitter and a `RetryError` branch. The code has no jitter,
  and `reraise=True` means that branch is never reached; the model follows the code. All the retries of
  one `_get` share a single rate-limiter turn.
- The breaker stops the retries of a failing upstream at the tripping call exactly when the wait after
  that call is shorter than the reset window (`Fetching.CutExactlyWhen`), and never exactly when every
  wait from that call on outlasts it (`Fetching.UncutExactlyWhen`). The calls of one `_get` keep the
  limiter's interval exactly when each reply and wait last that long (`Fetching.SpacedExactlyWhen`,
  `Fetching.FirstRetryComesSoon`).
- A walk of `/mutual-funds` shows a scheme twice unless its latest row is also its last inserted one
  (`FundsPaging.SchemesOnceExactlyWhen`). The historical ingest, which nothing calls yet,
  would write the newest day first (`FundsPaging.BackfillRepeatsScheme`).
- Two backends agree on a first-wins key exactly when the first rows they accepted for it are the
  same, and then for ever (`TeeStorage.FirstWinsAgreesExactlyWhen`, `TeeStorage.FirstWinsIsForEver`):
  a re-scraped article whose first batch only the secondary missed differs for good
  (`TeeStorage.RescrapedNewsDiffers`).
- Leaving the fraction out of ISO text is order-safe only because `+` and `-` sort before `.`
  (`IsoTime.OtherSuffixesBreakTheOrder`), and text of different offsets, which `normalize_datetime` keeps,
  does not sort by time (`IsoTime.OffsetsAgreeExactlyWhen`, `IsoTime.TwoOffsetsBreakTheOrder`).
- A unit word longer than L or Cr counts only when it stands apart from the number: "5 lakh" reads as
  500000 and "5lakh" as 5 (`Volume.ReadUnit`, `Volume.GluedWordsAreNotSeen`).
- Overlapping runs of one source can move its checkpoint back (`RunRecord.OverlappingRunsGoBack`);
  the NSE jobs share a scraper.
- A save makes a symbol fresher exactly when it brings a new period of it
  (`FinancialsSave.FresherExactlyWhen`), so a symbol with `limit` eligible ones ahead of it is never
  picked as long as none of them gains a period (`Starvation.StarvesExactlyWhen`).

## Model

| member | source | states |
|---|---|---|
| CircuitBreaking.RejectedExactlyWhen | services/circuit_breaker.py:46-96 | after any interleaving, a call is rejected exactly when the recorded outcomes end in at least the threshold's number of failures and the last of them is less than the reset window old |
| CircuitBreaking.StateFollowsOutcomes | services/circuit_breaker.py:46-96 | every run keeps: CLOSED, fewer failures than the threshold and no opening time say the same; the counter is the tail of failures; the opening time is that of the last failure; half-open is only seen once the window is over |
| CircuitBreaking.TailMeaning | services/circuit_breaker.py:69-92 | the consecutive-failure count reaches k exactly when the last k outcomes are failures |
| CircuitBreaking.RetryHintIsEnough | services/circuit_breaker.py:53-58 | the hint lies between 0 and the reset window, and without a failure meanwhile any call made that long after it is admitted, whatever else happens |
| CircuitBreaking.HintIsWhatIsLeft | services/circuit_breaker.py:98-101 | the hint is what is left of the reset window since the last recorded failure, and never negative |
| CircuitBreaking.HintIsExact | services/circuit_breaker.py:53-58 | with only admissions and cancellations meanwhile, a later call is admitted exactly when at least the hint has passed |
| CircuitBreaking.OutcomesOfRun | services/circuit_breaker.py:60-67 | without a failure, the outcomes stay the same or end in a success |
| CircuitBreaking.FailureOpensExactlyWhen | services/circuit_breaker.py:69-84 | a failure leaves the breaker open, from now, exactly when the tail of failures has reached the threshold |
| CircuitBreaking.HalfOpenAdmitsAnyNumberOfProbes | services/circuit_breaker.py:52-58 | for every n some legal run has n calls in flight in the half-open state |
| CircuitBreaking.CircuitBreaker.constructor | services/circuit_breaker.py:25-37 | starts closed with no failures, no opening time and an empty history; None and 0 fall back to the default given, any other value is taken |
| CircuitBreaking.CircuitBreaker.TransitionToHalfOpenIfDue | services/circuit_breaker.py:46-50 | only an open breaker whose window is over becomes half-open; nothing else changes |
| CircuitBreaking.CircuitBreaker.Enter | services/circuit_breaker.py:53-58 | the admission section: rejected exactly when the history says so, and told exactly the rest of the window since the last failure |
| CircuitBreaking.CircuitBreaker.RecordFailure | services/circuit_breaker.py:69-84 | the failure section: open afterwards exactly when the history ends in a threshold of failures, and then from now |
| CircuitBreaking.CircuitBreaker.RecordSuccess | services/circuit_breaker.py:86-92 | the success section: back to the initial state from any state |
| RateLimiting.SpacedApart | scrapers/base.py:85-91 | for any queue of acquires, completions i and j are at least (j - i) intervals apart |
| RateLimiting.WindowBound | scrapers/base.py:77-91 | any window of length W holds at most floor(W / interval) + 1 completions |
| RateLimiting.WindowBoundIsReached | scrapers/base.py:77-91 | some queue fills a window to that bound |
| RateLimiting.CompletionsSnoc | scrapers/base.py:85-91 | one more acquire adds one completion computed from the last one |
| RateLimiting.RateLimiter.Acquire | scrapers/base.py:85-91 | completes no earlier than now and an interval after the last; with an exact sleep, at the later of the two |
| Fetching.CallCount | scrapers/base.py:173-185 | for every upstream, the calls go on exactly up to the first one whose reply is not retried, which is the last retry, or which leaves the breaker tripped with a wait shorter than the reset window |
| Fetching.EndingAndBackoff | scrapers/base.py:173-193 | for every upstream, how the fetch ends (refused exactly when the last reply was retryable with retries left, and then with the rest of the window as hint) and the sum of the waits it took |
| Fetching.PersistentFailure | scrapers/base.py:173-193 | with exact sleeps, an upstream that keeps failing gets max(1, threshold - failures) calls if the wait after that call is shorter than the reset window and retries are left, else all the retries, and none when first rejected; with a window above 30 s the smaller of the two |
| Fetching.CutExactlyWhen | scrapers/base.py:173-185 | for any sleeps, a failing upstream is cut short at the tripping call exactly when the wait after that one call is shorter than the reset window |
| Fetching.UncutExactlyWhen | services/circuit_breaker.py:46-50 | it gets all the retries exactly when every wait from the tripping call on outlasts the reset window |
| Fetching.SpacedExactlyWhen | scrapers/base.py:156-185 | the calls of one fetch, which share one limiter turn, are an interval apart exactly when each reply before the first reason to stop, and the wait after it, last that long |
| Fetching.FirstRetryComesSoon | scrapers/base.py:175 | with an interval of two seconds they are not: a quick failure is retried after one |
| Fetching.ShortIntervalsAreKept | scrapers/base.py:175 | sleeps no shorter than asked keep any interval of at most one second |
| Fetching.FirstWaits | scrapers/base.py:175 | the waits add up to 1, 3, 7, 15, 31 and then 30 more each |
| Fetching.CallThroughBreaker | services/circuit_breaker.py:52-67 | one call through the breaker with nothing in between: the decision and the state it leaves |
| Fetching.RetryThroughBreaker | scrapers/base.py:172-185 | the retry loop over the shared breaker computes the recursive description of the attempts |
| Fetching.Get | scrapers/base.py:148-193 | one limiter turn for all attempts; no upstream call and the exact hint when the history rejects, else calls from that turn on up to the first reason to stop |
| KeyedTable.PutAllKeepsKeys | services/sqlite_storage.py:152-178 | a batch keeps the key unique and every earlier row in its place with its key |
| KeyedTable.OldRowsTakeLastWrite | services/sqlite_storage.py:157-166 | a row that was there takes the updated columns of the last batch row with its key, and nothing else |
| KeyedTable.BatchKeysArePresent | services/sqlite_storage.py:157-166 | every key of the batch is in the table afterwards with the updated columns of its last write |
| KeyedTable.KnownKeysAddNoRows | services/sqlite_storage.py:157-166 | a batch of known keys adds no row |
| KeyedTable.PutAllSplits | services/sqlite_storage.py:169-176 | a batch split anywhere equals its parts one after the other |
| KeyedTable.Idempotent | README.md:231-233 | running a batch again changes nothing, with repeated keys and any update list |
| KeyedTable.CrashAndRerun | README.md:231-233 | a batch cut off after any prefix and then run in full ends where one clean run ends |
| TableStorage.StatementIsPut | services/sqlite_storage.py:157-166 | seen through the batch's columns, a statement on real rows is the id-free statement, whatever ids and defaults the engine chose |
| TableStorage.StatementGrows | services/sqlite_storage.py:157-166 | updates keep ids and untouched columns; inserts come last with a larger id |
| TableStorage.StatementKeepsKeys | database/schema_sqlite.sql:33 | a statement keeps the composite key unique |
| TableStorage.AcceptsKeyedRows | database/schema_sqlite.sql:22-33 | with no unique column beside the key, a batch passes the constraints exactly when no row lacks a key column |
| TableStorage.ClauseMeaning | services/sqlite_storage.py:152-163 | the update list: the given one, else every column that is neither in the conflict target nor the id |
| TableStorage.ExecuteMany | services/sqlite_storage.py:169-171 | the transaction: exactly the batch, or nothing; refused only for a broken constraint, an engine fault only where the engine fails, and in otherwise |
| TableStorage.Table.UpsertBatch | services/sqlite_storage.py:131-178 | it goes in exactly when connected, aimed at the key, accepted by the constraints and met by no engine fault; all or nothing; contents are the batch on top of the old contents, ids and other columns kept, (rows, 0) returned, and the error cases |
| AmfiSave.SaveChunk | scrapers/amfi.py:157-162 | one chunk is applied whole, exactly when its keys are given and the engine does not fail, or not at all |
| AmfiSave.Save | scrapers/amfi.py:150-164 | exactly the chunks before the first that cannot go in are in, and that chunk is the reason for the failure; on success all records, counted |
| AmfiSave.RerunAfterCrashes | README.md:231-233 | after any number of cut-off runs, a full run leaves what one clean unchunked upsert leaves, in the same order |
| AmfiSave.SaveAgain | scrapers/amfi.py:150-164 | saving again after a first attempt that may have failed anywhere succeeds when the engine does and no key is missing, and gives the clean result |
| BseMaster.KeptIndices | scrapers/bse.py:122-147 | the surviving records: all and only those that are well-formed and first with their ISIN, in order |
| BseMaster.NormalizeMaster | scrapers/bse.py:122-147 | the loop with its set of seen ISINs returns one row for each surviving record, column by column: its symbol, exchange BSE, its ISIN, is_active 1, no market cap or listing date, its own other columns |
| BseMaster.RowColumns | scrapers/bse.py:133-145 | what each column of a row says |
| BseMaster.UpdatedColumns | services/sqlite_storage.py:155-163 | an upsert of the master overwrites every column but symbol and exchange |
| BseMaster.KeptRowsAreClean | scrapers/bse.py:122-147 | the surviving rows have every column and a key and repeat no ISIN |
| BseMaster.StatementFits | database/schema_sqlite.sql:22-33 | one statement keeps ISINs unique exactly when no row with another key holds its ISIN |
| BseMaster.GoesInExactlyWhen | services/sqlite_storage.py:169-176 | a clean batch passes the constraints exactly when each of its ISINs is free at its turn, read off the table and the batch beforehand |
| BseMaster.OwnIsinsGoIn | scrapers/bse.py:122-147 | it passes when every stored ISIN it carries belongs to the row with the same key, whatever symbols repeat |
| BseMaster.KeptRecordIsHeld | services/sqlite_storage.py:157-166 | after the batch, the BSE row of a surviving record says what the last surviving record with its symbol says |
| BseMaster.SaveMaster | scrapers/bse.py:122-147 | normalize then save: in exactly when every ISIN is free at its turn and the engine does not fail; then each surviving record has a BSE row that says what the last one of its symbol says; an unchanged table on any failure |
| TeeStorage.LastWriteIsHeld | services/sqlite_storage.py:157-163 | with every other column updated, a key holds its last write |
| TeeStorage.FirstWriteIsHeld | scrapers/moneycontrol.py:187-191 | with no update column, a key holds what it held or else its first write |
| TeeStorage.SecondaryKeysAreInPrimary | services/storage.py:148-155 | the secondary never holds a key the primary lacks |
| TeeStorage.OverwriteAgreesExactlyWhen | services/storage.py:148-155 | overwrite tables: after any run, with any failures, the backends agree on a key exactly when the last rows they accepted for it are the same, the start row standing in where there is none |
| TeeStorage.OverwriteAgreement | services/storage.py:148-155 | so they agree once the last batch with the key that the primary accepted also reached the secondary |
| TeeStorage.FirstWinsAgreesExactlyWhen | scrapers/moneycontrol.py:187-191 | first-wins tables: after any run, the backends agree on a new key exactly when the first rows they accepted for it are the same |
| TeeStorage.FirstWinsIsForEver | scrapers/moneycontrol.py:187-191 | once both hold the key, no further run changes whether they agree |
| TeeStorage.FirstWinsAgreement | scrapers/moneycontrol.py:187-191 | so they agree for ever if the first batch with a new key reached both |
| TeeStorage.MissedFirstWriteAgreesExactlyWhen | scrapers/moneycontrol.py:187-191 | and if the secondary missed that batch and took a later one, they agree exactly when the two batches carry the same row |
| TeeStorage.RescrapedNewsDiffers | scrapers/moneycontrol.py:159-192 | one article scraped twice, the first time missed by the secondary: each scrape stamps its own scraped_at, so the backends never agree on it again |
| TeeStorage.Tee.UpsertBatch | services/storage.py:145-155 | the primary's answer and state; the secondary takes the batch exactly when the primary did and nothing on its own side stands in the way, and its failure is not seen |
| RunRecord.RunStore.UpdateCheckpoint | services/sqlite_storage.py:230-251 | the row takes the run time, and the success time and cursor only when given; other sources keep theirs; the table stays the upsert of all writes so far |
| RunRecord.Scraper.Run | scrapers/base.py:211-271 | status, counts and error for each way a run can go: an open circuit is SKIPPED, any other exception FAILED, an empty fetch SKIPPED; log then checkpoint, either of which may fail; nothing recorded when start raises |
| RunRecord.Scraper.RunAll | scrapers/base.py:211-271 | over any sequence of runs: one log row for each logged run, in order, that describes it (counts are zero without SUCCESS); afterwards last_run_at is the end of the last recorded run and last_success_at that of the last recorded SUCCESS, and other sources are untouched |
| RunRecord.CheckpointMeaning | services/sqlite_storage.py:237-251 | last_run_at is the end of the source's latest recorded run and last_success_at that of its latest recorded success, whatever other sources write |
| RunRecord.CursorMeaning | services/sqlite_storage.py:237-251 | the cursor is the one written last for that source |
| RunRecord.NeverGoesBack | services/sqlite_storage.py:237-251 | with runs recorded in the order they ended, neither time decreases or returns to null |
| RunRecord.NeverGoesBackExactlyWhen | services/sqlite_storage.py:237-251 | rows never go back exactly when the source's recorded runs ended in the order they were recorded |
| RunRecord.SuccessIsARun | services/sqlite_storage.py:237-251 | in that order, last_success_at is at most last_run_at |
| RunRecord.SequentialRunsAreInOrder | scrapers/base.py:242-257 | runs that do not overlap are recorded in the order they end |
| RunRecord.SequentialRunsNeverGoBack | scrapers/base.py:211-261 | so over any number of runs that do not overlap, some of whose writes fail, neither time decreases or returns to null and the last success is at most the last run |
| RunRecord.OverlappingRunsGoBack | services/scheduler.py:78-101 | two overlapping runs can leave last_run_at before last_success_at |
| GrowingWalk.WalkAscends | api/routers/stocks.py:43-56 | for any query that lists rows above a cursor in id order: whatever is upserted between pages, the walk lists rows in id order and none twice |
| GrowingWalk.WalkMissesNothing | api/routers/stocks.py:43-56 | a finished walk lists every row the query offered at each page it was there for, rows inserted meanwhile included |
| GrowingWalk.WalkEnds | api/routers/stocks.py:43-56 | once inserts stop, the walk ends within rows / limit + 1 pages |
| GrowingWalk.GrownTablesEvolve | services/sqlite_storage.py:157-166 | upserts between pages keep rows in place with their ids and add new ones last |
| StocksPaging.StocksAscend | api/routers/stocks.py:33-56 | so the stocks walk lists rows that meet the filters, in id order and none twice |
| StocksPaging.StocksMissNothing | api/routers/stocks.py:33-56 | and a finished one every row that met the filters at each page it was there for |
| StocksPaging.PagesAreTheQuery | api/routers/stocks.py:43-56 | over a table at rest, its pages put together are the query without a limit |
| StocksPaging.WalkListsExactly | api/routers/stocks.py:33-56 | which is exactly the active rows above the cursor with the sector and the capitalised exchange asked for |
| Paging.FullPageAdvances | api/routers/stocks.py:52-54 | a full page uses up at least limit of the ids above the cursor |
| FundsPaging.WalkAscends | api/routers/mutual_funds.py:23-46 | a walk over a fixed table lists matching rows in id order and none twice |
| FundsPaging.RankOneMeaning | api/routers/mutual_funds.py:32-44 | a row ranks first exactly when, of the matching rows of its scheme above the cursor, none has a later date and none of the same date a smaller id |
| FundsPaging.LatestIsListed | api/routers/mutual_funds.py:32-44 | every matching scheme's latest row is listed, at any page size |
| FundsPaging.OnlyLatestListed | api/routers/mutual_funds.py:32-44 | when latest rows are last inserted, only latest rows are listed |
| FundsPaging.SchemesOnceExactlyWhen | api/routers/mutual_funds.py:32-44 | no walk at any page size shows a scheme twice exactly when every scheme's latest matching row has the largest id among its matching rows |
| FundsPaging.IdsFollowDates | api/routers/mutual_funds.py:32-44 | ids that follow nav_date within each scheme are enough for that |
| FundsPaging.BackfillRepeatsScheme | scrapers/amfi.py:44-59 | a newer day and then an older one, upserted as the historical ingest would write them, leave a table whose walk lists the scheme twice |
| FundsPaging.GrowingWalkAscends | api/routers/mutual_funds.py:23-46 | also when upserts run between the pages no row is listed twice |
| FundsPaging.GrowingWalkMissesNothing | api/routers/mutual_funds.py:32-44 | and a row that ranks first at every page it is there for is listed |
| LatestRows.MaxJoinIsLatest | database/schema_sqlite.sql:235-247 | the MAX join returns exactly the rows no later row of their group exceeds |
| LatestRows.MaxJoinColumns | database/schema_sqlite.sql:235-247 | the same off the columns: the largest time among the rows with the same group value |
| LatestRows.DistinctOnIsLatest | database/schema.sql:317-329 | so does DISTINCT ON in any order that sorts by group and falling time, one row per group and time given |
| LatestRows.RowNumberIsLatest | api/routers/market.py:18-26 | so does row number 1 under any numbering the window allows |
| LatestRows.LimitOneIsLatest | api/routers/stocks.py:71-73 | so does ORDER BY time DESC LIMIT 1, and it returns nothing only for an absent group |
| LatestRows.FourQueriesAgree | api/routers/market.py:18-26 | the four queries pick the same rows |
| LatestRows.ReachableTablesQualify | database/schema_sqlite.sql:63 | what a query sees of any table upserts can reach has one row per group and time, when the other key columns are fixed |
| LatestRows.TiesSeparateThem | database/schema_sqlite.sql:235-247 | for a group, the MAX join and LIMIT 1 agree exactly when its latest row is unique |
| StaleSymbols.PickMeaning | services/sqlite_storage.py:253-272 | exactly what the query may return, said of the rows: at most limit active stocks, every financials row of each older than the cutoff, the earliest scraped first, none left out but by a full list of no later ones |
| StaleSymbols.FreshIsNotPicked | services/sqlite_storage.py:261-267 | a stock with a financials row at or after the cutoff is in no result |
| StaleSymbols.OverdueIsPicked | services/sqlite_storage.py:261-269 | an active stock with only older rows, or none, is in every result that is not full |
| StaleSymbols.RoundTakesLimit | services/sqlite_storage.py:253-272 | a run takes the limit off the never-scraped symbols, or all that are left |
| StaleSymbols.NeverScrapedFirst | services/sqlite_storage.py:268 | while a never-scraped symbol is left out, the pick is full and all never-scraped |
| StaleSymbols.LeftAfter | services/sqlite_storage.py:253-272 | how many never-scraped symbols are left after any number of runs |
| StaleSymbols.AllPickedExactlyWhen | services/sqlite_storage.py:253-272 | with one active row per symbol, all N never-scraped symbols have been picked exactly when limit times the runs reaches N, for any tie-breaking |
| FinancialsSave.RowsFollowPeriods | models/schemas.py:82-99 | a save inserts a row for a symbol exactly when it brings a period of it that was not there |
| FinancialsSave.AgeFollowsRows | services/sqlite_storage.py:261-264 | with new rows stamped later than the old ones, a symbol's last scrape changes exactly when it gains a row |
| FinancialsSave.FresherExactlyWhen | database/schema_sqlite.sql:88-89 | so each symbol of a batch becomes fresher exactly when the batch brings a new period of it, whatever it brings of others |
| FinancialsSave.UpdatedColumns | services/sqlite_storage.py:155-163 | an upsert of financials overwrites every column but the key, and never scraped_at |
| FinancialsSave.SaveFinancials | scrapers/screener.py:299-307 | the save goes in exactly when no key is missing and the engine does not fail; which symbols have rows afterwards and which have become fresher |
| FinancialsSave.SaveIsARound | scrapers/screener.py:299-307 | a run that saves a row for each picked symbol and no other takes exactly the picked symbols off the never-scraped ones |
| Starvation.NeverPickedExactlyWhen | services/sqlite_storage.py:261-269 | an eligible row is in no result the query may give exactly when at least limit eligible rows are strictly ahead of it |
| Starvation.AlwaysPickedExactlyWhen | services/sqlite_storage.py:261-269 | it is in every result exactly when fewer than limit others are not behind it |
| Starvation.SavesKeepAges | scrapers/screener.py:299-307 | saves that bring no period of some symbols leave them as old as they were, run after run |
| Starvation.StarvesExactlyWhen | services/sqlite_storage.py:253-272 | over any runs in which neither a symbol nor those ahead of it gain a period, no run can ever pick it exactly when at least limit were ahead of it at the start |
| Starvation.StarvesUnderSaves | scrapers/screener.py:299-307 | the same over any number of saves that bring no period of those symbols |
| Starvation.StarvationHappens | services/sqlite_storage.py:253-272 | two symbols with one known period each and a limit of 1: the second is never picked, at any later cutoff |
| Placeholders.TranslationIsFaithfulExactlyWhen | services/sqlite_storage.py:39-41 | positional binding of the translated text equals numbered binding of the original exactly when the placeholders read $1, $2, ... and there is no other $ or ? |
| Placeholders.ParamsOfJoin | services/sqlite_storage.py:35-41 | the placeholders of joined texts, when no number runs over the seam |
| Placeholders.AppendCondition | api/routers/stocks.py:35-40 | appending a condition on the next argument keeps a query in that shape |
| RouterQueries.StocksQuery | api/routers/stocks.py:33-51 | every filter combination: text, arguments, and a faithful translation |
| RouterQueries.StocksFilters | api/routers/stocks.py:33-40 | the WHERE list and the arguments grown beside it |
| RouterQueries.FundsQuery | api/routers/mutual_funds.py:23-41 | the same for the funds list |
| RouterQueries.NewsQuery | api/routers/news.py:22-35 | the same for the news list, a bound of 0.0 counting as given |
| RouterQueries.FinancialsQuery | api/routers/financials.py:21-31 | the same for the financials list |
| IsoTime.TextOrderIsTimeOrder | services/sqlite_storage.py:49-50 | for datetimes of one offset, byte order of isoformat text is instant order, with or without microseconds |
| IsoTime.IsoReadsBack | services/sqlite_storage.py:49-50 | isoformat text reads back, by position, as the same fields, fraction and offset |
| IsoTime.SqliteNowReadsBack | database/schema_sqlite.sql:88-89 | the scraped_at default reads back as the same instant to the millisecond |
| IsoTime.OffsetReadsBack | services/normalization.py:157-170 | the offset of a text reads back as its sign, hours and minutes |
| IsoTime.TextOrderAcrossOffsets | services/normalization.py:157-170 | across two offsets it is the order of the local clocks, then of the offsets' text |
| IsoTime.OffsetsAgreeExactlyWhen | services/normalization.py:157-170 | so it is time order exactly when the local clocks are not between zero and the difference of the offsets apart |
| IsoTime.TwoOffsetsBreakTheOrder | services/normalization.py:157-170 | ten o'clock in India and nine o'clock UTC of one day sort the wrong way round |
| IsoTime.DateTextOrder | services/sqlite_storage.py:49-50 | text order of plain dates is the order of the days |
| IsoTime.DateReadsBack | services/sqlite_storage.py:49-50 | the text of a plain date reads back as its day |
| IsoTime.StaleTestIsMillisecondOrder | services/sqlite_storage.py:256-267 | scraped_at < cutoff across the two formats compares whole milliseconds |
| IsoTime.OtherSuffixesBreakTheOrder | services/sqlite_storage.py:49-50 | any suffix that sorts after '.' would put a whole second after its own fractions |
| IsoTime.SecondOrder | services/sqlite_storage.py:49-50 | calendar fields in order are seconds in order, month lengths and leap years included |
| IsoTime.YearLength | services/sqlite_storage.py:49-50 | the day count of a year is the sum of its months |
| IsoTime.MonthTable | services/sqlite_storage.py:49-50 | the days before each month |
| Decimal.PadOrder | services/sqlite_storage.py:49-50 | zero-padded numbers compare as text like numbers |
| PythonText.LowerAt | scrapers/amfi.py:92 | lower moves exactly the capitals, character by character |
| PythonText.UpperAt | api/routers/stocks.py:38-40 | upper moves exactly the small letters, character by character |
| NavAll.ParseNavall | scrapers/amfi.py:63-106 | the loop with its two carried headers computes the line-by-line description, and of any text that is a printed document returns its records |
| NavAll.PrintThenParse | scrapers/amfi.py:63-106 | for every well-formed document, with padding around lines and columns: the rows with a code that is not empty and not the title, and with a number in the NAV column, come back in order, each with that number (printed with or without commas), its texts, an ISIN where the column is not empty, and its nearest preceding AMC and category |
| NavAll.ColumnsAfterStrip | scrapers/amfi.py:69-88 | stripping the line first makes no difference to its stripped columns |
| NavAll.LineReadsBack | scrapers/amfi.py:68-105 | what each kind of line does to the state, through stripping, splitting and the header pattern |
| NavAll.ConcatenationCarriesHeaders | scrapers/amfi.py:63-106 | after a text that ends with a line break, parsing goes on as with the carried headers, also when a CR LF pair is cut in two |
| NavAll.LastPrintedLine | scrapers/amfi.py:68 | a last line without a line break is read like any other |
| NavAll.CategoryLine | scrapers/amfi.py:34 | the header pattern gives back the text between the first and the last bracket, for each of the three openings |
| NavAll.AmcLine | scrapers/amfi.py:34 | it matches nothing else, so every other line without a semicolon is an AMC header |
| NavAll.TitleMeaning | scrapers/amfi.py:92 | a code is the title exactly when it spells "scheme code" in any mix of capitals |
| NavAll.QuoteMeaning | scrapers/amfi.py:94-99 | a NAV column is a number exactly when it is none of the three missing-value texts and reads as one without its commas |
| NavAll.NearestAmc | scrapers/amfi.py:79-86 | the AMC header nearest above a line |
| NavAll.NearestCategory | scrapers/amfi.py:79-86 | the category header nearest above a line |
| NavAll.UsableRows | scrapers/amfi.py:88-105 | the rows with a code and a number: all of them and in order |
| Volume.VolumeReadsBack | services/normalization.py:86-108 | a signed, Indian-grouped number with a fraction and any word for a unit, close or apart, reads back as the whole number nearest to its exact value, the even one of two |
| Volume.WholeVolumes | services/normalization.py:86-108 | for every n and unit, grouped n reads back as n times the scale of the unit |
| Volume.LakhsAndCrores | services/normalization.py:86-108 | grouped n reads back as n, with L as n x 10^5 and with Cr as n x 10^7 |
| Volume.GluedWordsAreNotSeen | services/normalization.py:30-31 | "lakh" right after the number is not seen, after a space it is |
| Volume.GroupedWithoutCommas | services/normalization.py:95 | removing the commas gives the plain numeral |
| Volume.GroupedShape | services/normalization.py:87 | commas stand before the last three digits and then before every two, and nowhere else |
| Volume.ReadNumber | services/normalization.py:101-103 | the number pattern finds sign, whole part and fraction |
| Volume.ReadBareFraction | services/normalization.py:29 | a fraction with nothing before its point is a number too |
| Volume.LeftmostNumber | services/normalization.py:100-103 | the number found is the leftmost in the text, and none is found only where there is none |
| Volume.ReadUnit | services/normalization.py:98-107 | after a text without letters, a word scales by 10^7 exactly when it ends in "cr" or, standing apart, is crs, crore or crores; else by 10^5 exactly when it ends in "l" or, standing apart, is lakh, lac or lacs; in any case |
| Volume.Round | services/normalization.py:108 | nearest whole number, ties to even |

## Left out

- HTTP, Playwright, HTML parsing, Redis, metrics, logging and the FastAPI layer: an upstream attempt is a reply, a duration and the length of the wait after it.
- Tenacity: only stop-after-n, the wait formula and which exceptions are retried.
- Sleeps are assumed to last at least as long as asked, and the monotonic clock not to go back.
- SQL engines: only the statements used, one table at a time, with the ON CONFLICT target checked before the other constraints. Any other failure is an input: the statement, or the commit, at which the engine fails, foreign keys and CHECK constraints among the reasons.
- Sharing one SQLite connection between tasks, whose commits could interleave: each upsert_batch is atomic.
- TableStorage.StatementGrows: the `updated_at` triggers are not modelled, so "kept columns" means the columns other than that one.
- An upsert whose update list names columns outside the batch, or a batch that carries `id`: no caller does either.
- TableStorage.Table.UpsertBatch: an empty batch on an unconnected store raises, as in the SQLite backend, while the Postgres backend returns (0, 0); a row that lacks a column is padded with NULL, as in SQLite, where Postgres raises KeyError.
- FinancialsSave.FresherExactlyWhen: that the engine's clock stamps new rows later than every stored one is its hypothesis; a clock set back is not modelled.
- JSON and enum encoding of column values, and the jsonb columns: values are null, integers or text.
- BseMaster.NormalizeMaster: `normalize_symbol` is applied beforehand, and ISINs come stripped, as `fetch` leaves them.
- Timestamps and dates in tables are numbers; `IsoTime` says when the text SQLite stores sorts like them: always for plain dates, and for timestamps of one offset.
- RouterQueries.StocksQuery: the fixed SQL around the conditions is a parameter (any text without a placeholder mark); the conditions are word for word.
- Placeholders.TranslationIsFaithfulExactlyWhen: SQLite's `:name`, `@name` and `?N` parameters and quoted text are not told apart, and `\d` means the ASCII digits.
- RunRecord.Scraper.Run: a run cancelled half-way, which reaches the `finally` block with its status still SUCCESS.
- NavAll.ParseNavall: Python's `float` is a parameter, any partial function from text to numbers.
- NavAll.PrintThenParse: printed lines end in CR LF or any one line break of Python's but a lone CR, which the parser reads but a next line's LF would join; only the last may lack an ending.
- Volume.VolumeReadsBack: exact arithmetic; the original's floats are exact up to 2^53. Word boundaries and case are those of ASCII text, as are `upper` and `lower` elsewhere.
- Values that are already numbers in normalize_volume, and the other small normalizers and lookups: easy.
- `/news` LIMIT and OFFSET paging, which promises nothing under inserts, and the outer ORDER BY of the movers' queries.
- Date parsing, admin authentication, the CMOTS catalog, the Excel builder, migrations and deployment files.
