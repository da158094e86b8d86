/**
 `AMFIScraper.save` of scrapers/amfi.py: an upsert in chunks of 1000 rows, each its own
 transaction.  A failing chunk raises out of the loop, so only the earlier chunks are in.
 */
module AmfiSave {
  import opened Common
  import opened KeyedTable
  import opened TableStorage

  const BATCH := 1000

  const FUND_KEY: set<string> := {"scheme_code", "nav_date"}

  /** The fields of `MutualFundIn`, all of which `model_dump` writes for every record. */
  const FUND_COLS: set<string> :=
    {"scheme_code", "isin_payout", "isin_growth", "scheme_name", "amc_name", "category", "sub_category",
     "nav", "nav_date"}

  const FUND_CLAUSE := Clause(FUND_COLS, FUND_KEY, None)

  lemma FundClauseIsProper()
    ensures Proper(FUND_CLAUSE, FUND_COLS)
    ensures FUND_CLAUSE.key == {"scheme_code", "nav_date"}
    ensures FUND_CLAUSE.update ==
            {"isin_payout", "isin_growth", "scheme_name", "amc_name", "category", "sub_category", "nav"}
  {
    assert "id" !in FUND_COLS;
  }

  /** The rows as the batch sees them, after `records` on top of `before`. */
  ghost predicate Applied(before: seq<Row>, after: seq<Row>, records: seq<Cols>) {
    && View(after, FUND_COLS) == PutAll(View(before, FUND_COLS), FUND_CLAUSE, records)
    && Grown(before, after, FUND_CLAUSE.update)
  }

  lemma AppliedInTurn(a: seq<Row>, b: seq<Row>, c: seq<Row>, first: seq<Cols>, second: seq<Cols>)
    requires Applied(a, b, first) && Applied(b, c, second)
    ensures Applied(a, c, first + second)
  {
    PutAllSplits(View(a, FUND_COLS), FUND_CLAUSE, first, second);
    GrownTransitive(a, b, c, FUND_CLAUSE.update);
  }

  lemma AppliedNothing(rows: seq<Row>)
    ensures Applied(rows, rows, [])
  {
  }

  /** No record leaves a key column empty. */
  predicate KeysGiven(records: seq<Cols>) {
    forall i | 0 <= i < |records| ::
      && "scheme_code" in records[i] && records[i]["scheme_code"] != Null
      && "nav_date" in records[i] && records[i]["nav_date"] != Null
  }

  lemma KeysGivenMeaning(records: seq<Cols>)
    ensures KeysGiven(records)
            <==> forall i, c | 0 <= i < |records| && c in FUND_KEY :: c in records[i] && records[i][c] != Null
  {
    assert "scheme_code" in FUND_KEY && "nav_date" in FUND_KEY;
    assert forall c | c in FUND_KEY :: c == "scheme_code" || c == "nav_date";
  }

  /** One chunk goes in whole exactly when its keys are given and the engine does not fail. */
  method SaveChunk(db: Table, chunk: seq<Cols>, fault: Option<nat>) returns (r: Result<(nat, nat), Failure>)
    requires db.Valid() && db.key == FUND_KEY && db.unique == {} && Uniform(chunk, FUND_COLS) && chunk != []
    modifies db
    ensures db.Valid() && db.connected == old(db.connected)
    ensures r.Ok? ==> r.value == (|chunk|, 0) && Applied(old(db.rows), db.rows, chunk)
    ensures r.Err? ==> db.rows == old(db.rows)
    ensures r.Ok? <==> db.connected && (fault.None? || fault.value > |chunk|) && KeysGiven(chunk)
  {
    hide KeysGiven;
    NormalizedIsSame(chunk, FUND_COLS);
    KeysGivenMeaning(chunk);
    r := db.UpsertBatch(chunk, FUND_KEY, None, fault);
  }

  lemma PrefixGrows(records: seq<Cols>, i: nat, end: nat)
    requires i <= end <= |records|
    ensures records[..i] + records[i..end] == records[..end]
  {
  }

  /** How many records the first `chunks` chunks hold. */
  function Saved(chunks: nat, records: seq<Cols>): (n: nat)
    ensures n <= |records| && (chunks * 1000 <= |records| ==> n == chunks * 1000)
  {
    Min(chunks * BATCH, |records|)
  }

  /** The i-th chunk of 1000 records. */
  function Chunk(records: seq<Cols>, i: nat): seq<Cols>
    requires i * 1000 < |records|
  {
    records[i * 1000..Min((i + 1) * 1000, |records|)]
  }

  /** It goes in when the engine does not fail in it and no key is missing. */
  predicate ChunkFits(records: seq<Cols>, i: nat, fault: Option<nat>)
    requires i * 1000 < |records|
  {
    (fault.None? || fault.value > |Chunk(records, i)|) && KeysGiven(Chunk(records, i))
  }

  /** `faults(i)` is the fault of the engine in the i-th chunk. */
  method Save(db: Table, records: seq<Cols>, faults: nat -> Option<nat>)
    returns (r: Result<(nat, nat), Failure>, ghost chunks: nat)
    requires db.Valid() && db.key == FUND_KEY && db.unique == {} && Uniform(records, FUND_COLS)
    modifies db
    ensures db.Valid() && db.connected == old(db.connected)
    ensures Applied(old(db.rows), db.rows, records[..Saved(chunks, records)])
    ensures r.Ok? ==> r.value == (|records|, 0) && Saved(chunks, records) == |records|
    ensures r.Err? ==> chunks * 1000 < |records|
    ensures forall i: nat | i < chunks && i * 1000 < |records| :: db.connected && ChunkFits(records, i, faults(i))
    ensures r.Err? ==> !(db.connected && ChunkFits(records, chunks, faults(chunks)))
  {
    hide Applied, Sound, KeysGiven;
    AppliedNothing(db.rows);
    assert records[..0] == [];
    if |records| == 0 {
      return Ok((0, 0)), 0;
    }
    var total := 0;
    for i := 0 to (|records| + BATCH - 1) / BATCH
      invariant total == Saved(i, records)
      invariant db.Valid() && db.connected == old(db.connected)
      invariant Applied(old(db.rows), db.rows, records[..total])
      invariant forall j: nat | j < i && j * 1000 < |records| :: db.connected && ChunkFits(records, j, faults(j))
    {
      var start, end := i * BATCH, Saved(i + 1, records);
      ghost var before := db.rows;
      assert records[start..end] == Chunk(records, i);
      var saved := SaveChunk(db, records[start..end], faults(i));
      if saved.Err? {
        return Err(saved.error), i;
      }
      AppliedInTurn(old(db.rows), before, db.rows, records[..start], records[start..end]);
      PrefixGrows(records, start, end);
      total := total + saved.value.0;
    }
    return Ok((total, 0)), (|records| + BATCH - 1) / BATCH;
  }

  /** Runs cut off one after another, each after some prefix of the records. */
  function Crashes(view: seq<Cols>, records: seq<Cols>, done: seq<nat>): seq<Cols>
    requires forall i | 0 <= i < |done| :: done[i] <= |records|
    decreases |done|
  {
    if done == [] then view
    else Crashes(PutAll(view, FUND_CLAUSE, records[..done[0]]), records, done[1..])
  }

  /**
   Crash and re-run is safe: after any number of cut-off runs, one full run leaves the rows,
   in the same order, that a single clean run over one unchunked batch leaves.
   */
  lemma {:induction false} RerunAfterCrashes(view: seq<Cols>, records: seq<Cols>, done: seq<nat>)
    requires Uniform(view, FUND_COLS) && Keyed(view, FUND_KEY) && Uniform(records, FUND_COLS)
    requires forall i | 0 <= i < |done| :: done[i] <= |records|
    ensures PutAll(Crashes(view, records, done), FUND_CLAUSE, records) == PutAll(view, FUND_CLAUSE, records)
    decreases |done|
  {
    if done != [] {
      FundClauseIsProper();
      var head := records[..done[0]];
      PutAllKeepsKeys(view, FUND_CLAUSE, head, FUND_COLS);
      RerunAfterCrashes(PutAll(view, FUND_CLAUSE, head), records, done[1..]);
      CrashAndRerun(view, FUND_CLAUSE, records, FUND_COLS, done[0]);
    }
  }

  lemma ChunksOfGivenKeys(records: seq<Cols>, i: nat)
    requires KeysGiven(records) && i * 1000 < |records|
    ensures KeysGiven(Chunk(records, i))
  {
    assert forall j | 0 <= j < |Chunk(records, i)| :: Chunk(records, i)[j] == records[i * 1000 + j];
  }

  /**
   The job run again after a first attempt that may have failed anywhere.  It succeeds when the
   engine does not fail this time and no key is missing.
   */
  method SaveAgain(db: Table, records: seq<Cols>, firstFaults: nat -> Option<nat>, faults: nat -> Option<nat>)
    returns (first: Result<(nat, nat), Failure>, second: Result<(nat, nat), Failure>)
    requires db.Valid() && db.key == FUND_KEY && db.unique == {} && Uniform(records, FUND_COLS)
    modifies db
    ensures db.Valid() && db.connected == old(db.connected)
    ensures second.Ok? ==>
              View(db.rows, FUND_COLS) == PutAll(View(old(db.rows), FUND_COLS), FUND_CLAUSE, records)
    ensures db.connected && KeysGiven(records) && (forall i :: faults(i).None?) ==> second.Ok?
  {
    hide KeysGiven;
    FundClauseIsProper();
    KeyedInView(db.rows, FUND_KEY, FUND_COLS);
    ghost var start := View(db.rows, FUND_COLS);
    ghost var chunks;
    first, chunks := Save(db, records, firstFaults);
    ghost var done := Saved(chunks, records);
    RerunAfterCrashes(start, records, [done]);
    assert Crashes(start, records, [done]) == PutAll(start, FUND_CLAUSE, records[..done]) by {
      assert [done][1..] == [];
    }
    second, chunks := Save(db, records, faults);
    assert records[..|records|] == records;
    if second.Err? && KeysGiven(records) {
      ChunksOfGivenKeys(records, chunks);
    }
  }
}
