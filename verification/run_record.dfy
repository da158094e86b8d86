/**
 `BaseScraper.run` of scrapers/base.py with the run log and the checkpoint upsert of
 services/sqlite_storage.py and services/db_service.py.

 What fetch, normalize, save and the two writes do is an environment; times are instants.
 */
module RunRecord {
  import opened Common

  datatype Source = Nse | Bse | Screener | Moneycontrol | Amfi

  datatype Status = Success | Failed | Skipped

  /** `CircuitOpenException`, or any other exception. */
  datatype Trouble = CircuitOpen | OtherError

  /** One run's surroundings: how many records fetch found, what each step raised, which writes fail. */
  datatype Env = Env(startFails: bool, fetched: Result<nat, Trouble>, normalized: Option<Trouble>,
                     saved: Result<(nat, nat), Trouble>, logFails: bool, checkpointFails: bool,
                     startedAt: int, endedAt: int)

  // ---------------------------------------------------------------- what a run amounts to

  predicate Succeeds(e: Env) {
    e.fetched.Ok? && e.fetched.value > 0 && e.normalized.None? && e.saved.Ok?
  }

  /** The exception that ends the run, if any: an empty fetch ends it before the later steps. */
  function Raised(e: Env): Option<Trouble> {
    if e.fetched.Err? then Some(e.fetched.error)
    else if e.fetched.value == 0 then None
    else if e.normalized.Some? then e.normalized
    else if e.saved.Err? then Some(e.saved.error)
    else None
  }

  datatype LogRow = LogRow(source: Source, status: Status, inserted: nat, skipped: nat, hasError: bool,
                           startedAt: int, endedAt: int)

  /** One call of `update_checkpoint`. */
  datatype Write = Write(source: Source, lastRunAt: int, lastSuccessAt: Option<int>, cursor: Option<string>)

  /** The log row says what happened: counts only with SUCCESS, an error exactly when one was raised. */
  predicate Describes(row: LogRow, source: Source, e: Env) {
    && row.source == source && row.startedAt == e.startedAt && row.endedAt == e.endedAt
    && (row.status.Success? <==> Succeeds(e))
    && (row.status.Failed? <==> Raised(e) == Some(OtherError))
    && (row.status.Skipped? <==> Raised(e) == Some(CircuitOpen) || e.fetched == Ok(0))
    && (row.hasError <==> Raised(e).Some?)
    && (if Succeeds(e) then (row.inserted, row.skipped) == e.saved.value else (row.inserted, row.skipped) == (0, 0))
  }

  /** The checkpoint is only written after the log row, in the same `try`. */
  predicate Recorded(e: Env) {
    !e.startFails && !e.logFails && !e.checkpointFails
  }

  function WriteOf(source: Source, e: Env): Write {
    Write(source, e.endedAt, if Succeeds(e) then Some(e.endedAt) else None, None)
  }

  // ---------------------------------------------------------------- the checkpoint table

  datatype Checkpoint = Checkpoint(lastRunAt: int, lastSuccessAt: Option<int>, cursor: Option<string>)

  function Coalesce<T>(a: Option<T>, b: Option<T>): Option<T> {
    if a.Some? then a else b
  }

  /** INSERT ... ON CONFLICT (source) DO UPDATE with its two COALESCEs. */
  function Upsert(table: map<Source, Checkpoint>, w: Write): map<Source, Checkpoint> {
    if w.source in table then
      var was := table[w.source];
      table[w.source := Checkpoint(w.lastRunAt, Coalesce(w.lastSuccessAt, was.lastSuccessAt),
                                   Coalesce(w.cursor, was.cursor))]
    else table[w.source := Checkpoint(w.lastRunAt, w.lastSuccessAt, w.cursor)]
  }

  function After(writes: seq<Write>): map<Source, Checkpoint> {
    if writes == [] then map[] else Upsert(After(writes[..|writes| - 1]), writes[|writes| - 1])
  }

  class RunStore {
    var log: seq<LogRow>
    var checkpoints: map<Source, Checkpoint>
    ghost var writes: seq<Write>

    ghost predicate Valid()
      reads this
    {
      checkpoints == After(writes)
    }

    constructor ()
      ensures Valid() && log == [] && writes == []
    {
      log := [];
      checkpoints := map[];
      writes := [];
    }

    method LogScraperRun(row: LogRow, fails: bool) returns (ok: bool)
      modifies this`log
      ensures ok == !fails && log == if fails then old(log) else old(log) + [row]
    {
      if !fails {
        log := log + [row];
      }
      ok := !fails;
    }

    method UpdateCheckpoint(w: Write, fails: bool) returns (ok: bool)
      requires Valid()
      modifies this`checkpoints, this`writes
      ensures Valid() && ok == !fails && writes == if fails then old(writes) else old(writes) + [w]
      ensures fails ==> checkpoints == old(checkpoints)
      ensures !fails ==> w.source in checkpoints && checkpoints[w.source].lastRunAt == w.lastRunAt
      ensures !fails && w.lastSuccessAt.Some? ==> checkpoints[w.source].lastSuccessAt == w.lastSuccessAt
      ensures !fails && w.lastSuccessAt.None? ==>
                checkpoints[w.source].lastSuccessAt
                == if w.source in old(checkpoints) then old(checkpoints)[w.source].lastSuccessAt else None
      ensures !fails && w.cursor.Some? ==> checkpoints[w.source].cursor == w.cursor
      ensures !fails && w.cursor.None? ==>
                checkpoints[w.source].cursor
                == if w.source in old(checkpoints) then old(checkpoints)[w.source].cursor else None
      ensures forall s | s != w.source :: s in checkpoints <==> s in old(checkpoints)
      ensures forall s | s != w.source && s in checkpoints :: checkpoints[s] == old(checkpoints)[s]
    {
      if !fails {
        checkpoints := Upsert(checkpoints, w);
        writes := writes + [w];
        assert writes[..|writes| - 1] == old(writes);
      }
      ok := !fails;
    }
  }

  datatype Report = Report(status: Status, inserted: nat, skipped: nat, error: Option<Trouble>, duration: int)

  /** A run that an exception ends: an open circuit is skipped, anything else has failed. */
  predicate EndsWith(r: Report, trouble: Trouble) {
    && r.error == Some(trouble) && r.inserted == 0 && r.skipped == 0
    && r.status == match trouble case CircuitOpen => Skipped case OtherError => Failed
  }

  class Scraper {
    const source: Source
    const db: RunStore
    var lastRunOk: bool

    constructor (source: Source, db: RunStore)
      ensures this.source == source && this.db == db && !lastRunOk
    {
      this.source := source;
      this.db := db;
      lastRunOk := false;
    }

    /** A failing `start` raises before anything is recorded. */
    method Run(e: Env) returns (r: Option<Report>)
      requires db.Valid()
      modifies this`lastRunOk, db
      ensures db.Valid()
      ensures r.None? <==> e.startFails
      ensures lastRunOk == if e.startFails then old(lastRunOk) else Raised(e).None?
      ensures db.writes == old(db.writes) + if Recorded(e) then [WriteOf(source, e)] else []
      ensures if e.startFails || e.logFails then db.log == old(db.log)
              else |db.log| == |old(db.log)| + 1 && db.log[..|old(db.log)|] == old(db.log)
                   && Describes(db.log[|old(db.log)|], source, e)
      ensures r.Some? ==> Describes(LogRow(source, r.value.status, r.value.inserted, r.value.skipped,
                                           r.value.error.Some?, e.startedAt, e.endedAt), source, e)
      ensures r.Some? ==> r.value.error == Raised(e) && r.value.duration == e.endedAt - e.startedAt
      ensures r.Some? && e.fetched.Err? ==> EndsWith(r.value, e.fetched.error)
      ensures r.Some? && e.fetched == Ok(0) ==> r.value.status == Skipped && r.value.error == None
      ensures r.Some? && e.fetched.Ok? && e.fetched.value > 0 ==>
                match (e.normalized, e.saved)
                case (Some(trouble), _) => EndsWith(r.value, trouble)
                case (None, Err(trouble)) => EndsWith(r.value, trouble)
                case (None, Ok(counts)) =>
                  r.value.status == Success && (r.value.inserted, r.value.skipped) == counts && r.value.error == None
      ensures Recorded(e) ==>
                db.writes[|old(db.writes)|..]
                == [Write(source, e.endedAt, if r.value.status == Success then Some(e.endedAt) else None, None)]
      ensures r.Some? && !e.logFails ==>
                db.log[|old(db.log)|] == LogRow(source, r.value.status, r.value.inserted, r.value.skipped,
                                                r.value.error.Some?, e.startedAt, e.endedAt)
    {
      if e.startFails {
        return None;
      }
      var inserted, skipped := 0, 0;
      var status := Success;
      var error: Option<Trouble> := None;
      if e.fetched.Err? {
        error := Some(e.fetched.error);
      } else if e.fetched.value == 0 {
        status := Skipped;
      } else if e.normalized.Some? {
        error := e.normalized;
      } else if e.saved.Err? {
        error := Some(e.saved.error);
      } else {
        inserted, skipped := e.saved.value.0, e.saved.value.1;
      }
      if error.None? {
        lastRunOk := true;
      } else if error.value.CircuitOpen? {
        status, lastRunOk := Skipped, false;
      } else {
        status, lastRunOk := Failed, false;
      }
      var row := LogRow(source, status, inserted, skipped, error.Some?, e.startedAt, e.endedAt);
      var logged := db.LogScraperRun(row, e.logFails);
      if logged {
        var w := Write(source, e.endedAt, if status == Success then Some(e.endedAt) else None, None);
        var wrote := db.UpdateCheckpoint(w, e.checkpointFails);
      }
      return Some(Report(status, inserted, skipped, error, e.endedAt - e.startedAt));
    }

    /** Any number of runs, one after another. */
    method RunAll(es: seq<Env>)
      requires db.Valid()
      modifies this`lastRunOk, db
      ensures db.Valid() && db.writes == old(db.writes) + WritesOf(source, es)
      ensures LogGrows(old(db.log), db.log, source, Logged(es))
      ensures RowOf(db.checkpoints, source) == RowAfter(RowOf(old(db.checkpoints), source), es)
      ensures forall other | other != source :: RowOf(db.checkpoints, other) == RowOf(old(db.checkpoints), other)
    {
      hide Describes, EndsWith, RowAfter, After, Succeeds, Raised, Recorded, LastRecorded, LastRecordedSuccess;
      for i := 0 to |es|
        invariant db.Valid() && db.writes == old(db.writes) + WritesOf(source, es[..i])
        invariant LogGrows(old(db.log), db.log, source, Logged(es[..i]))
      {
        var _ := Run(es[i]);
        assert es[..i + 1][..i] == es[..i];
      }
      assert es[..|es|] == es;
      RunsDecide(old(db.writes), source, es);
    }
  }

  /** The runs of a sequence that get a log row. */
  function Logged(es: seq<Env>): seq<Env> {
    if es == [] then []
    else
      var last := es[|es| - 1];
      Logged(es[..|es| - 1]) + if last.startFails || last.logFails then [] else [last]
  }

  /** The log kept its rows and gained one for each of these runs, in order, describing it. */
  predicate LogGrows(before: seq<LogRow>, after: seq<LogRow>, source: Source, es: seq<Env>) {
    && |after| == |before| + |es| && after[..|before|] == before
    && forall i | 0 <= i < |es| :: Describes(after[|before| + i], source, es[i])
  }

  /** The checkpoint writes of a sequence of runs. */
  function WritesOf(source: Source, es: seq<Env>): seq<Write> {
    if es == [] then []
    else
      var last := es[|es| - 1];
      WritesOf(source, es[..|es| - 1]) + if Recorded(last) then [WriteOf(source, last)] else []
  }

  // ---------------------------------------------------------------- from runs to the checkpoint

  /** The last run whose checkpoint was written. */
  function LastRecorded(es: seq<Env>): (r: Option<Env>)
    ensures r.None? <==> forall e | e in es :: !Recorded(e)
    ensures r.Some? ==> exists i: nat | i < |es| :: es[i] == r.value && Recorded(es[i])
                                                    && forall j | i < j < |es| :: !Recorded(es[j])
  {
    if es == [] then None
    else if Recorded(es[|es| - 1]) then Some(es[|es| - 1])
    else LastRecorded(es[..|es| - 1])
  }

  predicate RecordedSuccess(e: Env) {
    Recorded(e) && Succeeds(e)
  }

  /** The last of those that was a SUCCESS. */
  function LastRecordedSuccess(es: seq<Env>): (r: Option<Env>)
    ensures r.None? <==> forall e | e in es :: !RecordedSuccess(e)
    ensures r.Some? ==> exists i: nat | i < |es| :: es[i] == r.value && RecordedSuccess(es[i])
                                                    && forall j | i < j < |es| :: !RecordedSuccess(es[j])
  {
    if es == [] then None
    else if RecordedSuccess(es[|es| - 1]) then Some(es[|es| - 1])
    else LastRecordedSuccess(es[..|es| - 1])
  }

  function RowOf(table: map<Source, Checkpoint>, source: Source): Option<Checkpoint> {
    if source in table then Some(table[source]) else None
  }

  /**
   A source's row after some runs: `last_run_at` is the end of the last recorded one,
   `last_success_at` that of the last recorded SUCCESS, and what it was where there is none.
   */
  function RowAfter(was: Option<Checkpoint>, es: seq<Env>): Option<Checkpoint> {
    var run, success := LastRecorded(es), LastRecordedSuccess(es);
    if run.None? then was
    else
      var successBefore := if was.Some? then was.value.lastSuccessAt else None;
      var cursorBefore := if was.Some? then was.value.cursor else None;
      var lastSuccessAt := if success.Some? then Some(success.value.endedAt) else successBefore;
      Some(Checkpoint(run.value.endedAt, lastSuccessAt, cursorBefore))
  }

  lemma {:induction false} RunsDecide(writes: seq<Write>, source: Source, es: seq<Env>)
    ensures RowOf(After(writes + WritesOf(source, es)), source) == RowAfter(RowOf(After(writes), source), es)
    ensures forall other | other != source ::
              RowOf(After(writes + WritesOf(source, es)), other) == RowOf(After(writes), other)
  {
    hide After, RowAfter, LastRecorded, LastRecordedSuccess, Recorded;
    if es == [] {
      assert writes + [] == writes;
      NoRuns(RowOf(After(writes), source));
    } else {
      var before, last := es[..|es| - 1], es[|es| - 1];
      RunsDecide(writes, source, before);
      OneMoreRun(RowOf(After(writes), source), before, last);
      assert before + [last] == es;
      var w, earlier := WriteOf(source, last), writes + WritesOf(source, before);
      if Recorded(last) {
        assert writes + WritesOf(source, es) == earlier + [w];
        OneMoreWrite(earlier, w);
      } else {
        assert writes + WritesOf(source, es) == earlier;
      }
    }
  }

  lemma NoRuns(was: Option<Checkpoint>)
    ensures RowAfter(was, []) == was
  {
  }

  lemma OneMoreWrite(earlier: seq<Write>, w: Write)
    ensures After(earlier + [w]) == Upsert(After(earlier), w)
  {
    assert (earlier + [w])[..|earlier|] == earlier;
  }

  lemma OneMoreRun(was: Option<Checkpoint>, before: seq<Env>, last: Env)
    ensures RowAfter(was, before + [last])
            == if !Recorded(last) then RowAfter(was, before)
               else
                 var now := RowAfter(was, before);
                 var successBefore := if now.Some? then now.value.lastSuccessAt else None;
                 Some(Checkpoint(last.endedAt, if Succeeds(last) then Some(last.endedAt) else successBefore,
                                 if now.Some? then now.value.cursor else None))
  {
    SuccessesAreRecorded(before);
    assert (before + [last])[..|before|] == before;
  }

  lemma SuccessesAreRecorded(es: seq<Env>)
    ensures LastRecordedSuccess(es).Some? ==> LastRecorded(es).Some?
  {
    if LastRecordedSuccess(es).Some? {
      var i: nat :| i < |es| && es[i] == LastRecordedSuccess(es).value && RecordedSuccess(es[i]);
      assert es[i] in es && Recorded(es[i]);
    }
  }

  // ---------------------------------------------------------------- what the checkpoint means

  /** The latest write of a source. */
  function LatestRun(writes: seq<Write>, source: Source): (r: Option<int>)
    ensures r.None? <==> forall w | w in writes :: w.source != source
    ensures r.Some? ==> exists i: nat | i < |writes| :: writes[i].source == source && writes[i].lastRunAt == r.value
                                                        && forall j | i < j < |writes| :: writes[j].source != source
  {
    if writes == [] then None
    else
      var last := writes[|writes| - 1];
      if last.source == source then Some(last.lastRunAt) else LatestRun(writes[..|writes| - 1], source)
  }

  predicate Reports(w: Write, source: Source) {
    w.source == source && w.lastSuccessAt.Some?
  }

  /** The latest write of a source that carries a success time. */
  function LatestSuccess(writes: seq<Write>, source: Source): (r: Option<int>)
    ensures r.None? <==> forall w | w in writes :: !Reports(w, source)
    ensures r.Some? ==> exists i: nat | i < |writes| :: Reports(writes[i], source) && writes[i].lastSuccessAt == r
                                                        && forall j | i < j < |writes| :: !Reports(writes[j], source)
  {
    if writes == [] then None
    else
      var last := writes[|writes| - 1];
      if Reports(last, source) then last.lastSuccessAt else LatestSuccess(writes[..|writes| - 1], source)
  }

  lemma SuccessesAreRuns(writes: seq<Write>, source: Source)
    ensures LatestSuccess(writes, source).Some? ==> LatestRun(writes, source).Some?
  {
    if LatestSuccess(writes, source).Some? {
      var i: nat :| i < |writes| && Reports(writes[i], source);
      assert writes[i] in writes;
    }
  }

  /** The latest cursor written for a source. */
  function LatestCursor(writes: seq<Write>, source: Source): (r: Option<string>)
    ensures r.None? <==> forall w | w in writes && w.source == source :: w.cursor.None?
  {
    if writes == [] then None
    else
      var last := writes[|writes| - 1];
      if last.source == source && last.cursor.Some? then last.cursor else LatestCursor(writes[..|writes| - 1], source)
  }

  /** The cursor is the latest one written for the source. */
  lemma {:induction false} CursorMeaning(writes: seq<Write>, source: Source)
    ensures source in After(writes) ==> After(writes)[source].cursor == LatestCursor(writes, source)
    ensures source !in After(writes) ==> LatestCursor(writes, source).None?
  {
    if writes != [] {
      CursorMeaning(writes[..|writes| - 1], source);
    }
  }

  /**
   Whatever the writes of the other sources, a row holds the end of its source's latest recorded
   run and the end of the latest recorded success; there is a row once a run was recorded.
   */
  lemma {:induction false} CheckpointMeaning(writes: seq<Write>, source: Source)
    ensures source in After(writes) <==> LatestRun(writes, source).Some?
    ensures source in After(writes) ==>
              && Some(After(writes)[source].lastRunAt) == LatestRun(writes, source)
              && After(writes)[source].lastSuccessAt == LatestSuccess(writes, source)
  {
    if writes != [] {
      var before := writes[..|writes| - 1];
      CheckpointMeaning(before, source);
      SuccessesAreRuns(before, source);
    }
  }

  /** A write as `run` makes it. */
  predicate FromRun(w: Write) {
    w.lastSuccessAt.Some? ==> w.lastSuccessAt.value == w.lastRunAt
  }

  /** The recorded runs of a source ended in the order in which they were recorded. */
  predicate InOrder(writes: seq<Write>, source: Source) {
    forall i, j | 0 <= i < j < |writes| && writes[i].source == source && writes[j].source == source ::
      writes[i].lastRunAt <= writes[j].lastRunAt
  }

  /** A later row is not behind an earlier one, and a success is never forgotten. */
  predicate NotBehind(earlier: seq<Write>, later: seq<Write>, source: Source) {
    var a, b := After(earlier), After(later);
    source in a ==>
      && source in b && a[source].lastRunAt <= b[source].lastRunAt
      && (a[source].lastSuccessAt.Some? ==>
            b[source].lastSuccessAt.Some? && a[source].lastSuccessAt.value <= b[source].lastSuccessAt.value)
  }

  lemma LatestRunIn(writes: seq<Write>, source: Source) returns (i: nat)
    requires LatestRun(writes, source).Some?
    ensures i < |writes| && writes[i].source == source && writes[i].lastRunAt == LatestRun(writes, source).value
    ensures forall j | i < j < |writes| :: writes[j].source != source
  {
    i :| i < |writes| && writes[i].source == source && writes[i].lastRunAt == LatestRun(writes, source).value
         && forall j | i < j < |writes| :: writes[j].source != source;
  }

  lemma LatestSuccessIn(writes: seq<Write>, source: Source) returns (i: nat)
    requires LatestSuccess(writes, source).Some?
    ensures i < |writes| && Reports(writes[i], source) && writes[i].lastSuccessAt == LatestSuccess(writes, source)
    ensures forall j | i < j < |writes| :: !Reports(writes[j], source)
  {
    i :| i < |writes| && Reports(writes[i], source) && writes[i].lastSuccessAt == LatestSuccess(writes, source)
         && forall j | i < j < |writes| :: !Reports(writes[j], source);
  }

  lemma LaterSuccess(writes: seq<Write>, k: nat, source: Source)
    requires k <= |writes| && InOrder(writes, source) && forall w | w in writes :: FromRun(w)
    requires LatestSuccess(writes[..k], source).Some?
    ensures LatestSuccess(writes, source).Some?
    ensures LatestSuccess(writes[..k], source).value <= LatestSuccess(writes, source).value
  {
    hide LatestSuccess;
    var i := LatestSuccessIn(writes[..k], source);
    assert writes[i] in writes && Reports(writes[i], source);
    var j := LatestSuccessIn(writes, source);
    assert i <= j && FromRun(writes[j]);
  }

  /** In order, no row ever goes back, at any point of the run of writes. */
  lemma NeverGoesBack(writes: seq<Write>, k: nat, source: Source)
    requires k <= |writes| && InOrder(writes, source) && forall w | w in writes :: FromRun(w)
    ensures NotBehind(writes[..k], writes, source)
  {
    hide LatestRun, LatestSuccess, After, InOrder;
    CheckpointMeaning(writes[..k], source);
    CheckpointMeaning(writes, source);
    if source in After(writes[..k]) {
      LaterRun(writes, k, source);
      if LatestSuccess(writes[..k], source).Some? {
        LaterSuccess(writes, k, source);
      }
    }
  }

  lemma LaterRun(writes: seq<Write>, k: nat, source: Source)
    requires k <= |writes| && InOrder(writes, source) && LatestRun(writes[..k], source).Some?
    ensures LatestRun(writes, source).Some?
    ensures LatestRun(writes[..k], source).value <= LatestRun(writes, source).value
  {
    hide LatestRun;
    var i := LatestRunIn(writes[..k], source);
    assert writes[i] in writes;
    var j := LatestRunIn(writes, source);
    assert i <= j;
  }

  /** In order, the last success is never after the last run. */
  lemma SuccessIsARun(writes: seq<Write>, source: Source)
    requires InOrder(writes, source) && forall w | w in writes :: FromRun(w)
    ensures source in After(writes) && After(writes)[source].lastSuccessAt.Some? ==>
              After(writes)[source].lastSuccessAt.value <= After(writes)[source].lastRunAt
  {
    hide LatestRun, LatestSuccess, After;
    CheckpointMeaning(writes, source);
    if source in After(writes) && After(writes)[source].lastSuccessAt.Some? {
      var i := LatestSuccessIn(writes, source);
      var j := LatestRunIn(writes, source);
      assert FromRun(writes[i]) && i <= j;
    }
  }

  /**
   The order is needed: `last_run_at` never goes back along a run of writes exactly when the
   source's recorded runs ended in the order in which they were recorded.
   */
  lemma NeverGoesBackExactlyWhen(writes: seq<Write>, source: Source)
    requires forall w | w in writes :: FromRun(w)
    ensures InOrder(writes, source)
            <==> forall k, l | 0 <= k <= l <= |writes| :: NotBehind(writes[..k], writes[..l], source)
  {
    hide LatestRun, LatestSuccess, After, NotBehind;
    if InOrder(writes, source) {
      forall k, l | 0 <= k <= l <= |writes| ensures NotBehind(writes[..k], writes[..l], source) {
        assert writes[..l][..k] == writes[..k];
        NeverGoesBack(writes[..l], k, source);
      }
    }
    if forall k, l | 0 <= k <= l <= |writes| :: NotBehind(writes[..k], writes[..l], source) {
      forall i, j | 0 <= i < j < |writes| && writes[i].source == source && writes[j].source == source
        ensures writes[i].lastRunAt <= writes[j].lastRunAt
      {
        assert NotBehind(writes[..i + 1], writes[..j + 1], source);
        JustWritten(writes, i);
        JustWritten(writes, j);
        BehindMeans(writes[..i + 1], writes[..j + 1], source);
      }
    }
  }

  lemma BehindMeans(earlier: seq<Write>, later: seq<Write>, source: Source)
    requires NotBehind(earlier, later, source) && source in After(earlier)
    ensures source in After(later) && After(earlier)[source].lastRunAt <= After(later)[source].lastRunAt
  {
  }

  lemma JustWritten(writes: seq<Write>, i: nat)
    requires i < |writes|
    ensures writes[i].source in After(writes[..i + 1])
    ensures After(writes[..i + 1])[writes[i].source].lastRunAt == writes[i].lastRunAt
  {
    assert writes[..i + 1][|writes[..i + 1]| - 1] == writes[i];
  }

  /** Runs that do not overlap: each starts once the one before it has ended. */
  predicate OneAfterAnother(es: seq<Env>) {
    && (forall i | 0 <= i < |es| :: es[i].startedAt <= es[i].endedAt)
    && (forall i | 1 <= i < |es| :: es[i - 1].endedAt <= es[i].startedAt)
  }

  lemma {:induction false} WritesEndBy(source: Source, es: seq<Env>, end: int)
    requires OneAfterAnother(es) && (es != [] ==> es[|es| - 1].endedAt <= end)
    ensures forall w | w in WritesOf(source, es) :: FromRun(w) && w.lastRunAt <= end
  {
    if es != [] {
      WritesEndBy(source, es[..|es| - 1], end);
    }
  }

  lemma InOrderSnoc(writes: seq<Write>, w: Write, source: Source)
    requires InOrder(writes, source) && forall x | x in writes :: x.lastRunAt <= w.lastRunAt
    ensures InOrder(writes + [w], source)
  {
    assert forall i | 0 <= i < |writes| :: writes[i] in writes;
  }

  /** Runs of one source that do not overlap are recorded in the order they end. */
  lemma {:induction false} SequentialRunsAreInOrder(source: Source, es: seq<Env>)
    requires OneAfterAnother(es)
    ensures InOrder(WritesOf(source, es), source) && forall w | w in WritesOf(source, es) :: FromRun(w)
  {
    if es != [] {
      var before, last := es[..|es| - 1], es[|es| - 1];
      SequentialRunsAreInOrder(source, before);
      WritesEndBy(source, es, last.endedAt);
      WritesEndBy(source, before, last.endedAt);
      if Recorded(last) {
        InOrderSnoc(WritesOf(source, before), WriteOf(source, last), source);
      }
    }
  }

  lemma {:induction false} WritesOfPrefix(source: Source, es: seq<Env>, k: nat)
    requires k <= |es|
    ensures var n := |WritesOf(source, es[..k])|;
            n <= |WritesOf(source, es)| && WritesOf(source, es[..k]) == WritesOf(source, es)[..n]
  {
    if k < |es| {
      assert es[..|es| - 1][..k] == es[..k];
      WritesOfPrefix(source, es[..|es| - 1], k);
    } else {
      assert es[..k] == es;
    }
  }

  /**
   Over any number of runs of one source that do not overlap, some of whose writes fail, neither
   time of its row decreases or returns to null, and the last success is at most the last run.
   */
  lemma SequentialRunsNeverGoBack(source: Source, es: seq<Env>, k: nat)
    requires OneAfterAnother(es) && k <= |es|
    ensures NotBehind(WritesOf(source, es[..k]), WritesOf(source, es), source)
    ensures var rows := After(WritesOf(source, es));
            source in rows && rows[source].lastSuccessAt.Some? ==>
              rows[source].lastSuccessAt.value <= rows[source].lastRunAt
  {
    hide InOrder, NotBehind, After;
    SequentialRunsAreInOrder(source, es);
    WritesOfPrefix(source, es, k);
    NeverGoesBack(WritesOf(source, es), |WritesOf(source, es[..k])|, source);
    SuccessIsARun(WritesOf(source, es), source);
  }

  /**
   Two runs of one source at once (the three NSE jobs share a scraper) can record out of order:
   the row then says the source last ran before its last success.
   */
  lemma OverlappingRunsGoBack(source: Source, first: int, second: int)
    requires first < second
    ensures var ok, failed := Write(source, second, Some(second), None), Write(source, first, None, None);
            && FromRun(ok) && FromRun(failed)
            && After([ok, failed]) == map[source := Checkpoint(first, Some(second), None)]
            && !NotBehind([ok], [ok, failed], source)
  {
    var ok, failed := Write(source, second, Some(second), None), Write(source, first, None, None);
    assert [ok, failed][..1] == [ok] && [ok][..0] == [];
    assert After([ok]) == map[source := Checkpoint(second, Some(second), None)];
  }
}
