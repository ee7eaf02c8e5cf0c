/**
 * The queue worker's task: mark the row processing, run the crew, record
 * the outcome, remove the upload, and on failure ask the broker to run the
 * whole task again after a countdown, at most MAX_RETRIES more times.
 */
module Worker {
  import opened Common
  import opened Records
  import opened Backend

  const MAX_RETRIES: nat := 2
  const RETRY_COUNTDOWN: nat := 5

  /** What one execution of the task body ends with. */
  datatype Attempt = Succeeded(result: string) | Raised(message: string)

  /** What the broker finally records for the delivery. */
  datatype TaskOutcome = TaskCompleted(result: string) | TaskFailed(message: string)

  /**
   * The row after one execution that found it: processing, then completed
   * with result and timing, or failed with error and timing. Other columns,
   * including a result or error left by an earlier execution, are kept.
   */
  function AfterRun(r: AnalysisRecord, run: EngineRun, end: nat): (r': AnalysisRecord)
    requires r.createdAt <= end
    ensures WellFormed(r')
    ensures r'.id == r.id && r'.filename == r.filename && r'.query == r.query
    ensures r'.createdAt == r.createdAt
    ensures r'.completedAt == Some(end) && r'.durationSeconds == Some(run.seconds)
    ensures run.Returns? ==> r'.status == Completed && r'.result == Some(run.report) && r'.error == r.error
    ensures run.Raises? ==> r'.status == Failed && r'.error == Some(run.message) && r'.result == r.result
  {
    var processing := r.(status := Processing);
    match run
    case Returns(report, seconds) =>
      processing.(status := Completed, result := Some(report), completedAt := Some(end),
                  durationSeconds := Some(seconds))
    case Raises(message, seconds) =>
      processing.(status := Failed, error := Some(message), completedAt := Some(end),
                  durationSeconds := Some(seconds))
  }

  /**
   * One execution of `analyze_document_task`. A missing row is not an error:
   * the crew still runs and nothing is written. `sawFile` says whether the
   * upload was on disk when the crew ran; `duringRun` is the table then.
   */
  method RunTaskBody(db: Store, taskId: Id, query: string, filePath: string,
                     run: EngineRun, removalFails: bool)
    returns (a: Attempt, ghost sawFile: bool, ghost duringRun: Table)
    requires db.Valid()
    modifies db`table, db`files, db`clock
    ensures db.Valid()
    ensures sawFile == (filePath in old(db.files))
    ensures db.clock == old(db.clock) + run.seconds
    ensures a == if run.Returns? then Succeeded(run.report) else Raised(run.message)
    ensures db.files == if removalFails then old(db.files) else old(db.files) - {filePath}
    ensures taskId !in old(db.table) ==> db.table == old(db.table) && duringRun == old(db.table)
    ensures taskId in old(db.table) ==>
      && duringRun == old(db.table)[taskId := old(db.table)[taskId].(status := Processing)]
      && db.table == old(db.table)[taskId := AfterRun(old(db.table)[taskId], run, db.clock)]
  {
    var startTime := db.clock;
    var found := taskId in db.table;
    if found {
      var record := db.table[taskId].(status := Processing);
      db.Put(record);
    }
    duringRun := db.table;
    sawFile := filePath in db.files;
    db.Advance(run.seconds);
    var duration: nat := db.clock - startTime;
    match run {
      case Returns(report, _) =>
        if found {
          var record := db.table[taskId].(status := Completed, result := Some(report),
                                          completedAt := Some(db.clock), durationSeconds := Some(duration));
          db.Put(record);
        }
        a := Succeeded(report);
      case Raises(message, _) =>
        // the handler looks the row up again
        if taskId in db.table {
          var record := db.table[taskId].(status := Failed, error := Some(message),
                                          completedAt := Some(db.clock), durationSeconds := Some(duration));
          db.Put(record);
        }
        a := Raised(message);
    }
    db.RemoveUpload(filePath, removalFails);
  }

  /**
   * How many executions a delivery gets: they stop at the first run that
   * returns, or when the runs given (one plus the retries) are used up.
   */
  function RunsUsed(runs: seq<EngineRun>): (n: nat)
    requires |runs| > 0
    ensures 1 <= n <= |runs|
    ensures forall j :: 0 <= j < n - 1 ==> runs[j].Raises?
    ensures n < |runs| ==> runs[n - 1].Returns?
  {
    if runs[0].Returns? || |runs| == 1 then 1 else 1 + RunsUsed(runs[1..])
  }

  /** The time the given executions take, with the countdown between two of them. */
  function Elapsed(runs: seq<EngineRun>): nat
  {
    if runs == [] then 0
    else Elapsed(runs[..|runs| - 1]) + (if |runs| > 1 then RETRY_COUNTDOWN else 0) + runs[|runs| - 1].seconds
  }

  /** The row after the given executions, the first one starting at `start`. */
  function Replay(r: AnalysisRecord, runs: seq<EngineRun>, start: nat): AnalysisRecord
    requires r.createdAt <= start
  {
    if runs == [] then r
    else AfterRun(Replay(r, runs[..|runs| - 1], start), runs[|runs| - 1], start + Elapsed(runs))
  }

  /** The statuses the row holds during and after each of the given executions, in order. */
  function Trail(runs: seq<EngineRun>): seq<Status>
  {
    if runs == [] then []
    else Trail(runs[..|runs| - 1]) + [Processing, if runs[|runs| - 1].Returns? then Completed else Failed]
  }

  function OutcomeOf(a: Attempt): TaskOutcome
  {
    match a
    case Succeeded(result) => TaskCompleted(result)
    case Raised(message) => TaskFailed(message)
  }

  /** Removing the upload raised on every one of the first `i` executions. */
  predicate RemovalFailedBefore(removalFails: seq<bool>, i: nat)
    requires i <= |removalFails|
  {
    forall j :: 0 <= j < i ==> removalFails[j]
  }

  /**
   * The broker delivering one job: the task body runs, and each failure is
   * followed by `retry(countdown=5, max_retries=2)`, which runs the body
   * again until the budget is spent. `runs` gives what the crew does on each
   * execution and `removalFails` whether its removal of the upload raises;
   * `trail` lists the statuses the row held during and after each execution,
   * and `sawFile` whether each execution found the upload.
   */
  method AnalyzeDocumentTask(db: Store, delivery: Delivery, runs: seq<EngineRun>, removalFails: seq<bool>)
    returns (outcome: TaskOutcome, executions: nat, ghost trail: seq<Status>, ghost sawFile: seq<bool>)
    requires db.Valid()
    requires |runs| == 1 + MAX_RETRIES && |removalFails| == |runs|
    modifies db`table, db`files, db`clock
    ensures db.Valid()
    ensures executions == RunsUsed(runs)
    ensures outcome == if runs[executions - 1].Returns? then TaskCompleted(runs[executions - 1].report)
                       else TaskFailed(runs[executions - 1].message)
    ensures db.clock == old(db.clock) + Elapsed(runs[..executions])
    ensures db.files == if RemovalFailedBefore(removalFails, executions) then old(db.files)
                        else old(db.files) - {delivery.filePath}
    ensures |sawFile| == executions
    ensures forall i :: 0 <= i < executions ==>
      sawFile[i] == (delivery.filePath in old(db.files) && RemovalFailedBefore(removalFails, i))
    ensures delivery.taskId !in old(db.table) ==> db.table == old(db.table) && trail == []
    ensures delivery.taskId in old(db.table) ==>
      && trail == Trail(runs[..executions])
      && db.table == old(db.table)[delivery.taskId :=
           Replay(old(db.table)[delivery.taskId], runs[..executions], old(db.clock))]
  {
    ghost var table0, files0, clock0 := db.table, db.files, db.clock;
    ghost var present := delivery.taskId in table0;
    var retries := 0;
    trail, sawFile := [], [];
    assert runs[..0] == [];
    while true
      invariant 0 <= retries <= MAX_RETRIES
      invariant forall j :: 0 <= j < retries ==> runs[j].Raises?
      invariant db.Valid()
      invariant db.clock == clock0 + Elapsed(runs[..retries]) + (if retries > 0 then RETRY_COUNTDOWN else 0)
      invariant db.files == if RemovalFailedBefore(removalFails, retries) then files0
                            else files0 - {delivery.filePath}
      invariant |sawFile| == retries
      invariant forall i :: 0 <= i < retries ==>
        sawFile[i] == (delivery.filePath in files0 && RemovalFailedBefore(removalFails, i))
      invariant !present ==> db.table == table0 && trail == []
      invariant present ==>
        && table0[delivery.taskId].createdAt <= clock0
        && trail == Trail(runs[..retries])
        && db.table == table0[delivery.taskId := Replay(table0[delivery.taskId], runs[..retries], clock0)]
      decreases MAX_RETRIES - retries
    {
      var attempt, seen, during := RunTaskBody(db, delivery.taskId, delivery.query, delivery.filePath,
                                               runs[retries], removalFails[retries]);
      assert runs[..retries + 1][..retries] == runs[..retries];
      sawFile := sawFile + [seen];
      if present {
        trail := trail + [during[delivery.taskId].status, db.table[delivery.taskId].status];
      }
      if attempt.Succeeded? || retries == MAX_RETRIES {
        outcome, executions := OutcomeOf(attempt), retries + 1;
        RunsUsedStops(runs, retries);
        return;
      }
      db.Advance(RETRY_COUNTDOWN);
      retries := retries + 1;
    }
  }

  /** Runs that all raised before index k, and k returned or is the last: k + 1 executions are used. */
  lemma {:induction false} RunsUsedStops(runs: seq<EngineRun>, k: nat)
    requires k < |runs|
    requires forall j :: 0 <= j < k ==> runs[j].Raises?
    requires runs[k].Returns? || k == |runs| - 1
    ensures RunsUsed(runs) == k + 1
    decreases k
  {
    if k > 0 {
      RunsUsedStops(runs[1..], k - 1);
    }
  }

  /** Every replay keeps the row's identity and leaves it well formed and finished. */
  lemma {:induction false} ReplayFinishes(r: AnalysisRecord, runs: seq<EngineRun>, start: nat)
    requires r.createdAt <= start
    requires runs != []
    ensures var r' := Replay(r, runs, start);
      && WellFormed(r') && r'.id == r.id && r'.createdAt == r.createdAt
      && r'.status == (if runs[|runs| - 1].Returns? then Completed else Failed)
      && r'.completedAt == Some(start + Elapsed(runs))
    decreases |runs|
  {
    var init := runs[..|runs| - 1];
    if init != [] {
      ReplayFinishes(r, init, start);
    }
  }

  /**
   * The row a delivery leaves behind is completed exactly when one of its
   * executions returned, and then holds the first report returned.
   */
  lemma CompletedIffSomeRunReturned(r: AnalysisRecord, runs: seq<EngineRun>, start: nat)
    requires r.createdAt <= start
    requires |runs| == 1 + MAX_RETRIES
    ensures var n := RunsUsed(runs);
      var r' := Replay(r, runs[..n], start);
      && (r'.status == Completed <==> exists j :: 0 <= j < |runs| && runs[j].Returns?)
      && (r'.status == Completed ==> r'.result == Some(runs[n - 1].report))
      && (r'.status == Failed ==> r'.error == Some(runs[|runs| - 1].message))
  {
    var n := RunsUsed(runs);
    ReplayFinishes(r, runs[..n], start);
    var last := runs[..n][n - 1];
    assert last == runs[n - 1];
    if runs[n - 1].Raises? {
      assert n == |runs|;
    }
  }

  /**
   * A retry that succeeds after a failure marks the row completed but does
   * not clear the error the failed execution wrote.
   */
  lemma RetryKeepsStaleError(r: AnalysisRecord, runs: seq<EngineRun>, start: nat)
    requires r.createdAt <= start
    requires |runs| == 1 + MAX_RETRIES
    requires runs[0].Raises? && runs[1].Returns?
    ensures RunsUsed(runs) == 2
    ensures var r' := Replay(r, runs[..2], start);
      r'.status == Completed && r'.result == Some(runs[1].report) && r'.error == Some(runs[0].message)
  {
    RunsUsedStops(runs, 1);
    assert runs[..2][..1] == runs[..1];
    assert runs[..1][..0] == [];
  }

  /** After a failure the retry holds the row processing again: the status is not forward-only. */
  lemma RetryReentersProcessing(runs: seq<EngineRun>)
    requires |runs| == 1 + MAX_RETRIES
    requires runs[0].Raises?
    ensures var trail := Trail(runs[..RunsUsed(runs)]);
      |trail| >= 4 && trail[1] == Failed && trail[2] == Processing
  {
    var n := RunsUsed(runs);
    assert n >= 2;
    TrailPrefix(runs[..n], 2);
    assert runs[..n][..2] == runs[..2];
    assert runs[..2][..1] == runs[..1];
    assert runs[..1][..0] == [];
  }

  /** The trail of a prefix of the executions is a prefix of the trail. */
  lemma {:induction false} TrailPrefix(runs: seq<EngineRun>, k: nat)
    requires k <= |runs|
    ensures |Trail(runs)| == 2 * |runs|
    ensures Trail(runs)[..2 * k] == Trail(runs[..k])
    decreases |runs|
  {
    if runs != [] {
      var init := runs[..|runs| - 1];
      if k == |runs| {
        TrailPrefix(init, 0);
        assert runs[..k] == runs;
      } else {
        TrailPrefix(init, k);
        assert init[..k] == runs[..k];
      }
    }
  }
}
