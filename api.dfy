/**
 * The HTTP handlers that change the table: synchronous analysis,
 * asynchronous submission and deletion. Each takes the fresh job id the
 * handler would draw from `uuid4` as a parameter, and the outcome of each
 * step that can raise (writing the upload, the crew, the broker).
 */
module Api {
  import opened Common
  import opened Records
  import opened Requests
  import opened Views
  import opened Backend

  const QUEUED_MESSAGE: string := "Document queued for analysis. Poll /status/{task_id} for results."

  /** A freshly drawn id: no row and no upload file carries it yet. */
  ghost predicate FreshId(db: Store, taskId: Id)
    reads db
  {
    taskId !in db.table && UploadPath(taskId) !in db.files
  }

  /**
   * The row the synchronous handler leaves once the crew has run: completed
   * with result and timing, or failed with the error and completion time
   * and no duration.
   */
  function SyncRow(taskId: Id, filename: string, query: string, createdAt: nat, run: EngineRun)
    : (rec: AnalysisRecord)
    ensures rec.id == taskId && rec.filename == filename && rec.query == query
    ensures rec.createdAt == createdAt && rec.completedAt == Some(createdAt + run.seconds)
    ensures run.Returns? ==>
      && rec.status == Completed && rec.result == Some(run.report) && rec.error == None
      && rec.durationSeconds == Some(run.seconds)
    ensures run.Raises? ==>
      && rec.status == Failed && rec.error == Some(run.message) && rec.result == None
      && rec.durationSeconds == None
    ensures WellFormed(rec)
  {
    var pending := NewRecord(taskId, filename, query, createdAt).(status := Processing);
    var end := createdAt + run.seconds;
    match run
    case Returns(report, seconds) =>
      pending.(status := Completed, result := Some(report), completedAt := Some(end),
               durationSeconds := Some(seconds))
    case Raises(message, _) =>
      pending.(status := Failed, error := Some(message), completedAt := Some(end))
  }

  /**
   * The body of the synchronous handler once the upload is on disk: insert
   * the row as processing, run the crew, then write the outcome to the row.
   */
  method RunSync(db: Store, taskId: Id, filename: string, q: string, run: EngineRun)
    returns (r: Result<SyncResponse, ApiError>, ghost duringRun: Table)
    requires db.Valid()
    modifies db`table, db`clock
    ensures db.Valid()
    ensures duringRun == old(db.table)[taskId := NewRecord(taskId, filename, q, old(db.clock)).(status := Processing)]
    ensures db.table == old(db.table)[taskId := SyncRow(taskId, filename, q, old(db.clock), run)]
    ensures db.clock == old(db.clock) + run.seconds
    ensures r == if run.Returns? then Success(SyncResponse(taskId, q, run.report, filename, run.seconds))
                 else Failure(ProcessingError(run.message))
  {
    var startTime := db.clock;
    var record := NewRecord(taskId, filename, q, db.clock).(status := Processing);
    NewRecordWellFormed(taskId, filename, q, db.clock);
    db.Put(record);
    duringRun := db.table;
    db.Advance(run.seconds);
    match run {
      case Returns(report, _) =>
        var duration: nat := db.clock - startTime;
        record := record.(status := Completed, result := Some(report),
                          completedAt := Some(db.clock), durationSeconds := Some(duration));
        db.Put(record);
        r := Success(SyncResponse(taskId, q, report, filename, duration));
      case Raises(message, _) =>
        // the handler looks the row up again and marks it failed if it is there
        if taskId in db.table {
          var failed := db.table[taskId].(status := Failed, error := Some(message),
                                          completedAt := Some(db.clock));
          db.Put(failed);
        }
        r := Failure(ProcessingError(message));
    }
  }

  /**
   * `POST /analyze`: validate the name, write the upload, insert the row as
   * processing, run the crew, record the outcome, and always remove the upload.
   * `upload` is the message of the error raised while writing the file, if any.
   * `duringRun` is the table as the crew's run sees it.
   */
  method AnalyzeDocument(db: Store, taskId: Id, filename: string, query: string,
                         upload: Option<string>, run: EngineRun, removalFails: bool)
    returns (r: Result<SyncResponse, ApiError>, ghost duringRun: Table)
    requires db.Valid() && FreshId(db, taskId)
    modifies db
    ensures db.Valid()
    ensures db.queue == old(db.queue)
    ensures !IsPdfName(filename) ==>
      && r == Failure(UNSUPPORTED_FILE)
      && db.table == old(db.table) && db.files == old(db.files) && db.clock == old(db.clock)
    ensures IsPdfName(filename) && upload.Some? ==>
      && r == Failure(ProcessingError(upload.value))
      && db.table == old(db.table) && db.files == old(db.files) && db.clock == old(db.clock)
    ensures IsPdfName(filename) && upload.None? ==>
      var q := NormaliseQuery(query);
      && duringRun == old(db.table)[taskId := NewRecord(taskId, filename, q, old(db.clock)).(status := Processing)]
      && db.table == old(db.table)[taskId := SyncRow(taskId, filename, q, old(db.clock), run)]
      && db.clock == old(db.clock) + run.seconds
      && r == (if run.Returns? then Success(SyncResponse(taskId, q, run.report, filename, run.seconds))
               else Failure(ProcessingError(run.message)))
      && db.files == if removalFails then old(db.files) + {UploadPath(taskId)} else old(db.files)
  {
    duringRun := db.table;
    if !IsPdfName(filename) {
      return Failure(UNSUPPORTED_FILE), duringRun;
    }
    var path := UploadPath(taskId);
    if upload.Some? {
      // raised before the row exists: there is no row to mark failed
      db.RemoveUpload(path, removalFails);
      return Failure(ProcessingError(upload.value)), duringRun;
    }
    db.files := db.files + {path};
    var q := NormaliseQuery(query);
    r, duringRun := RunSync(db, taskId, filename, q, run);
    db.RemoveUpload(path, removalFails);
  }

  /**
   * `POST /analyze/async`: fail with 503 when the worker module cannot be
   * imported, validate the name, write the upload, commit the row as queued,
   * then publish the job. A write or publish that raises escapes the handler
   * (500); a failed publish leaves the queued row and the upload behind.
   */
  method AnalyzeDocumentAsync(db: Store, taskId: Id, filename: string, query: string,
                              workerImportable: bool, uploadFails: bool, publishFails: bool)
    returns (r: Result<QueuedResponse, ApiError>)
    requires db.Valid() && FreshId(db, taskId)
    modifies db
    ensures db.Valid()
    ensures db.clock == old(db.clock)
    ensures !workerImportable ==> r == Failure(QUEUE_UNAVAILABLE) && unchanged(db)
    ensures workerImportable && !IsPdfName(filename) ==> r == Failure(UNSUPPORTED_FILE) && unchanged(db)
    ensures workerImportable && IsPdfName(filename) && uploadFails ==> r == Failure(UNHANDLED) && unchanged(db)
    ensures workerImportable && IsPdfName(filename) && !uploadFails ==>
      var q := NormaliseQuery(query);
      && db.table == old(db.table)[taskId := NewRecord(taskId, filename, q, old(db.clock))]
      && db.files == old(db.files) + {UploadPath(taskId)}
      && (publishFails ==> r == Failure(UNHANDLED) && db.queue == old(db.queue))
      && (!publishFails ==>
            && r == Success(QueuedResponse(taskId, QUEUED_MESSAGE, StatusUrl(taskId)))
            && db.queue == old(db.queue) + [Delivery(taskId, q, UploadPath(taskId))])
  {
    if !workerImportable {
      return Failure(QUEUE_UNAVAILABLE);
    }
    if !IsPdfName(filename) {
      return Failure(UNSUPPORTED_FILE);
    }
    if uploadFails {
      return Failure(UNHANDLED);
    }
    var path := UploadPath(taskId);
    db.files := db.files + {path};
    var q := NormaliseQuery(query);
    var record := NewRecord(taskId, filename, q, db.clock);
    NewRecordWellFormed(taskId, filename, q, db.clock);
    db.Put(record);
    if publishFails {
      return Failure(UNHANDLED);
    }
    db.queue := db.queue + [Delivery(taskId, q, path)];
    r := Success(QueuedResponse(taskId, QUEUED_MESSAGE, StatusUrl(taskId)));
  }

  /** `DELETE /history/{task_id}`: remove the row whatever its status. */
  method DeleteAnalysis(db: Store, taskId: Id) returns (r: Result<string, ApiError>)
    requires db.Valid()
    modifies db`table
    ensures db.Valid()
    ensures taskId !in old(db.table) ==> r == Failure(AnalysisNotFound(taskId)) && db.table == old(db.table)
    ensures taskId in old(db.table) ==>
      && r == Success("Analysis '" + taskId + "' deleted successfully.")
      && db.table == old(db.table) - {taskId}
  {
    if taskId !in db.table {
      return Failure(AnalysisNotFound(taskId));
    }
    DeleteKeepsInvariant(db.table, db.clock, taskId);
    db.table := db.table - {taskId};
    r := Success("Analysis '" + taskId + "' deleted successfully.");
  }
}
