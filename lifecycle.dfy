/**
 * The job lifecycle seen through the read endpoints: what `GET /status`
 * reports after each write path of the submit handlers, the worker and
 * `DELETE /history/{task_id}`.
 */
module Lifecycle {
  import opened Common
  import opened Records
  import opened Requests
  import opened Views
  import opened Backend
  import opened Api
  import opened Worker

  /** A job just accepted by `POST /analyze/async` reports `queued` with no detail. */
  lemma SubmittedJobIsQueued(table: Table, taskId: Id, filename: string, query: string, now: nat)
    ensures var q := NormaliseQuery(query);
      GetTaskStatus(table[taskId := NewRecord(taskId, filename, q, now)], taskId)
        == Success(TaskStatus(taskId, "queued", filename, q, now, NoDetail))
  {
  }

  /**
   * After a delivery the status shows the first report returned when some
   * execution returned, and otherwise the last execution's error.
   */
  lemma WorkerOutcomeVisible(table: Table, taskId: Id, runs: seq<EngineRun>, start: nat)
    requires taskId in table && table[taskId].createdAt <= start
    requires |runs| == 1 + MAX_RETRIES
    ensures var n := RunsUsed(runs);
      var s := GetTaskStatus(table[taskId := Replay(table[taskId], runs[..n], start)], taskId);
      && s.Success?
      && ((exists j :: 0 <= j < |runs| && runs[j].Returns?) ==>
            s.value.status == "completed" && s.value.detail.CompletedDetail?
            && s.value.detail.analysis == Some(runs[n - 1].report))
      && ((forall j :: 0 <= j < |runs| ==> runs[j].Raises?) ==>
            s.value.status == "failed" && s.value.detail.FailedDetail?
            && s.value.detail.error == Some(runs[|runs| - 1].message))
  {
    var n := RunsUsed(runs);
    ReplayFinishes(table[taskId], runs[..n], start);
    CompletedIffSomeRunReturned(table[taskId], runs, start);
  }

  /**
   * A synchronous job whose crew raised reports `failed` with the error and
   * a completion time, while its full record has no duration.
   */
  lemma SyncFailureHasNoDuration(table: Table, taskId: Id, filename: string, query: string,
                                 createdAt: nat, message: string, seconds: nat)
    ensures var run := Raises(message, seconds);
      var t := table[taskId := SyncRow(taskId, filename, query, createdAt, run)];
      && GetTaskStatus(t, taskId).Success?
      && GetTaskStatus(t, taskId).value.detail
           == FailedDetail(Some(message), Some(createdAt + seconds))
      && GetAnalysisById(t, taskId).value.durationSeconds == None
  {
  }

  /** A deleted job is not found, and every other job reports as before. */
  lemma DeletedJobNotFound(table: Table, taskId: Id, other: Id)
    requires other != taskId
    ensures GetTaskStatus(table - {taskId}, taskId) == Failure(TaskNotFound(taskId))
    ensures GetTaskStatus(table - {taskId}, other) == GetTaskStatus(table, other)
    ensures GetAnalysisById(table - {taskId}, other) == GetAnalysisById(table, other)
  {
  }
}
