/**
 * The read-only endpoints: the status of one job, the history listing and
 * the full record of one job. Each is a projection of the table.
 */
module Views {
  import opened Common
  import opened Records
  import opened Requests

  /** The keys a status response adds for a finished job. */
  datatype StatusDetail =
    | NoDetail
    | CompletedDetail(analysis: Option<string>, completedAt: nat, durationSeconds: Option<nat>)
    | FailedDetail(error: Option<string>, completedAtOrNull: Option<nat>)

  datatype TaskStatus = TaskStatus(
    taskId: Id, status: string, filename: string, query: string, createdAt: nat, detail: StatusDetail)

  function TaskNotFound(taskId: Id): ApiError
  {
    HttpError(404, "Task '" + taskId + "' not found.")
  }

  function AnalysisNotFound(taskId: Id): ApiError
  {
    HttpError(404, "Analysis '" + taskId + "' not found.")
  }

  /**
   * `GET /status/{task_id}`. A completed job whose completion time is NULL
   * would make the handler raise; no write path produces such a row.
   */
  function GetTaskStatus(table: Table, taskId: Id): (r: Result<TaskStatus, ApiError>)
    ensures taskId !in table <==> r == Failure(TaskNotFound(taskId))
    ensures taskId in table && WellFormed(table[taskId]) ==> r.Success?
    ensures r.Success? ==>
      var rec := table[taskId];
      && r.value.taskId == taskId && r.value.status == StatusName(rec.status)
      && r.value.filename == rec.filename && r.value.query == rec.query
      && r.value.createdAt == rec.createdAt
      && (r.value.detail.CompletedDetail? <==> rec.status == Completed)
      && (r.value.detail.FailedDetail? <==> rec.status == Failed)
      && (rec.status == Completed ==>
            && Some(r.value.detail.completedAt) == rec.completedAt
            && r.value.detail.analysis == rec.result
            && r.value.detail.durationSeconds == rec.durationSeconds)
      && (rec.status == Failed ==>
            r.value.detail.error == rec.error && r.value.detail.completedAtOrNull == rec.completedAt)
  {
    if taskId !in table then Failure(TaskNotFound(taskId))
    else
      var rec := table[taskId];
      var view := TaskStatus(taskId, StatusName(rec.status), rec.filename, rec.query, rec.createdAt, NoDetail);
      match rec.status
      case Completed =>
        if rec.completedAt.None? then Failure(UNHANDLED)
        else Success(view.(detail := CompletedDetail(rec.result, rec.completedAt.value, rec.durationSeconds)))
      case Failed =>
        Success(view.(detail := FailedDetail(rec.error, rec.completedAt)))
      case _ =>
        Success(view)
  }

  /** `GET /history/{task_id}`: every column of the row. */
  function GetAnalysisById(table: Table, taskId: Id): (r: Result<AnalysisRecord, ApiError>)
    ensures r.Success? <==> taskId in table
    ensures r.Success? ==> r.value == table[taskId]
    ensures r.Failure? ==> r.error == AnalysisNotFound(taskId)
  {
    if taskId in table then Success(table[taskId]) else Failure(AnalysisNotFound(taskId))
  }

  /** One item of the history listing: no result or error body. */
  datatype HistoryEntry = HistoryEntry(
    taskId: Id, filename: string, query: string, status: string, createdAt: nat,
    durationSeconds: Option<nat>)

  datatype HistoryPage = HistoryPage(total: nat, records: seq<HistoryEntry>)

  const MAX_HISTORY: nat := 100
  const DEFAULT_HISTORY_LIMIT: int := 20

  function Summary(r: AnalysisRecord): HistoryEntry
  {
    HistoryEntry(r.id, r.filename, r.query, StatusName(r.status), r.createdAt, r.durationSeconds)
  }

  /** The optional `status` filter; an empty or absent filter (both falsy) selects every row. */
  predicate MatchesFilter(r: AnalysisRecord, status: string)
  {
    status == "" || StatusName(r.status) == status
  }

  ghost function MatchingKeys(table: Table, status: string): (keys: set<Id>)
    ensures keys <= table.Keys
  {
    set k | k in table && MatchesFilter(table[k], status)
  }

  ghost predicate NewestAmong(table: Table, keys: set<Id>, k: Id)
    requires keys <= table.Keys
  {
    k in keys && forall j | j in keys :: table[j].createdAt <= table[k].createdAt
  }

  lemma {:induction false} NewestExists(table: Table, keys: set<Id>)
    requires keys != {} && keys <= table.Keys
    ensures exists k :: NewestAmong(table, keys, k)
    decreases keys
  {
    var x :| x in keys;
    if keys != {x} {
      NewestExists(table, keys - {x});
      var y :| NewestAmong(table, keys - {x}, y);
      if table[x].createdAt <= table[y].createdAt {
        assert NewestAmong(table, keys, y);
      } else {
        assert NewestAmong(table, keys, x);
      }
    } else {
      assert NewestAmong(table, keys, x);
    }
  }

  /** order lists each of keys once, newest first by `created_at`. */
  ghost predicate NewestOrder(table: Table, keys: set<Id>, order: seq<Id>)
    requires keys <= table.Keys
  {
    && |order| == |keys|
    && (forall i :: 0 <= i < |order| ==> order[i] in keys)
    && (forall k :: k in keys ==> k in order)
    && (forall i, j :: 0 <= i < j < |order| ==> order[i] != order[j])
    && (forall i, j :: 0 <= i < j < |order| ==> table[order[j]].createdAt <= table[order[i]].createdAt)
  }

  lemma NewestOrderCons(table: Table, keys: set<Id>, k: Id, rest: seq<Id>)
    requires keys <= table.Keys && NewestAmong(table, keys, k)
    requires NewestOrder(table, keys - {k}, rest)
    ensures NewestOrder(table, keys, [k] + rest)
  {
    ConsCoversKeys(keys, k, rest);
    ConsDistinct(keys, k, rest);
    ConsNewestFirst(table, keys, k, rest);
  }

  lemma ConsCoversKeys(keys: set<Id>, k: Id, rest: seq<Id>)
    requires k in keys
    requires |rest| == |keys - {k}|
    requires forall i :: 0 <= i < |rest| ==> rest[i] in keys - {k}
    requires forall j :: j in keys - {k} ==> j in rest
    ensures |[k] + rest| == |keys|
    ensures forall i :: 0 <= i < |[k] + rest| ==> ([k] + rest)[i] in keys
    ensures forall j :: j in keys ==> j in [k] + rest
  {
    assert |keys - {k}| == |keys| - 1;
    forall j | j in keys ensures j in [k] + rest {
      if j != k {
        assert j in rest;
      }
    }
  }

  lemma ConsDistinct(keys: set<Id>, k: Id, rest: seq<Id>)
    requires forall i :: 0 <= i < |rest| ==> rest[i] in keys - {k}
    requires forall i, j :: 0 <= i < j < |rest| ==> rest[i] != rest[j]
    ensures forall i, j :: 0 <= i < j < |[k] + rest| ==> ([k] + rest)[i] != ([k] + rest)[j]
  {
    var order := [k] + rest;
    forall i, j | 0 <= i < j < |order| ensures order[i] != order[j] {
      assert order[j] == rest[j - 1];
      if i > 0 {
        assert order[i] == rest[i - 1];
      }
    }
  }

  lemma ConsNewestFirst(table: Table, keys: set<Id>, k: Id, rest: seq<Id>)
    requires keys <= table.Keys && NewestAmong(table, keys, k)
    requires forall i :: 0 <= i < |rest| ==> rest[i] in keys - {k}
    requires forall i, j :: 0 <= i < j < |rest| ==> table[rest[j]].createdAt <= table[rest[i]].createdAt
    ensures forall i, j :: 0 <= i < j < |[k] + rest| ==>
              table[([k] + rest)[j]].createdAt <= table[([k] + rest)[i]].createdAt
  {
    var order := [k] + rest;
    forall i, j | 0 <= i < j < |order|
      ensures table[order[j]].createdAt <= table[order[i]].createdAt
    {
      assert order[j] == rest[j - 1];
      if i > 0 {
        assert order[i] == rest[i - 1];
      }
    }
  }

  /** The keys ordered by `created_at`, newest first; rows stamped alike come in either order. */
  ghost function NewestFirst(table: Table, keys: set<Id>): (order: seq<Id>)
    requires keys <= table.Keys
    ensures NewestOrder(table, keys, order)
    decreases keys
  {
    if keys == {} then []
    else
      NewestExists(table, keys);
      var k :| NewestAmong(table, keys, k);
      var rest := NewestFirst(table, keys - {k});
      NewestOrderCons(table, keys, k, rest);
      [k] + rest
  }

  function Min(a: int, b: int): int
  {
    if a <= b then a else b
  }

  /**
   * The newest matching keys, at most `bound` of them when a bound is given:
   * filter, order by `created_at` descending, take a prefix.
   */
  ghost function NewestMatching(table: Table, status: string, bound: Option<nat>): (keys: seq<Id>)
    ensures |keys| == if bound.Some? then Min(bound.value, |MatchingKeys(table, status)|)
                      else |MatchingKeys(table, status)|
    ensures forall i :: 0 <= i < |keys| ==> keys[i] in table && MatchesFilter(table[keys[i]], status)
    ensures forall i, j :: 0 <= i < j < |keys| ==> keys[i] != keys[j]
    ensures forall i, j :: 0 <= i < j < |keys| ==> table[keys[j]].createdAt <= table[keys[i]].createdAt
    ensures forall k :: k in table && MatchesFilter(table[k], status) && k !in keys ==>
              forall i :: 0 <= i < |keys| ==> table[k].createdAt <= table[keys[i]].createdAt
  {
    var order := NewestFirst(table, MatchingKeys(table, status));
    var n := if bound.Some? then Min(bound.value, |order|) else |order|;
    PrefixOfNewestOrder(table, MatchingKeys(table, status), order, n);
    order[..n]
  }

  /** A prefix of a newest-first order keeps its order and is newer than everything it leaves out. */
  lemma PrefixOfNewestOrder(table: Table, keys: set<Id>, order: seq<Id>, n: nat)
    requires keys <= table.Keys && NewestOrder(table, keys, order) && n <= |order|
    ensures forall i :: 0 <= i < n ==> order[..n][i] in keys
    ensures forall i, j :: 0 <= i < j < n ==> order[..n][i] != order[..n][j]
    ensures forall i, j :: 0 <= i < j < n ==> table[order[..n][j]].createdAt <= table[order[..n][i]].createdAt
    ensures forall k :: k in keys && k !in order[..n] ==>
              forall i :: 0 <= i < n ==> table[k].createdAt <= table[order[..n][i]].createdAt
  {
    var keysTaken := order[..n];
    forall k | k in keys && k !in keysTaken
      ensures forall i :: 0 <= i < n ==> table[k].createdAt <= table[keysTaken[i]].createdAt
    {
      var p :| 0 <= p < |order| && order[p] == k;
      assert p >= n;
    }
  }

  /**
   * `limit = min(limit, 100)` followed by SQLite's `LIMIT limit`, which
   * returns every row when the limit is negative.
   */
  function SqlRowLimit(limit: int): (bound: Option<nat>)
    ensures limit >= 0 ==> bound == Some(Min(limit, MAX_HISTORY))
    ensures limit < 0 ==> bound == None
  {
    var capped := Min(limit, MAX_HISTORY);
    if capped < 0 then None else Some(capped)
  }

  function Page(table: Table, keys: seq<Id>): (page: HistoryPage)
    requires forall i :: 0 <= i < |keys| ==> keys[i] in table
    ensures page.total == |page.records| == |keys|
    ensures forall i :: 0 <= i < |keys| ==> page.records[i] == Summary(table[keys[i]])
  {
    HistoryPage(|keys|, seq(|keys|, i requires 0 <= i < |keys| => Summary(table[keys[i]])))
  }

  /** `GET /history?limit=…&status=…` as written. */
  ghost function GetAnalysisHistory(table: Table, limit: int, status: string): (page: HistoryPage)
    ensures page.total == |page.records|
    ensures 0 <= limit ==> page.total == Min(Min(limit, MAX_HISTORY), |MatchingKeys(table, status)|)
    ensures limit < 0 ==> page.total == |MatchingKeys(table, status)|
    ensures forall i :: 0 <= i < page.total ==> status == "" || page.records[i].status == status
    ensures forall i, j :: 0 <= i < j < page.total ==> page.records[j].createdAt <= page.records[i].createdAt
  {
    Page(table, NewestMatching(table, status, SqlRowLimit(limit)))
  }

  /** `GET /history` with no `limit` parameter: the newest 20 matching rows. */
  ghost function GetAnalysisHistoryDefault(table: Table, status: string): (page: HistoryPage)
    ensures page.total == |page.records| == Min(DEFAULT_HISTORY_LIMIT, |MatchingKeys(table, status)|)
    ensures page.total <= DEFAULT_HISTORY_LIMIT
  {
    GetAnalysisHistory(table, DEFAULT_HISTORY_LIMIT, status)
  }

  /** With more than 100 rows, `limit=-1` lists them all: the cap of 100 does not hold. */
  lemma NegativeLimitBypassesCap(table: Table)
    requires |table| > MAX_HISTORY
    ensures GetAnalysisHistory(table, -1, "").total == |table| > MAX_HISTORY
  {
    assert MatchingKeys(table, "") == table.Keys;
  }

  /** The limit as the endpoint documents it: never more than 100, never negative. */
  function ClampedRowLimit(limit: int): (bound: nat)
    ensures bound <= MAX_HISTORY
    ensures 0 <= limit ==> bound == Min(limit, MAX_HISTORY)
  {
    if limit < 0 then 0 else Min(limit, MAX_HISTORY)
  }

  /** The history listing with the limit clamped to 0..100. */
  ghost function GetAnalysisHistoryCapped(table: Table, limit: int, status: string): (page: HistoryPage)
    ensures page.total == |page.records| <= MAX_HISTORY
    ensures page.total == Min(ClampedRowLimit(limit), |MatchingKeys(table, status)|)
    ensures 0 <= limit ==> page == GetAnalysisHistory(table, limit, status)
    ensures forall i :: 0 <= i < page.total ==> status == "" || page.records[i].status == status
    ensures forall i, j :: 0 <= i < j < page.total ==> page.records[j].createdAt <= page.records[i].createdAt
  {
    Page(table, NewestMatching(table, status, Some(ClampedRowLimit(limit))))
  }
}
