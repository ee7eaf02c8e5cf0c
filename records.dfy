/**
 * The `analyses` table: one row per analysis job, keyed by its id.
 * Timestamps are whole seconds on one clock; durations are whole seconds.
 */
module Records {
  import opened Common

  type Id = string

  /** The four values the `status` column takes. */
  datatype Status = Queued | Processing | Completed | Failed

  /** The text stored in the `status` column, which the history filter compares against. */
  function StatusName(s: Status): (name: string)
    ensures name != ""
  {
    match s
    case Queued => "queued"
    case Processing => "processing"
    case Completed => "completed"
    case Failed => "failed"
  }

  /** Distinct states are stored as distinct texts, so filtering by name selects one state. */
  lemma StatusNameInjective(a: Status, b: Status)
    ensures StatusName(a) == StatusName(b) <==> a == b
  {
  }

  /** One row. `filename` and `query` are non-null; the Option columns are nullable. */
  datatype AnalysisRecord = AnalysisRecord(
    id: Id,
    filename: string,
    query: string,
    status: Status,
    result: Option<string>,
    error: Option<string>,
    createdAt: nat,
    completedAt: Option<nat>,
    durationSeconds: Option<nat>)

  /** The table: the primary key maps to at most one row. */
  type Table = map<Id, AnalysisRecord>

  /** The `status` column default. */
  const DEFAULT_STATUS: Status := Queued

  /** A row as the ORM inserts it: defaults applied, `created_at` stamped, nullable columns NULL. */
  function NewRecord(id: Id, filename: string, query: string, now: nat): (r: AnalysisRecord)
    ensures r.id == id && r.filename == filename && r.query == query
    ensures r.status == Queued && r.createdAt == now
    ensures r.result == None && r.error == None
    ensures r.completedAt == None && r.durationSeconds == None
  {
    AnalysisRecord(id, filename, query, DEFAULT_STATUS, None, None, now, None, None)
  }

  /**
   * What every code path that writes a row guarantees about it. A queued
   * row has nothing set; a completed row has its result and timing; a
   * failed row has its error and completion time (the synchronous path
   * leaves its duration NULL). A processing row may still carry the
   * error and timing of an earlier failed attempt, and a completed row
   * may still carry that error.
   */
  predicate WellFormed(r: AnalysisRecord)
  {
    && (r.status == Queued ==>
          r.result == None && r.error == None && r.completedAt == None && r.durationSeconds == None)
    && (r.status == Completed ==>
          r.result.Some? && r.completedAt.Some? && r.durationSeconds.Some?)
    && (r.status == Failed ==> r.error.Some? && r.completedAt.Some?)
    && (r.completedAt.Some? ==> r.createdAt <= r.completedAt.value)
  }

  /** Rows are stored under their own id, are well formed, and no stamp is later than the clock. */
  ghost predicate TableInvariant(table: Table, clock: nat)
  {
    forall k | k in table ::
      && table[k].id == k
      && WellFormed(table[k])
      && table[k].createdAt <= clock
      && (table[k].completedAt.Some? ==> table[k].completedAt.value <= clock)
  }

  /** A freshly inserted row satisfies the table's invariant. */
  lemma NewRecordWellFormed(id: Id, filename: string, query: string, now: nat)
    ensures WellFormed(NewRecord(id, filename, query, now))
    ensures WellFormed(NewRecord(id, filename, query, now).(status := Processing))
  {
  }

  /** Inserting a well-formed row stamped no later than the clock keeps the invariant. */
  lemma {:induction false} InsertKeepsInvariant(table: Table, clock: nat, r: AnalysisRecord)
    requires TableInvariant(table, clock)
    requires WellFormed(r) && r.createdAt <= clock
    requires r.completedAt.Some? ==> r.completedAt.value <= clock
    ensures TableInvariant(table[r.id := r], clock)
  {
  }

  /** Removing a row keeps the invariant. */
  lemma DeleteKeepsInvariant(table: Table, clock: nat, id: Id)
    requires TableInvariant(table, clock)
    ensures TableInvariant(table - {id}, clock)
  {
  }

  /** The invariant survives the clock moving forward. */
  lemma {:induction false} LaterClockKeepsInvariant(table: Table, clock: nat, later: nat)
    requires TableInvariant(table, clock) && clock <= later
    ensures TableInvariant(table, later)
  {
  }
}
