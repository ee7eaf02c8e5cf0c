/**
 * The state the handlers and the worker share: the `analyses` table, the
 * upload files on disk, the broker's queue and the clock.
 */
module Backend {
  import opened Common
  import opened Records

  /** One run of the analysis crew: the report it returned or the text of what it raised, and its length in seconds. */
  datatype EngineRun = Returns(report: string, seconds: nat) | Raises(message: string, seconds: nat)

  /** A message published to the broker: the worker task's arguments, under the job's id. */
  datatype Delivery = Delivery(taskId: Id, query: string, filePath: string)

  class Store {
    var table: Table
    var files: set<string>
    var queue: seq<Delivery>
    var clock: nat

    ghost predicate Valid()
      reads this
    {
      TableInvariant(table, clock)
    }

    constructor ()
      ensures Valid()
      ensures table == map[] && files == {} && queue == [] && clock == 0
    {
      table, files, queue, clock := map[], {}, [], 0;
    }

    /**
     * The `finally` clause of both execution paths: if the upload exists it
     * is removed; an error while removing it is swallowed.
     */
    method RemoveUpload(path: string, removalFails: bool)
      modifies this`files
      ensures files == if removalFails then old(files) else old(files) - {path}
    {
      if path in files {
        if !removalFails {
          files := files - {path};
        }
      }
    }

    /** Insert or overwrite one row (an `add` or field updates, then `commit`). */
    method Put(r: AnalysisRecord)
      requires Valid()
      requires WellFormed(r) && r.createdAt <= clock
      requires r.completedAt.Some? ==> r.completedAt.value <= clock
      modifies this`table
      ensures Valid()
      ensures table == old(table)[r.id := r]
    {
      InsertKeepsInvariant(table, clock, r);
      table := table[r.id := r];
    }

    /** Time passes: a run of the crew, or the broker's countdown before a retry. */
    method Advance(seconds: nat)
      requires Valid()
      modifies this`clock
      ensures Valid()
      ensures clock == old(clock) + seconds
    {
      LaterClockKeepsInvariant(table, clock, clock + seconds);
      clock := clock + seconds;
    }
  }
}
