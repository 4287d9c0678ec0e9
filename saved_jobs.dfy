/**
 * The saved-job list of each seeker: `SaveJobViewSet.create` adds a
 * (seeker, job) row unless it is already there, `destroy` removes it.
 */
module SavedJobs {
  import opened Wrappers
  import opened Seqs
  import opened Models

  datatype SavedJob = SavedJob(seekerId: int, jobId: int)

  /**
   * The reply of `create`. `jobId` is `None` for every value Python treats as
   * false (missing, null, "" or 0).
   */
  function CreateReply(rows: seq<SavedJob>, seeker: int, jobId: Option<int>): (reply: Reply)
    ensures reply == Created || reply == BadRequest
    ensures reply == Created <==> jobId.Some? && SavedJob(seeker, jobId.value) !in rows
  {
    if jobId.None? then BadRequest
    else if SavedJob(seeker, jobId.value) in rows then BadRequest
    else Created
  }

  /**
   * The table after `create`: the old rows are kept in place, the table grows
   * by one row exactly when `create` succeeds, that row is the new pair, and no
   * (seeker, job) pair is ever duplicated.
   */
  function AfterCreate(rows: seq<SavedJob>, seeker: int, jobId: Option<int>): (r: seq<SavedJob>)
    ensures |r| == |rows| + (if CreateReply(rows, seeker, jobId) == Created then 1 else 0)
    ensures r[..|rows|] == rows
    ensures CreateReply(rows, seeker, jobId) == Created ==> r[|rows|] == SavedJob(seeker, jobId.value)
    ensures NoDuplicates(rows) ==> NoDuplicates(r)
  {
    if CreateReply(rows, seeker, jobId) == Created then
      var pair := SavedJob(seeker, jobId.value);
      AppendFreshKeepsNoDuplicates(rows, pair);
      assert (rows + [pair])[..|rows|] == rows;
      rows + [pair]
    else rows
  }

  /** The rows other than `pair`, in order. */
  function Without(rows: seq<SavedJob>, pair: SavedJob): (r: seq<SavedJob>)
    ensures forall x :: x in r <==> x in rows && x != pair
    ensures pair !in rows ==> r == rows
    ensures NoDuplicates(rows) ==> NoDuplicates(r)
    ensures NoDuplicates(rows) && pair in rows ==> |r| == |rows| - 1
  {
    if rows == [] then []
    else
      assert rows == [rows[0]] + rows[1..];
      assert NoDuplicates(rows) ==> NoDuplicates(rows[1..]) && rows[0] !in rows[1..];
      if rows[0] == pair then Without(rows[1..], pair) else [rows[0]] + Without(rows[1..], pair)
  }

  /** The reply of `destroy`. */
  function DestroyReply(rows: seq<SavedJob>, seeker: int, jobId: int): (reply: Reply)
    ensures reply == NoContent <==> SavedJob(seeker, jobId) in rows
    ensures reply == NoContent || reply == NotFound
  {
    if SavedJob(seeker, jobId) in rows then NoContent else NotFound
  }

  lemma {:induction false} WithoutAppend(rows: seq<SavedJob>, x: SavedJob, pair: SavedJob)
    ensures Without(rows + [x], pair) == Without(rows, pair) + (if x == pair then [] else [x])
    decreases |rows|
  {
    if rows == [] {
      assert [x][1..] == [];
    } else {
      assert (rows + [x])[1..] == rows[1..] + [x];
      WithoutAppend(rows[1..], x, pair);
    }
  }

  /** Saving a job and then removing it restores the table. */
  lemma CreateThenDestroy(rows: seq<SavedJob>, seeker: int, jobId: int)
    requires CreateReply(rows, seeker, Some(jobId)) == Created
    ensures DestroyReply(AfterCreate(rows, seeker, Some(jobId)), seeker, jobId) == NoContent
    ensures Without(AfterCreate(rows, seeker, Some(jobId)), SavedJob(seeker, jobId)) == rows
  {
    WithoutAppend(rows, SavedJob(seeker, jobId), SavedJob(seeker, jobId));
  }

  /** Once a saved job is removed, the seeker can save it again. */
  lemma DestroyThenCreate(rows: seq<SavedJob>, seeker: int, jobId: int)
    ensures CreateReply(Without(rows, SavedJob(seeker, jobId)), seeker, Some(jobId)) == Created
  {
  }

  /** The saved-job table; a (seeker, job) pair occurs at most once. */
  class SaveJobTable {
    var rows: seq<SavedJob>

    ghost predicate Valid()
      reads this
    {
      NoDuplicates(rows)
    }

    constructor ()
      ensures Valid() && rows == []
    {
      rows := [];
    }

    /**
     * `create`: refuses a missing job id or a job the seeker already saved,
     * and otherwise adds exactly one row. A job id that names no job is not
     * handled by the action.
     */
    method Create(seeker: int, jobId: Option<int>, jobIds: set<int>) returns (reply: Reply)
      requires Valid()
      requires jobId.Some? ==> jobId.value in jobIds
      modifies this
      ensures Valid()
      ensures reply == CreateReply(old(rows), seeker, jobId)
      ensures rows == AfterCreate(old(rows), seeker, jobId)
    {
      if jobId.None? {
        return BadRequest;
      }
      var pair := SavedJob(seeker, jobId.value);
      if pair in rows {
        return BadRequest;
      }
      rows := rows + [pair];
      reply := Created;
    }

    /** `destroy`: removes the seeker's row for the job, or answers not found and changes nothing. */
    method Destroy(seeker: int, jobId: int) returns (reply: Reply)
      requires Valid()
      modifies this
      ensures Valid()
      ensures reply == DestroyReply(old(rows), seeker, jobId)
      ensures rows == Without(old(rows), SavedJob(seeker, jobId))
      ensures reply == NoContent ==> |rows| == |old(rows)| - 1
      ensures reply == NotFound ==> rows == old(rows)
    {
      var pair := SavedJob(seeker, jobId);
      if pair !in rows {
        return NotFound;
      }
      rows := Without(rows, pair);
      reply := NoContent;
    }
  }
}
