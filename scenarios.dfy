/**
 * Callers of the table that use nothing but the contracts of its methods:
 * serialised submissions on an empty table, and an id freed by a deletion
 * being handed out again.
 */
module Scenarios {
  import opened Wrappers
  import Allocator
  import opened Submissions

  /** One successful submission on a table holding the ids 1..i gets id i + 1. */
  method SubmitOnFullPrefix(table: SubmissionsTable, data: Submission, ghost i: nat) returns (id: int)
    requires FilledTo(table, i) && i < MaxInteger
    modifies table
    ensures FilledTo(table, i + 1)
    ensures id == i + 1
  {
    Allocator.ConsecutiveIds(i);
    var outcome := table.AllocateAndInsert(data, None);
    assert outcome == Committed(i + 1);
    id := outcome.id;
    RangeStep(i);
  }

  /**
   * `n` successful submissions, one after the other, on a new table receive
   * the ids 1, 2, ..., n: no id is handed out twice and none is skipped.
   */
  method SerialSubmissions(n: nat, data: Submission) returns (table: SubmissionsTable, ids: seq<int>)
    requires n <= MaxInteger
    ensures fresh(table) && FilledTo(table, n)
    ensures |ids| == n
    ensures forall i | 0 <= i < n :: ids[i] == i + 1
  {
    table := new SubmissionsTable();
    ids := [];
    for i := 0 to n
      invariant FilledTo(table, i)
      invariant ids == OneTo(i)
    {
      var id := SubmitOnFullPrefix(table, data, i);
      ids := ids + [id];
    }
  }

  /** A new table after n submissions. */
  method FilledTable(n: nat, data: Submission) returns (table: SubmissionsTable)
    requires n <= MaxInteger
    ensures fresh(table) && FilledTo(table, n)
  {
    var ids;
    table, ids := SerialSubmissions(n, data);
  }

  ghost predicate FilledTo(table: SubmissionsTable, i: nat)
    reads table
  {
    table.Valid() && table.IdSet() == Allocator.Range(i)
  }

  function OneTo(n: nat): (r: seq<int>)
    ensures |r| == n && forall k | 0 <= k < n :: r[k] == k + 1
  {
    if n == 0 then [] else OneTo(n - 1) + [n]
  }

  lemma RangeStep(i: nat)
    ensures Allocator.Range(i) + {i + 1} == Allocator.Range(i + 1)
  {
  }

  /** The ids 1..n with k taken out: k is the next id, and putting it back restores 1..n. */
  lemma HoleInPrefix(n: nat, k: int)
    requires 1 <= k <= n
    ensures Allocator.LeastMissing(Allocator.Range(n) - {k}) == k
    ensures (Allocator.Range(n) - {k}) + {k} == Allocator.Range(n)
  {
    Allocator.ConsecutiveIds(n);
    Allocator.DeleteThenAllocate(Allocator.Range(n), k);
  }

  /**
   * On a table holding the ids 1..n, deleting id k and submitting again hands
   * out k, and the table holds 1..n once more.
   */
  method DeleteAndResubmit(table: SubmissionsTable, data: Submission, ghost n: nat, k: int)
    returns (id: int)
    requires FilledTo(table, n) && 1 <= k <= n
    modifies table
    ensures FilledTo(table, n)
    ensures id == k
  {
    table.Delete(k);
    HoleInPrefix(n, k);
    var outcome := table.AllocateAndInsert(data, None);
    id := outcome.id;
  }

  /**
   * Rows 1, 2 and 3, then row 2 deleted: the next submission gets id 2 again,
   * and the one after it id 4.
   */
  method DeleteThenReallocate(data: Submission) returns (reused: int, next: int)
    ensures reused == 2 && next == 4
  {
    var table := FilledTable(3, data);
    reused := DeleteAndResubmit(table, data, 3, 2);
    next := SubmitOnFullPrefix(table, data, 3);
  }
}
