/**
 * The gap-filling id allocator of the submissions endpoint: the next id is the
 * smallest positive integer that is not yet the id of a row.
 *
 * `LeastMissing` is the specification; `ComputeNextId` is the single linear
 * scan the endpoint runs over the ids it read in ascending order.
 */
module Allocator {

  /** `m` is the smallest positive integer that is not in `ids`. */
  ghost predicate IsLeastMissing(ids: set<int>, m: int) {
    m >= 1 && m !in ids && forall k | 1 <= k < m :: k in ids
  }

  /** The ids of `ids` that are at least `k`; it shrinks as the search moves up. */
  ghost function AtLeast(ids: set<int>, k: int): (r: set<int>) {
    set x | x in ids && x >= k
  }

  /** The first integer from `k` upwards that is not in `ids`. */
  function LeastMissingFrom(ids: set<int>, k: int): (m: int)
    ensures m >= k && m !in ids
    ensures forall j | k <= j < m :: j in ids
    decreases |AtLeast(ids, k)|
  {
    if k !in ids then k
    else
      assert AtLeast(ids, k) == AtLeast(ids, k + 1) + {k};
      LeastMissingFrom(ids, k + 1)
  }

  /** The id the allocator must hand out when the table holds `ids`. */
  function LeastMissing(ids: set<int>): (m: int)
    ensures IsLeastMissing(ids, m)
    ensures forall m' | IsLeastMissing(ids, m') :: m' == m
  {
    LeastMissingFrom(ids, 1)
  }

  /** The elements of a sequence of ids, as a set. */
  function Elements(ids: seq<int>): (r: set<int>) {
    set x | x in ids
  }

  /** The order `SELECT id ... ORDER BY id ASC` delivers (duplicates allowed). */
  predicate NonDecreasing(ids: seq<int>) {
    forall i, j | 0 <= i < j < |ids| :: ids[i] <= ids[j]
  }

  /**
   * One pass over the ids with a counter `expected`: a larger id means
   * `expected` is a gap, an equal id moves `expected` past it, a smaller id
   * (a duplicate, or a non-positive id) is skipped.
   */
  method ComputeNextId(ids: seq<int>) returns (next: int)
    ensures 1 <= next <= |ids| + 1
    ensures NonDecreasing(ids) ==> next == LeastMissing(Elements(ids))
  {
    if |ids| == 0 {
      return 1;
    }
    var expected := 1;
    for i := 0 to |ids|
      invariant 1 <= expected <= i + 1
      invariant NonDecreasing(ids) ==> forall k | 1 <= k < expected :: k in ids[..i]
      invariant NonDecreasing(ids) ==> forall j | 0 <= j < i :: ids[j] < expected
    {
      var id := ids[i];
      if id > expected {
        if NonDecreasing(ids) {
          assert IsLeastMissing(Elements(ids), expected) by {
            forall k | 1 <= k < expected ensures k in Elements(ids) {
              assert k in ids[..i];
            }
            forall j | 0 <= j < |ids| ensures ids[j] != expected {
              if j >= i { assert ids[i] <= ids[j]; }
            }
          }
        }
        return expected;
      }
      if id == expected {
        assert ids[..i + 1] == ids[..i] + [id];
        expected := expected + 1;
      } else {
        assert ids[..i + 1] == ids[..i] + [id];
      }
    }
    if NonDecreasing(ids) {
      assert ids[..|ids|] == ids;
      assert IsLeastMissing(Elements(ids), expected);
    }
    return expected;
  }

  /** The integers 1..n, the ids of a table filled without deletions. */
  ghost function Range(n: nat): (r: set<int>)
    ensures forall k :: k in r <==> 1 <= k <= n
    ensures |r| == n
  {
    if n == 0 then {} else Range(n - 1) + {n}
  }

  /** The allocated id never exceeds the number of rows plus one. */
  lemma LeastMissingBound(ids: set<int>)
    ensures 1 <= LeastMissing(ids) <= |ids| + 1
  {
    var m := LeastMissing(ids);
    SubsetSize(Range(m - 1), ids);
  }

  lemma SubsetSize(a: set<int>, b: set<int>)
    requires a <= b
    ensures |a| <= |b|
  {
    assert b == a + (b - a);
    assert a * (b - a) == {};
  }

  /** Worked cases: no rows, a full prefix, a hole below the maximum, 1 missing. */
  lemma Examples()
    ensures LeastMissing({}) == 1
    ensures LeastMissing({1, 2, 3}) == 4
    ensures LeastMissing({1, 3, 4}) == 2
    ensures LeastMissing({2, 3, 4}) == 1
  {
    assert IsLeastMissing({1, 2, 3}, 4);
    assert IsLeastMissing({1, 3, 4}, 2);
  }

  /** Ids exactly 1..n make n + 1 the next id. */
  lemma ConsecutiveIds(n: nat)
    ensures LeastMissing(Range(n)) == n + 1
  {
    assert IsLeastMissing(Range(n), n + 1);
  }

  /**
   * Deleting the row with positive id `k`: the next allocation reuses `k` when
   * it lies below the id that would have been allocated, and is unaffected
   * otherwise.
   */
  lemma DeleteThenAllocate(ids: set<int>, k: int)
    requires k >= 1
    ensures LeastMissing(ids - {k}) == if k < LeastMissing(ids) then k else LeastMissing(ids)
  {
    var m := LeastMissing(ids);
    if k < m {
      assert IsLeastMissing(ids - {k}, k);
    } else {
      assert IsLeastMissing(ids - {k}, m);
    }
  }

  /** After inserting the allocated id, the next allocation is strictly larger. */
  lemma AllocationAdvances(ids: set<int>)
    ensures LeastMissing(ids + {LeastMissing(ids)}) > LeastMissing(ids)
  {
  }

  /** The id set after `n` allocations in a row, starting from `ids`. */
  ghost function AllocateMany(ids: set<int>, n: nat): (r: set<int>) {
    if n == 0 then ids
    else
      var before := AllocateMany(ids, n - 1);
      before + {LeastMissing(before)}
  }

  /**
   * `n` allocations, one after another, on an empty table leave exactly the
   * ids 1..n: serialised callers never receive the same id and leave no gap.
   */
  lemma {:induction false} AllocateManyFromEmpty(n: nat)
    ensures AllocateMany({}, n) == Range(n)
  {
    if n > 0 {
      AllocateManyFromEmpty(n - 1);
      ConsecutiveIds(n - 1);
      assert Range(n - 1) + {n} == Range(n);
    }
  }
}
