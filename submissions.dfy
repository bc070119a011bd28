/**
 * The `submissions` table and the locked transaction that gives a new row the
 * smallest free id: BEGIN, LOCK TABLE ... IN EXCLUSIVE MODE, SELECT id ...
 * ORDER BY id ASC, INSERT with the computed id, COMMIT, and ROLLBACK when any
 * statement fails.
 *
 * The exclusive lock makes the whole allocate-and-insert step one atomic
 * operation, so it is modelled as one method of the table object. A failing
 * database statement is an input (`fault`); the rollback restores the rows
 * the transaction started from.
 */
module Submissions {
  import opened Wrappers
  import Allocator

  /** The range of the Postgres `integer` type of the `id` column. */
  const MinInteger := -2147483648
  const MaxInteger := 2147483647

  /** The payload columns of a row; `created_at` (a clock default) is not modelled. */
  datatype Submission = Submission(
    name: string,
    telephone: Option<string>,
    gender: Option<string>,
    email: Option<string>,
    more: Option<string>)

  datatype Row = Row(id: int, data: Submission)

  /** The statement of the transaction at which the database reports an error. */
  datatype Stage = Begin | Lock | Select | Insert | Commit

  datatype TxError =
    | StorageFailure(at: Stage)
      /** the id is already taken (PRIMARY KEY violation) */
    | DuplicateKey(id: int)
      /** the id does not fit the `integer` column */
    | OutOfRange(id: int)

  datatype TxOutcome = Committed(id: int) | RolledBack(error: TxError)

  /** The ids of the rows, in insertion order. */
  function IdsOf(rows: seq<Row>): (ids: seq<int>)
    ensures |ids| == |rows|
    ensures forall i | 0 <= i < |rows| :: ids[i] == rows[i].id
  {
    if rows == [] then [] else [rows[0].id] + IdsOf(rows[1..])
  }

  /** Appending a row appends its id. */
  lemma IdsOfAppend(rows: seq<Row>, row: Row)
    ensures IdsOf(rows + [row]) == IdsOf(rows) + [row.id]
    ensures Allocator.Elements(IdsOf(rows + [row])) == Allocator.Elements(IdsOf(rows)) + {row.id}
  {
  }

  /** Putting `a` in front of an ascending sequence that starts at `a` or above. */
  lemma ConsAscending(a: int, t: seq<int>)
    requires Allocator.NonDecreasing(t)
    requires t != [] ==> a <= t[0]
    ensures Allocator.NonDecreasing([a] + t)
  {
    var r := [a] + t;
    forall i, j | 0 <= i < j < |r| ensures r[i] <= r[j] {
      if i == 0 && j > 1 {
        assert t[0] <= t[j - 1];
      }
    }
  }

  /** `x` placed into the ascending sequence `s` before the first id not smaller than it. */
  function InsertAscending(x: int, s: seq<int>): (r: seq<int>)
    requires Allocator.NonDecreasing(s)
    ensures Allocator.NonDecreasing(r)
    ensures multiset(r) == multiset(s) + multiset{x}
    ensures |r| == |s| + 1
    ensures r[0] == x || (s != [] && r[0] == s[0])
  {
    if s == [] || x <= s[0] then
      ConsAscending(x, s);
      [x] + s
    else
      var rest := InsertAscending(x, s[1..]);
      assert s[1..] != [] ==> s[0] <= s[1];
      ConsAscending(s[0], rest);
      assert s == [s[0]] + s[1..];
      [s[0]] + rest
  }

  /** The ids in ascending order: what `SELECT id ... ORDER BY id ASC` returns. */
  function SortAscending(ids: seq<int>): (r: seq<int>)
    ensures Allocator.NonDecreasing(r)
    ensures multiset(r) == multiset(ids)
    ensures |r| == |ids|
  {
    if ids == [] then []
    else
      assert ids == [ids[0]] + ids[1..];
      InsertAscending(ids[0], SortAscending(ids[1..]))
  }

  /** Sorting keeps the set of ids. */
  lemma SortKeepsElements(ids: seq<int>)
    ensures Allocator.Elements(SortAscending(ids)) == Allocator.Elements(ids)
  {
    var r := SortAscending(ids);
    forall x ensures x in r <==> x in ids {
      assert x in r <==> x in multiset(r);
      assert x in ids <==> x in multiset(ids);
    }
  }

  /** No two rows share an id (the PRIMARY KEY). */
  predicate DistinctIds(rows: seq<Row>) {
    forall i, j | 0 <= i < j < |rows| :: rows[i].id != rows[j].id
  }

  /** The rows without the one whose id is `id`: `DELETE ... WHERE id = $1`. */
  function RemoveId(rows: seq<Row>, id: int): (r: seq<Row>)
    ensures forall row :: row in r <==> row in rows && row.id != id
    ensures DistinctIds(rows) ==> DistinctIds(r)
  {
    if rows == [] then []
    else if rows[0].id == id then RemoveId(rows[1..], id)
    else
      var rest := RemoveId(rows[1..], id);
      if DistinctIds(rows) then
        assert DistinctIds(rows[1..]) by {
          forall i, j | 0 <= i < j < |rows| - 1 ensures rows[1..][i].id != rows[1..][j].id {
            assert rows[1..][i] == rows[i + 1] && rows[1..][j] == rows[j + 1];
          }
        }
        assert forall k | 0 <= k < |rest| :: rest[k].id != rows[0].id by {
          forall k | 0 <= k < |rest| ensures rest[k].id != rows[0].id {
            assert rest[k] in rows[1..];
            var m :| 0 <= m < |rows[1..]| && rows[1..][m] == rest[k];
            assert rows[m + 1] == rest[k];
          }
        }
        [rows[0]] + rest
      else
        [rows[0]] + rest
  }

  /** Deleting by id removes exactly that id from the ids in use. */
  lemma {:induction false} RemoveIdIds(rows: seq<Row>, id: int)
    ensures Allocator.Elements(IdsOf(RemoveId(rows, id))) == Allocator.Elements(IdsOf(rows)) - {id}
  {
    if rows != [] {
      RemoveIdIds(rows[1..], id);
      var rest := RemoveId(rows[1..], id);
      ElementsCons(rows[0].id, IdsOf(rows[1..]));
      assert IdsOf(rows) == [rows[0].id] + IdsOf(rows[1..]);
      if rows[0].id != id {
        assert IdsOf([rows[0]] + rest) == [rows[0].id] + IdsOf(rest);
        ElementsCons(rows[0].id, IdsOf(rest));
      }
    }
  }

  lemma ElementsCons(x: int, s: seq<int>)
    ensures Allocator.Elements([x] + s) == {x} + Allocator.Elements(s)
  {
  }

  /** Past the INSERT, only the COMMIT can still fail. */
  lemma LastStageLeft(fault: Option<Stage>)
    requires fault != Some(Begin) && fault != Some(Lock)
    requires fault != Some(Select) && fault != Some(Insert)
    ensures fault == None || fault == Some(Commit)
  {
    match fault
    case None =>
    case Some(stage) =>
      match stage
      case Begin =>
      case Lock =>
      case Select =>
      case Insert =>
      case Commit =>
  }

  class SubmissionsTable {
    /** The rows in insertion order; their physical order is never observed, since the SELECT orders by id. */
    var rows: seq<Row>

    /** What the database enforces: PRIMARY KEY ids that fit the `integer` column. */
    ghost predicate Valid()
      reads this
    {
      && DistinctIds(rows)
      && (forall row | row in rows :: MinInteger <= row.id <= MaxInteger)
    }

    /** What the allocator maintains on top: every id is positive. */
    ghost predicate IdsPositive()
      reads this
    {
      forall row | row in rows :: row.id >= 1
    }

    /** The ids in use. */
    ghost function IdSet(): (ids: set<int>)
      reads this
    {
      Allocator.Elements(IdsOf(rows))
    }

    /** The table as `CREATE TABLE IF NOT EXISTS` leaves it the first time. */
    constructor ()
      ensures Valid() && IdsPositive()
      ensures rows == []
    {
      rows := [];
    }

    /**
     * `INSERT INTO submissions(id, ...) VALUES(...)`: refused when the id does
     * not fit the column or is already taken, otherwise one row is added.
     */
    method InsertRow(id: int, data: Submission) returns (error: Option<TxError>)
      requires Valid()
      modifies this
      ensures Valid()
      ensures error == (if !(MinInteger <= id <= MaxInteger) then Some(OutOfRange(id))
                        else if id in old(IdSet()) then Some(DuplicateKey(id))
                        else None)
      ensures error == None ==> rows == old(rows) + [Row(id, data)]
      ensures error != None ==> rows == old(rows)
    {
      if !(MinInteger <= id <= MaxInteger) {
        return Some(OutOfRange(id));
      }
      if id in IdsOf(rows) {
        return Some(DuplicateKey(id));
      }
      assert forall i | 0 <= i < |rows| :: rows[i].id != id by {
        assert forall i | 0 <= i < |rows| :: IdsOf(rows)[i] == rows[i].id;
      }
      rows := rows + [Row(id, data)];
      return None;
    }

    /**
     * `SELECT id FROM submissions ORDER BY id ASC` followed by the scan: the
     * smallest positive integer that is not the id of a row.
     */
    method NextId() returns (id: int)
      ensures id == Allocator.LeastMissing(IdSet())
      ensures 1 <= id <= |rows| + 1
    {
      var ids := SortAscending(IdsOf(rows));
      SortKeepsElements(IdsOf(rows));
      id := Allocator.ComputeNextId(ids);
    }

    /**
     * The locked transaction of the submissions endpoint. On commit exactly one
     * row is added, its id is the smallest positive integer not in use, and
     * every other row is as it was; on rollback the rows are exactly as before.
     * With no failing statement, only an id beyond the `integer` range aborts.
     */
    method AllocateAndInsert(data: Submission, fault: Option<Stage>) returns (outcome: TxOutcome)
      requires Valid()
      modifies this
      ensures Valid()
      ensures old(IdsPositive()) ==> IdsPositive()
      ensures outcome.Committed? ==>
        && outcome.id == Allocator.LeastMissing(old(IdSet()))
        && outcome.id !in old(IdSet())
        && rows == old(rows) + [Row(outcome.id, data)]
      ensures outcome.Committed? ==> IdSet() == old(IdSet()) + {outcome.id}
      ensures outcome.RolledBack? ==> rows == old(rows)
      ensures outcome.Committed? <==> fault == None && Allocator.LeastMissing(old(IdSet())) <= MaxInteger
      ensures outcome.RolledBack? ==>
        outcome.error == (
          if fault.Some? && fault.value != Commit then StorageFailure(fault.value)
          else if Allocator.LeastMissing(old(IdSet())) > MaxInteger then OutOfRange(Allocator.LeastMissing(old(IdSet())))
          else StorageFailure(Commit))
    {
      ghost var least := Allocator.LeastMissing(IdSet());
      // BEGIN. A failure before the INSERT has nothing to undo, so its
      // ROLLBACK leaves the rows as they are.
      var snapshot := rows;
      if fault == Some(Begin) {
        return RolledBack(StorageFailure(Begin));
      }
      // LOCK TABLE submissions IN EXCLUSIVE MODE: from here on nothing else
      // writes the table or takes this lock until COMMIT or ROLLBACK.
      if fault == Some(Lock) {
        return RolledBack(StorageFailure(Lock));
      }
      if fault == Some(Select) {
        return RolledBack(StorageFailure(Select));
      }
      var nextId := NextId();
      assert nextId == least && nextId >= 1 && nextId !in IdSet();
      if fault == Some(Insert) {
        return RolledBack(StorageFailure(Insert));
      }
      LastStageLeft(fault);
      var error := InsertRow(nextId, data);
      if error.Some? {
        assert error.value == OutOfRange(nextId) && nextId > MaxInteger;
        return RolledBack(error.value);
      }
      assert nextId <= MaxInteger;
      if fault == Some(Commit) {
        // ROLLBACK undoes the INSERT.
        rows := snapshot;
        return RolledBack(StorageFailure(Commit));
      }
      // COMMIT
      assert rows == snapshot + [Row(nextId, data)];
      IdsOfAppend(snapshot, Row(nextId, data));
      return Committed(nextId);
    }

    /** `DELETE FROM submissions WHERE id = $1`: the row with that id, if any, goes. */
    method Delete(id: int)
      requires Valid()
      modifies this
      ensures Valid()
      ensures old(IdsPositive()) ==> IdsPositive()
      ensures rows == RemoveId(old(rows), id)
      ensures IdSet() == old(IdSet()) - {id}
    {
      RemoveIdIds(rows, id);
      rows := RemoveId(rows, id);
    }
  }
}
