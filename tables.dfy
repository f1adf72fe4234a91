/**
 * A table of the store: a sequence of rows in insertion order, each row
 * carrying the auto-increment primary key `id` and its other columns.
 * The operations here are the id-keyed statements every table shares:
 * INSERT, SELECT ... WHERE id = ?, UPDATE ... WHERE id = ?, DELETE ... WHERE id = ?.
 */
module Tables {
  import opened Wrappers

  datatype Row<T> = Row(id: nat, data: T)

  /** Auto-increment keys: each id is at least 1 and below `next`, and ids ascend in table order. */
  ghost predicate WellFormed<T>(rows: seq<Row<T>>, next: nat)
  {
    && (forall i :: 0 <= i < |rows| ==> 1 <= rows[i].id < next)
    && Ascending(rows)
  }

  ghost predicate Ascending<T>(rows: seq<Row<T>>)
  {
    forall i, j :: 0 <= i < j < |rows| ==> rows[i].id < rows[j].id
  }

  /** INSERT: the new row gets the next auto-increment id. */
  function Insert<T>(rows: seq<Row<T>>, next: nat, data: T): (r: seq<Row<T>>)
    ensures |r| == |rows| + 1 && r[..|rows|] == rows && r[|rows|] == Row(next, data)
  {
    rows + [Row(next, data)]
  }

  /** SELECT ... WHERE id = ?: the first row with that id, if there is one. */
  function Find<T>(rows: seq<Row<T>>, id: nat): (r: Option<Row<T>>)
    ensures r.None? <==> forall i :: 0 <= i < |rows| ==> rows[i].id != id
    ensures r.Some? ==> r.value.id == id &&
                        exists k :: 0 <= k < |rows| && rows[k] == r.value &&
                                    forall j :: 0 <= j < k ==> rows[j].id != id
  {
    if rows == [] then None
    else if rows[0].id == id then Some(rows[0])
    else
      var r := Find(rows[1..], id);
      assert forall i :: 1 <= i < |rows| ==> rows[i] == rows[1..][i - 1];
      r
  }

  /** DELETE ... WHERE id = ?: every row with another id, in the same order. */
  function Remove<T>(rows: seq<Row<T>>, id: nat): (r: seq<Row<T>>)
    ensures |r| <= |rows|
    ensures forall i :: 0 <= i < |r| ==> r[i] in rows && r[i].id != id
    ensures forall i :: 0 <= i < |rows| && rows[i].id != id ==> rows[i] in r
  {
    if rows == [] then []
    else (if rows[0].id == id then [] else [rows[0]]) + Remove(rows[1..], id)
  }

  /** UPDATE ... WHERE id = ?: rows with that id get the new columns, the others are untouched. */
  function Replace<T>(rows: seq<Row<T>>, id: nat, data: T): (r: seq<Row<T>>)
    ensures |r| == |rows|
    ensures forall i :: 0 <= i < |rows| ==> r[i] == (if rows[i].id == id then Row(id, data) else rows[i])
  {
    if rows == [] then []
    else [if rows[0].id == id then Row(id, data) else rows[0]] + Replace(rows[1..], id, data)
  }

  /** Rows newest first: ORDER BY id DESC, given that ids ascend in table order. */
  function Reverse<T>(s: seq<T>): (r: seq<T>)
    ensures |r| == |s| && forall i :: 0 <= i < |s| ==> r[i] == s[|s| - 1 - i]
  {
    if s == [] then [] else Reverse(s[1..]) + [s[0]]
  }

  lemma InsertWellFormed<T>(rows: seq<Row<T>>, next: nat, data: T)
    requires WellFormed(rows, next) && next >= 1
    ensures WellFormed(Insert(rows, next, data), next + 1)
  {
  }

  /** Deleting keeps the remaining keys ascending and below the next id. */
  lemma RemoveWellFormed<T>(rows: seq<Row<T>>, next: nat, id: nat)
    requires WellFormed(rows, next)
    ensures WellFormed(Remove(rows, id), next)
  {
    RemoveAscending(rows, id);
  }

  lemma {:induction false} RemoveAscending<T>(rows: seq<Row<T>>, id: nat)
    requires Ascending(rows)
    ensures Ascending(Remove(rows, id))
  {
    if rows != [] {
      var tail := rows[1..];
      TailAscending(rows);
      RemoveAscending(tail, id);
      var rt := Remove(tail, id);
      forall i | 0 <= i < |rt| ensures rows[0].id < rt[i].id {
        var k :| 0 <= k < |tail| && tail[k] == rt[i];
      }
      if rows[0].id != id {
        ConsAscending(rows[0], rt);
      }
    }
  }

  lemma TailAscending<T>(rows: seq<Row<T>>)
    requires Ascending(rows) && rows != []
    ensures Ascending(rows[1..]) && forall i :: 0 <= i < |rows| - 1 ==> rows[0].id < rows[1..][i].id
  {
    assert forall i :: 0 <= i < |rows| - 1 ==> rows[1..][i] == rows[i + 1];
  }

  lemma ConsAscending<T>(x: Row<T>, s: seq<Row<T>>)
    requires Ascending(s) && forall i :: 0 <= i < |s| ==> x.id < s[i].id
    ensures Ascending([x] + s)
  {
    assert forall i :: 1 <= i <= |s| ==> ([x] + s)[i] == s[i - 1];
  }

  /** Updating columns by id leaves every key where it was. */
  lemma ReplaceWellFormed<T>(rows: seq<Row<T>>, next: nat, id: nat, data: T)
    requires WellFormed(rows, next)
    ensures WellFormed(Replace(rows, id, data), next)
  {
    var r := Replace(rows, id, data);
    assert forall i :: 0 <= i < |rows| ==> r[i].id == rows[i].id;
  }

  /** With unique keys, DELETE ... WHERE id = ? removes exactly the one row with that id and keeps the others in order. */
  lemma {:induction false} RemoveExactlyOne<T>(rows: seq<Row<T>>, k: nat)
    requires Ascending(rows) && k < |rows|
    ensures Remove(rows, rows[k].id) == rows[..k] + rows[k + 1..]
  {
    var id := rows[k].id;
    TailAscending(rows);
    if k == 0 {
      RemoveAbsent(rows[1..], id);
      assert rows[..0] + rows[1..] == rows[1..];
    } else {
      assert rows[1..][k - 1] == rows[k];
      RemoveExactlyOne(rows[1..], k - 1);
      assert Remove(rows, id) == [rows[0]] + Remove(rows[1..], id);
      SpliceAfterHead(rows, k);
    }
  }

  /** Cutting element `k` out of a sequence, seen from its tail. */
  lemma SpliceAfterHead<T>(s: seq<T>, k: nat)
    requires 0 < k < |s|
    ensures [s[0]] + (s[1..][..k - 1] + s[1..][k..]) == s[..k] + s[k + 1..]
  {
    assert s[..k] == [s[0]] + s[1..][..k - 1];
    assert s[k + 1..] == s[1..][k..];
  }

  /** Deleting an id that no row has changes nothing. */
  lemma {:induction false} RemoveAbsent<T>(rows: seq<Row<T>>, id: nat)
    requires forall i :: 0 <= i < |rows| ==> rows[i].id != id
    ensures Remove(rows, id) == rows
  {
    if rows != [] {
      assert forall i :: 0 <= i < |rows[1..]| ==> rows[1..][i] == rows[i + 1];
      RemoveAbsent(rows[1..], id);
      assert rows == [rows[0]] + rows[1..];
    }
  }

  /** With unique keys, removing an id that is present drops the row count by exactly one. */
  lemma RemoveCount<T>(rows: seq<Row<T>>, id: nat)
    requires Ascending(rows) && Find(rows, id).Some?
    ensures |Remove(rows, id)| == |rows| - 1
  {
    var k :| 0 <= k < |rows| && rows[k] == Find(rows, id).value;
    RemoveExactlyOne(rows, k);
  }

  /** Read after INSERT: the new id finds the new row, every other id finds what it found before. */
  lemma {:induction false} FindInserted<T>(rows: seq<Row<T>>, next: nat, data: T, id: nat)
    requires WellFormed(rows, next)
    ensures Find(Insert(rows, next, data), id) == if id == next then Some(Row(next, data)) else Find(rows, id)
  {
    if rows == [] {
      assert Insert(rows, next, data) == [Row(next, data)];
    } else {
      assert Insert(rows, next, data)[1..] == Insert(rows[1..], next, data);
      if rows[0].id != id {
        assert WellFormed(rows[1..], next) by { TailAscending(rows); }
        FindInserted(rows[1..], next, data, id);
      }
    }
  }

  /** Read after UPDATE: the updated id finds the new columns, every other id finds what it found before. */
  lemma {:induction false} FindReplaced<T>(rows: seq<Row<T>>, id: nat, data: T, other: nat)
    ensures Find(Replace(rows, id, data), other) ==
            if other == id then (if Find(rows, id).Some? then Some(Row(id, data)) else None) else Find(rows, other)
  {
    if rows != [] {
      assert Replace(rows, id, data)[1..] == Replace(rows[1..], id, data);
      FindReplaced(rows[1..], id, data, other);
    }
  }

  /** Read after DELETE: the deleted id finds nothing, every other id finds what it found before. */
  lemma {:induction false} FindRemoved<T>(rows: seq<Row<T>>, id: nat, other: nat)
    ensures Find(Remove(rows, id), other) == if other == id then None else Find(rows, other)
  {
    if other == id {
      assert Find(Remove(rows, id), other).None?;
    } else if rows != [] {
      var rest := Remove(rows[1..], id);
      FindRemoved(rows[1..], id, other);
      if rows[0].id == id {
        assert Remove(rows, id) == rest;
      } else {
        assert Remove(rows, id) == [rows[0]] + rest;
        assert ([rows[0]] + rest)[1..] == rest;
      }
    }
  }

  /** With ascending ids, the reversed table lists ids in strictly descending order. */
  lemma NewestFirst<T>(rows: seq<Row<T>>)
    requires Ascending(rows)
    ensures forall i, j :: 0 <= i < j < |rows| ==> Reverse(rows)[i].id > Reverse(rows)[j].id
  {
  }

  /** A column update that keeps every row's id in place keeps the table well formed. */
  lemma SameIdsWellFormed<T, U>(rows: seq<Row<T>>, updated: seq<Row<U>>, next: nat)
    requires WellFormed(rows, next)
    requires |updated| == |rows| && forall i :: 0 <= i < |rows| ==> updated[i].id == rows[i].id
    ensures WellFormed(updated, next)
  {
  }
}
