/** Tables whose key column is an H2 `identity`: the database hands out ids from a
    counter that starts at 1 and is never reset, so rows keep strictly increasing ids
    in storage order and a deleted id is never handed out again. */
module Tables {
  import opened Outcomes

  datatype Row<T> = Row(id: int, data: T)

  /** The rows in storage order and the next value of the identity counter. */
  datatype Table<T> = Table(rows: seq<Row<T>>, nextId: int)

  function Ids<T(==)>(rows: seq<Row<T>>): set<int> {
    set r | r in rows :: r.id
  }

  ghost predicate Increasing<T>(rows: seq<Row<T>>) {
    forall i, j :: 0 <= i < j < |rows| ==> rows[i].id < rows[j].id
  }

  /** The identity invariant: ids strictly increase and all lie below the counter. */
  ghost predicate Wf<T>(t: Table<T>) {
    && 1 <= t.nextId
    && Increasing(t.rows)
    && forall r :: r in t.rows ==> 1 <= r.id < t.nextId
  }

  /** A table as `create table` leaves it. */
  function Created<T>(): (t: Table<T>)
    ensures Wf(t) && t.rows == []
  {
    Table([], 1)
  }

  /** `insert into …`: one row is appended under a fresh id taken from the counter. */
  function Insert<T>(t: Table<T>, d: T): (u: Table<T>)
    requires Wf(t)
    ensures Wf(u)
    ensures |u.rows| == |t.rows| + 1 && u.rows[..|t.rows|] == t.rows
    ensures u.rows[|t.rows|].data == d && u.rows[|t.rows|].id !in Ids(t.rows)
  {
    Table(t.rows + [Row(t.nextId, d)], t.nextId + 1)
  }

  /** `select max(id) from …`: SQL NULL (`None`) exactly when the table is empty. */
  function MaxId<T>(rows: seq<Row<T>>): (m: Option<int>)
    ensures m.None? <==> rows == []
    ensures m.Some? ==> m.value in Ids(rows) && forall r :: r in rows ==> r.id <= m.value
  {
    if rows == [] then None
    else match MaxId(rows[1..])
      case None => Some(rows[0].id)
      case Some(x) => Some(if rows[0].id > x then rows[0].id else x)
  }

  /** After an insert, `max(id)` is the id of the row just inserted. */
  lemma InsertedIdIsMax<T>(t: Table<T>, d: T)
    requires Wf(t)
    ensures MaxId(Insert(t, d).rows) == Some(t.nextId)
  {
    var u := Insert(t, d);
    assert u.rows[|t.rows|] == Row(t.nextId, d);
  }

  /** The rows that `keep` accepts, in storage order (the survivors of a `delete … where`). */
  function Retain<T(==,!new)>(rows: seq<Row<T>>, keep: Row<T> -> bool): (u: seq<Row<T>>)
    ensures |u| <= |rows|
    ensures forall r :: r in u <==> r in rows && keep(r)
    ensures Increasing(rows) ==> Increasing(u)
  {
    if rows == [] then []
    else
      var rest := Retain(rows[1..], keep);
      HeadBelowTail(rows, rest);
      if keep(rows[0]) then [rows[0]] + rest else rest
  }

  /** In increasing rows the first id lies below every id after it. */
  lemma HeadBelowTail<T>(rows: seq<Row<T>>, rest: seq<Row<T>>)
    requires rows != [] && forall r :: r in rest ==> r in rows[1..]
    requires Increasing(rows[1..]) ==> Increasing(rest)
    ensures Increasing(rows) ==> Increasing(rest) && Increasing([rows[0]] + rest)
  {
    if Increasing(rows) {
      assert Increasing(rows[1..]) by {
        forall i, j | 0 <= i < j < |rows[1..]| ensures rows[1..][i].id < rows[1..][j].id {
          assert rows[1..][i] == rows[i + 1] && rows[1..][j] == rows[j + 1];
        }
      }
      forall r | r in rest ensures rows[0].id < r.id {
        var j :| 0 <= j < |rows[1..]| && rows[1..][j] == r;
        assert rows[j + 1] == r;
      }
      var s := [rows[0]] + rest;
      forall i, j | 0 <= i < j < |s| ensures s[i].id < s[j].id {
        assert s[j] == rest[j - 1] && rest[j - 1] in rest;
        if i > 0 {
          assert s[i] == rest[i - 1];
        }
      }
    }
  }

  /** `update … set … where id = ?`: every row with that id gets the new data; no
      other row changes, and a missing id changes nothing. */
  function SetData<T>(rows: seq<Row<T>>, id: int, d: T): (u: seq<Row<T>>)
    ensures |u| == |rows|
    ensures forall i :: 0 <= i < |rows| ==> u[i].id == rows[i].id
    ensures forall i :: 0 <= i < |rows| ==> u[i].data == if rows[i].id == id then d else rows[i].data
  {
    if rows == [] then []
    else [if rows[0].id == id then Row(id, d) else rows[0]] + SetData(rows[1..], id, d)
  }

  /** An update by id keeps the set of ids and their order, and changes nothing when
      no row has the id. */
  lemma SetDataKeepsIds<T>(rows: seq<Row<T>>, id: int, d: T)
    ensures Ids(SetData(rows, id, d)) == Ids(rows)
    ensures Increasing(rows) ==> Increasing(SetData(rows, id, d))
    ensures id !in Ids(rows) ==> SetData(rows, id, d) == rows
  {
    var u := SetData(rows, id, d);
    forall x | x in Ids(u) ensures x in Ids(rows) {
      var i :| 0 <= i < |u| && u[i].id == x;
      assert rows[i] in rows;
    }
    forall x | x in Ids(rows) ensures x in Ids(u) {
      var i :| 0 <= i < |rows| && rows[i].id == x;
      assert u[i] in u;
    }
    if id !in Ids(rows) {
      forall i | 0 <= i < |rows| ensures u[i] == rows[i] {
        assert rows[i] in rows;
      }
    }
  }

  /** An update by id keeps the identity invariant. */
  lemma SetDataKeepsWf<T>(t: Table<T>, id: int, d: T)
    requires Wf(t)
    ensures Wf(Table(SetData(t.rows, id, d), t.nextId))
    ensures Ids(SetData(t.rows, id, d)) == Ids(t.rows)
  {
    var u := SetData(t.rows, id, d);
    SetDataKeepsIds(t.rows, id, d);
    forall r | r in u ensures 1 <= r.id < t.nextId {
      assert r.id in Ids(u);
      var q :| q in t.rows && q.id == r.id;
    }
  }

  /** The rows whose id is not in `ids` (`delete … where id in (…)`). */
  function WithoutIds<T(==,!new)>(rows: seq<Row<T>>, ids: set<int>): (u: seq<Row<T>>)
    ensures forall r :: r in u <==> r in rows && r.id !in ids
    ensures Increasing(rows) ==> Increasing(u)
  {
    Retain(rows, (r: Row<T>) => r.id !in ids)
  }

  lemma {:induction false} WithoutNothing<T(!new)>(rows: seq<Row<T>>)
    ensures WithoutIds(rows, {}) == rows
  {
    if rows != [] {
      WithoutNothing(rows[1..]);
      assert rows == [rows[0]] + rows[1..];
    }
  }

  /** Deleting one set of ids and then another deletes their union. */
  lemma {:induction false} WithoutTwice<T(!new)>(rows: seq<Row<T>>, a: set<int>, b: set<int>)
    ensures WithoutIds(WithoutIds(rows, a), b) == WithoutIds(rows, a + b)
  {
    if rows != [] {
      WithoutTwice(rows[1..], a, b);
    }
  }
}
