/** The `reminders` table (bot.js line 12) and the statements run on it:
    `addReminderToDB` (lines 16-28), `removeReminderFromDB` (lines 31-43) and the
    lookup by event text of the delete command (line 76).

    The table is `id INTEGER PRIMARY KEY AUTOINCREMENT, event TEXT, time INTEGER`.
    Rows are kept in the order they were inserted. This is assumed: a query
    without `ORDER BY` promises no order, though SQLite's full scan of a rowid
    table returns rows by rowid. */
module ReminderStore {
  import opened Wrappers

  /** The largest rowid SQLite can hand out, 2^63 - 1. */
  const MaxRowId: int := 0x7FFF_FFFF_FFFF_FFFF

  datatype Row = Row(id: int, event: string, time: int)

  /** The rows, and the AUTOINCREMENT counter kept in `sqlite_sequence`: the
      largest id the table has ever issued. */
  datatype Store = Store(rows: seq<Row>, lastId: int)

  /** The table right after `CREATE TABLE`. */
  const Empty: Store := Store([], 0)

  /** SQLITE_FULL: the counter has reached the largest rowid. */
  datatype StoreError = Full

  /** Row ids strictly increase in row order, so no two rows share an id. */
  predicate Increasing(rows: seq<Row>) {
    forall i, j :: 0 <= i < j < |rows| ==> rows[i].id < rows[j].id
  }

  /** Every id is one the counter has issued. */
  predicate Valid(s: Store) {
    && Increasing(s.rows)
    && 0 <= s.lastId <= MaxRowId
    && forall i :: 0 <= i < |s.rows| ==> 1 <= s.rows[i].id <= s.lastId
  }

  function Max(a: int, b: int): int {
    if a >= b then a else b
  }

  /** The largest id in the table, or 0 for an empty table. */
  function MaxId(rows: seq<Row>): (m: int)
    ensures forall i :: 0 <= i < |rows| ==> rows[i].id <= m
    ensures m == 0 || exists i :: 0 <= i < |rows| && rows[i].id == m
  {
    if rows == [] then 0
    else
      var rest := MaxId(rows[..|rows| - 1]);
      var last := rows[|rows| - 1].id;
      if last >= rest then last else rest
  }

  /** `INSERT INTO reminders (event, time) VALUES (?, ?)` followed by reading
      `this.lastID`. AUTOINCREMENT picks one more than the largest id the table
      has ever held, and fails with SQLITE_FULL once that is the largest rowid. */
  function Insert(s: Store, event: string, time: int): (r: Result<(Store, int), StoreError>)
    ensures r.Failure? <==> Max(s.lastId, MaxId(s.rows)) >= MaxRowId
    ensures r.Success? ==>
      && r.value.0.rows == s.rows + [Row(r.value.1, event, time)]
      && r.value.0.lastId == r.value.1
      && r.value.1 > s.lastId
      && forall i :: 0 <= i < |s.rows| ==> s.rows[i].id < r.value.1
  {
    var top := Max(s.lastId, MaxId(s.rows));
    if top >= MaxRowId then Failure(Full)
    else Success((Store(s.rows + [Row(top + 1, event, time)], top + 1), top + 1))
  }

  /** On a valid table the new id is the counter plus one, and the table stays valid. */
  lemma InsertValid(s: Store, event: string, time: int)
    requires Valid(s)
    ensures Insert(s, event, time).Success? <==> s.lastId < MaxRowId
    ensures Insert(s, event, time).Success? ==>
      Insert(s, event, time).value.1 == s.lastId + 1 && Valid(Insert(s, event, time).value.0)
  {
    var m := MaxId(s.rows);
    assert m <= s.lastId by {
      if m != 0 {
        var i :| 0 <= i < |s.rows| && s.rows[i].id == m;
      }
    }
  }

  /** The rows left by `DELETE FROM reminders WHERE id = ?`, in their order. */
  function Without(rows: seq<Row>, id: int): (r: seq<Row>)
    ensures forall x :: x in r <==> x in rows && x.id != id
    ensures |r| <= |rows|
  {
    if rows == [] then []
    else if rows[0].id == id then Without(rows[1..], id)
    else
      assert forall x :: x in rows <==> x == rows[0] || x in rows[1..];
      [rows[0]] + Without(rows[1..], id)
  }

  /** `removeReminderFromDB(id)`; the counter is untouched, so ids are never
      issued again. */
  function DeleteById(s: Store, id: int): (r: Store)
    ensures r.lastId == s.lastId
    ensures forall x :: x in r.rows <==> x in s.rows && x.id != id
  {
    Store(Without(s.rows, id), s.lastId)
  }

  /** Deleting an id no row has changes nothing; this is the case when a timer
      fires for a reminder the user already deleted. */
  lemma {:induction false} WithoutAbsent(rows: seq<Row>, id: int)
    requires forall i :: 0 <= i < |rows| ==> rows[i].id != id
    ensures Without(rows, id) == rows
    decreases |rows|
  {
    if rows != [] {
      WithoutAbsent(rows[1..], id);
      assert [rows[0]] + rows[1..] == rows;
    }
  }

  /** The rows after the first keep increasing. */
  lemma IncreasingTail(rows: seq<Row>)
    requires Increasing(rows) && rows != []
    ensures Increasing(rows[1..])
  {
    var tail := rows[1..];
    forall i, j | 0 <= i < j < |tail| ensures tail[i].id < tail[j].id {
      assert tail[i] == rows[i + 1] && tail[j] == rows[j + 1];
    }
  }

  /** In an increasing sequence no later row has the first row's id. */
  lemma FirstIdUnique(rows: seq<Row>)
    requires Increasing(rows) && rows != []
    ensures forall i :: 0 <= i < |rows[1..]| ==> rows[1..][i].id != rows[0].id
  {
    forall i | 0 <= i < |rows[1..]| ensures rows[1..][i].id != rows[0].id {
      assert rows[1..][i] == rows[i + 1];
    }
  }

  /** A row whose id is not the one deleted stays at the front. */
  lemma WithoutKeepsFirst(rows: seq<Row>, id: int)
    requires rows != [] && rows[0].id != id
    ensures Without(rows, id) == [rows[0]] + Without(rows[1..], id)
  {
  }

  /** Cutting element `k` out of `xs` is keeping the first element and cutting
      element `k - 1` out of the rest. */
  lemma CutCons<T>(xs: seq<T>, k: int)
    requires 0 < k < |xs|
    ensures [xs[0]] + (xs[1..][..k - 1] + xs[1..][k..]) == xs[..k] + xs[k + 1..]
  {
    assert xs[1..][..k - 1] == xs[1..k];
    assert xs[1..][k..] == xs[k + 1..];
    assert xs[..k] == [xs[0]] + xs[1..k];
  }

  /** With increasing ids, deleting the id of row `k` removes exactly that row and
      keeps every other row in place. */
  lemma {:induction false} WithoutOne(rows: seq<Row>, k: int)
    requires Increasing(rows) && 0 <= k < |rows|
    ensures Without(rows, rows[k].id) == rows[..k] + rows[k + 1..]
    decreases |rows|
  {
    var id := rows[k].id;
    var tail := rows[1..];
    if k == 0 {
      FirstIdUnique(rows);
      WithoutAbsent(tail, id);
      assert rows[..0] + rows[1..] == tail;
    } else {
      IncreasingTail(rows);
      assert tail[k - 1] == rows[k];
      WithoutOne(tail, k - 1);
      WithoutKeepsFirst(rows, id);
      CutCons(rows, k);
    }
  }

  /** A row whose id is below every id of an increasing sequence can go in front. */
  lemma PrependIncreasing(x: Row, w: seq<Row>)
    requires Increasing(w)
    requires forall y :: y in w ==> x.id < y.id
    ensures Increasing([x] + w)
  {
    var r := [x] + w;
    forall i, j | 0 <= i < j < |r| ensures r[i].id < r[j].id {
      assert r[j] == w[j - 1];
      if i > 0 {
        assert r[i] == w[i - 1];
      } else {
        assert w[j - 1] in w;
      }
    }
  }

  /** Deleting keeps the ids increasing. */
  lemma {:induction false} WithoutIncreasing(rows: seq<Row>, id: int)
    requires Increasing(rows)
    ensures Increasing(Without(rows, id))
    decreases |rows|
  {
    if rows != [] {
      var tail := rows[1..];
      assert Increasing(tail);
      WithoutIncreasing(tail, id);
      if rows[0].id != id {
        var w := Without(tail, id);
        forall y | y in w ensures rows[0].id < y.id {
          assert y in tail;
          var k :| 0 <= k < |tail| && tail[k] == y;
          assert rows[k + 1] == y;
        }
        PrependIncreasing(rows[0], w);
      }
    }
  }

  /** Deleting by id twice is the same as deleting once. */
  lemma DeleteByIdIdempotent(s: Store, id: int)
    ensures DeleteById(DeleteById(s, id), id) == DeleteById(s, id)
  {
    var r := Without(s.rows, id);
    forall i | 0 <= i < |r| ensures r[i].id != id {
      assert r[i] in r;
    }
    WithoutAbsent(r, id);
  }

  /** Deleting keeps a valid table valid. */
  lemma DeleteByIdValid(s: Store, id: int)
    requires Valid(s)
    ensures Valid(DeleteById(s, id))
  {
    WithoutIncreasing(s.rows, id);
    var r := Without(s.rows, id);
    forall i | 0 <= i < |r| ensures 1 <= r[i].id <= s.lastId {
      assert r[i] in s.rows;
    }
  }

  /** The first row, in row order, whose event text equals `name` exactly: the
      row `db.get("SELECT * FROM reminders WHERE event = ?")` hands back. */
  function FirstWithEvent(rows: seq<Row>, name: string): (r: Option<nat>)
    ensures r.Some? ==> r.value < |rows| && rows[r.value].event == name
    ensures r.Some? ==> forall j :: 0 <= j < r.value ==> rows[j].event != name
    ensures r.None? <==> forall j :: 0 <= j < |rows| ==> rows[j].event != name
  {
    if rows == [] then None
    else if rows[0].event == name then Some(0)
    else
      match FirstWithEvent(rows[1..], name)
      case None => None
      case Some(k) => Some(k + 1)
  }
}
