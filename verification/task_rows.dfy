/**
  The `tasks` table of the bot as a sequence of rows in table (insertion)
  order, and the pure effect of each SQL statement the bot runs on it.
  Dates are integer day numbers: the `YYYY-MM-DD` text the bot stores
  compares lexicographically exactly as the day numbers compare.
 */
module TaskRows {

  /** One row `(id, user_id, text, date, done)` of the `tasks` table. */
  datatype Task = Task(id: int, userId: int, text: string, date: int, done: bool)

  /** `INTEGER PRIMARY KEY`: no two rows share an id (implied by `IncreasingIds`). */
  ghost predicate UniqueIds(rows: seq<Task>) {
    forall i, j :: 0 <= i < j < |rows| ==> rows[i].id != rows[j].id
  }

  /** Every id the bot's table can hold was assigned by SQLite, so it is positive. */
  ghost predicate PositiveIds(rows: seq<Task>) {
    forall t :: t in rows ==> t.id > 0
  }

  /** The query has no ORDER BY, so "table order" is SQLite's rowid scan
      order: ids increase along the sequence. */
  ghost predicate IncreasingIds(rows: seq<Task>) {
    forall i, j :: 0 <= i < j < |rows| ==> rows[i].id < rows[j].id
  }

  /** What every reachable table satisfies: positive ids, increasing in table order. */
  ghost predicate WellFormed(rows: seq<Task>) {
    PositiveIds(rows) && IncreasingIds(rows)
  }

  predicate HasId(rows: seq<Task>, id: int) {
    exists t :: t in rows && t.id == id
  }

  /** The largest id in a non-empty table. */
  function LargestId(rows: seq<Task>): (m: int)
    requires rows != []
    ensures forall t :: t in rows ==> t.id <= m
    ensures exists t :: t in rows && t.id == m
  {
    if |rows| == 1 then rows[0].id
    else
      var rest := LargestId(rows[1..]);
      assert forall t :: t in rows ==> t == rows[0] || t in rows[1..];
      if rows[0].id >= rest then rows[0].id else rest
  }

  /** The id SQLite gives the next inserted row: one more than the largest, or 1 on an empty table. */
  function NextId(rows: seq<Task>): (r: int)
    ensures !HasId(rows, r)
    ensures forall t :: t in rows ==> t.id < r
    ensures PositiveIds(rows) ==> r > 0
  {
    if rows == [] then 1 else LargestId(rows) + 1
  }

  /** The row that `INSERT ... VALUES (user, text, today, 0)` appends. */
  function NewTask(rows: seq<Task>, user: int, text: string, today: int): (t: Task)
    ensures !HasId(rows, t.id)
    ensures t.userId == user && t.text == text && t.date == today && !t.done
  {
    Task(NextId(rows), user, text, today, false)
  }

  /** Appending a fresh row keeps ids unique, positive and increasing in table order. */
  lemma InsertKeepsWellFormed(rows: seq<Task>, user: int, text: string, today: int)
    requires WellFormed(rows)
    ensures WellFormed(rows + [NewTask(rows, user, text, today)])
  {
    var t := NewTask(rows, user, text, today);
    var rows' := rows + [t];
    forall i, j | 0 <= i < j < |rows'| ensures rows'[i].id < rows'[j].id {
      if j == |rows| {
        assert rows'[i] in rows;
      }
    }
  }

  // ---------------------------------------------------------------------
  // SELECT ... WHERE user_id = ? AND date = ?

  /** The rows of `user` dated `day`, in table order. */
  function Listing(rows: seq<Task>, user: int, day: int): (r: seq<Task>)
    ensures |r| <= |rows|
    ensures forall t :: t in r <==> t in rows && t.userId == user && t.date == day
  {
    if rows == [] then []
    else
      var last := rows[|rows| - 1];
      var init := rows[..|rows| - 1];
      assert rows == init + [last];
      Listing(init, user, day) + (if last.userId == user && last.date == day then [last] else [])
  }

  /** The listing keeps table order: listing a concatenation lists each part in turn. */
  lemma {:induction false} ListingAppend(a: seq<Task>, b: seq<Task>, user: int, day: int)
    ensures Listing(a + b, user, day) == Listing(a, user, day) + Listing(b, user, day)
    decreases |b|
  {
    if b == [] {
      assert a + b == a;
    } else {
      var last := b[|b| - 1];
      var init := b[..|b| - 1];
      assert (a + b)[..|a + b| - 1] == a + init;
      assert (a + b)[|a + b| - 1] == last;
      ListingAppend(a, init, user, day);
    }
  }

  /** Listing right after an insert shows everything listed before, then the new row if it matches. */
  lemma ListingAfterInsert(rows: seq<Task>, t: Task, user: int, day: int)
    ensures Listing(rows + [t], user, day)
         == Listing(rows, user, day) + (if t.userId == user && t.date == day then [t] else [])
  {
    ListingAppend(rows, [t], user, day);
    assert [t][..0] == [];
  }

  // ---------------------------------------------------------------------
  // UPDATE tasks SET done=1 WHERE id=?

  /** The table after `UPDATE tasks SET done=1 WHERE id=id`: only `done` changes,
      and it becomes set exactly on the row with that id, whoever owns it. */
  function MarkedDone(rows: seq<Task>, id: int): (r: seq<Task>)
    ensures |r| == |rows|
    ensures forall i :: 0 <= i < |rows| ==>
      && r[i].id == rows[i].id && r[i].userId == rows[i].userId
      && r[i].text == rows[i].text && r[i].date == rows[i].date
      && (r[i].done <==> rows[i].done || rows[i].id == id)
  {
    if rows == [] then []
    else [if rows[0].id == id then rows[0].(done := true) else rows[0]] + MarkedDone(rows[1..], id)
  }

  /** Marking twice is marking once. */
  lemma MarkedDoneIdempotent(rows: seq<Task>, id: int)
    ensures MarkedDone(MarkedDone(rows, id), id) == MarkedDone(rows, id)
  {
    var once := MarkedDone(rows, id);
    var twice := MarkedDone(once, id);
    assert forall i :: 0 <= i < |rows| ==> twice[i] == once[i];
  }

  /** An id that no row has changes nothing (the callback's silent no-op). */
  lemma MarkedDoneAbsentIsNoOp(rows: seq<Task>, id: int)
    requires !HasId(rows, id)
    ensures MarkedDone(rows, id) == rows
  {
    var r := MarkedDone(rows, id);
    forall i | 0 <= i < |rows| ensures r[i] == rows[i] {
      assert rows[i] in rows;
    }
  }

  /** With unique ids, marking the id of row `i` sets that row's flag and changes no other row. */
  lemma MarkedDoneOneRow(rows: seq<Task>, i: int)
    requires UniqueIds(rows)
    requires 0 <= i < |rows|
    ensures MarkedDone(rows, rows[i].id)[i] == rows[i].(done := true)
    ensures forall j :: 0 <= j < |rows| && j != i ==> MarkedDone(rows, rows[i].id)[j] == rows[j]
  {
    var r := MarkedDone(rows, rows[i].id);
    forall j | 0 <= j < |rows| && j != i ensures r[j] == rows[j] {
      assert rows[j].id != rows[i].id by {
        if j < i { assert rows[j].id != rows[i].id; } else { assert rows[i].id != rows[j].id; }
      }
    }
  }

  /** Marking done never touches the id column, so the table stays well formed. */
  lemma MarkedDoneKeepsWellFormed(rows: seq<Task>, id: int)
    requires WellFormed(rows)
    ensures WellFormed(MarkedDone(rows, id))
  {
    var r := MarkedDone(rows, id);
    forall t | t in r ensures t.id > 0 {
      var i :| 0 <= i < |r| && r[i] == t;
      assert rows[i] in rows;
    }
  }

  // ---------------------------------------------------------------------
  // UPDATE tasks SET date=tomorrow WHERE user_id=? AND date=today AND done=0

  /** Whether the rollover statement's WHERE clause selects row `t`. */
  predicate Rolls(t: Task, user: int, today: int) {
    t.userId == user && t.date == today && !t.done
  }

  /** The table after the "clear" rollover: the selected rows move to `today + 1`;
      nothing else in any row changes. */
  function RolledOver(rows: seq<Task>, user: int, today: int): (r: seq<Task>)
    ensures |r| == |rows|
    ensures forall i :: 0 <= i < |rows| ==>
      && r[i].id == rows[i].id && r[i].userId == rows[i].userId
      && r[i].text == rows[i].text && r[i].done == rows[i].done
      && (Rolls(rows[i], user, today) ==> r[i].date == today + 1)
      && (!Rolls(rows[i], user, today) ==> r[i].date == rows[i].date)
  {
    if rows == [] then []
    else [if Rolls(rows[0], user, today) then rows[0].(date := today + 1) else rows[0]]
         + RolledOver(rows[1..], user, today)
  }

  /** The rollover never touches the id column, so the table stays well formed. */
  lemma RolledOverKeepsWellFormed(rows: seq<Task>, user: int, today: int)
    requires WellFormed(rows)
    ensures WellFormed(RolledOver(rows, user, today))
  {
    var r := RolledOver(rows, user, today);
    forall t | t in r ensures t.id > 0 {
      var i :| 0 <= i < |r| && r[i] == t;
      assert rows[i] in rows;
    }
  }

  /** A second rollover on the same day finds nothing left to move. */
  lemma RolledOverIdempotent(rows: seq<Task>, user: int, today: int)
    ensures RolledOver(RolledOver(rows, user, today), user, today) == RolledOver(rows, user, today)
  {
    var once := RolledOver(rows, user, today);
    var twice := RolledOver(once, user, today);
    assert forall i :: 0 <= i < |rows| ==> twice[i] == once[i];
  }

  /** After the rollover every row the user still has today is done, and those
      are exactly the done rows listed before, in the same order. */
  lemma ListingAfterRollover(rows: seq<Task>, user: int, today: int)
    ensures forall t :: t in Listing(RolledOver(rows, user, today), user, today) ==> t.done
    ensures Listing(RolledOver(rows, user, today), user, today) == DoneOnly(Listing(rows, user, today))
  {
    ListingAfterRolloverKeepsDone(rows, user, today);
  }

  lemma {:induction false} ListingAfterRolloverKeepsDone(rows: seq<Task>, user: int, today: int)
    ensures Listing(RolledOver(rows, user, today), user, today) == DoneOnly(Listing(rows, user, today))
    decreases |rows|
  {
    if rows != [] {
      var init := rows[..|rows| - 1];
      var last := rows[|rows| - 1];
      assert rows == init + [last];
      var moved := RolledOver(rows, user, today)[|rows| - 1];
      var before := if last.userId == user && last.date == today then [last] else [];
      var after := if moved.userId == user && moved.date == today then [moved] else [];
      RolledOverAppend(init, last, user, today);
      ListingAfterRolloverKeepsDone(init, user, today);
      ListingAfterInsert(RolledOver(init, user, today), moved, user, today);
      ListingAfterInsert(init, last, user, today);
      DoneOnlyAppend(Listing(init, user, today), before);
      assert after == DoneOnly(before) by {
        if before != [] {
          assert before[..0] == [];
        }
      }
    }
  }

  /** The rollover acts row by row, so it distributes over a final row. */
  lemma RolledOverAppend(init: seq<Task>, last: Task, user: int, today: int)
    ensures RolledOver(init + [last], user, today)
         == RolledOver(init, user, today) + [RolledOver(init + [last], user, today)[|init|]]
  {
    var whole := RolledOver(init + [last], user, today);
    var front := RolledOver(init, user, today);
    forall i | 0 <= i < |init| ensures whole[i] == front[i] {
      assert (init + [last])[i] == init[i];
    }
  }

  /** The done rows of a sequence, in order. */
  function DoneOnly(ts: seq<Task>): (r: seq<Task>)
    ensures forall t :: t in r <==> t in ts && t.done
  {
    if ts == [] then []
    else
      var init := ts[..|ts| - 1];
      assert ts == init + [ts[|ts| - 1]];
      DoneOnly(init) + (if ts[|ts| - 1].done then [ts[|ts| - 1]] else [])
  }

  lemma DoneOnlyAppend(a: seq<Task>, b: seq<Task>)
    requires |b| <= 1
    ensures DoneOnly(a + b) == DoneOnly(a) + DoneOnly(b)
  {
    if b != [] {
      assert (a + b)[..|a + b| - 1] == a;
      assert b[..0] == [];
    } else {
      assert a + b == a;
    }
  }

  /** The rows that are not done, in order. */
  function OpenOnly(ts: seq<Task>): (r: seq<Task>)
    ensures forall t :: t in r <==> t in ts && !t.done
  {
    if ts == [] then []
    else
      var init := ts[..|ts| - 1];
      assert ts == init + [ts[|ts| - 1]];
      OpenOnly(init) + (if ts[|ts| - 1].done then [] else [ts[|ts| - 1]])
  }
}
