/**
  The `tasks` table as the bot's mutable store: the INSERT of `save_task`,
  the UPDATE of `task_done` and the UPDATE of `clear_today` change the rows
  in place; the SELECTs of `show_today` and `stats` read them through
  `Callbacks.ShowToday` and `Statistics.WeekStats`.
 */
module TaskStore {
  import opened TaskRows
  import opened Callbacks

  class TaskTable {
    /** The rows in table order. */
    var rows: seq<Task>

    ghost predicate Valid()
      reads this
    {
      WellFormed(rows)
    }

    /** `CREATE TABLE IF NOT EXISTS tasks (...)` on a new database. */
    constructor ()
      ensures Valid() && rows == []
    {
      rows := [];
    }

    /** `INSERT INTO tasks (user_id, text, date, done) VALUES (?, ?, ?, 0)`:
        one row is appended with a fresh positive id; earlier rows are unchanged. */
    method Insert(user: int, text: string, today: int) returns (id: int)
      requires Valid()
      modifies this
      ensures Valid()
      ensures id > 0 && !HasId(old(rows), id)
      ensures rows == old(rows) + [Task(id, user, text, today, false)]
    {
      var t := NewTask(rows, user, text, today);
      InsertKeepsWellFormed(rows, user, text, today);
      rows := rows + [t];
      id := t.id;
    }

    /** `UPDATE tasks SET done=1 WHERE id=?`, whoever owns the row. */
    method MarkDone(id: int)
      requires Valid()
      modifies this
      ensures Valid()
      ensures rows == MarkedDone(old(rows), id)
    {
      MarkedDoneKeepsWellFormed(rows, id);
      rows := MarkedDone(rows, id);
    }

    /** The `done_` button handler: read the id out of the callback data and
        mark that row done; data that does not parse changes nothing. */
    method PressDone(data: string) returns (id: Option<int>)
      requires Valid()
      modifies this
      ensures Valid()
      ensures id == ParseDoneCallback(data)
      ensures id.Some? ==> rows == MarkedDone(old(rows), id.value)
      ensures id.None? ==> rows == old(rows)
    {
      id := ParseDoneCallback(data);
      if id.Some? {
        MarkDone(id.value);
      }
    }

    /** The "clear" button: `UPDATE tasks SET date=tomorrow WHERE user_id=? AND
        date=today AND done=0`. Nothing is deleted. */
    method ClearToday(user: int, today: int)
      requires Valid()
      modifies this
      ensures Valid()
      ensures rows == RolledOver(old(rows), user, today)
    {
      RolledOverKeepsWellFormed(rows, user, today);
      rows := RolledOver(rows, user, today);
    }
  }
}
