# Task bot: the task table and the conversation state

A Dafny model of the core of a Telegram daily-task bot. The bot keeps one
SQLite table, `tasks(id, user_id, text, date, done)`, and a per-user
conversation state. Users add a task ("add" button, then a text message),
list today's tasks with a `done_<id>` button under each open one, tick tasks
off, see an eight-day completion statistic with a verdict tier, and "clear"
the day, which moves today's open tasks to tomorrow.

Modules:

- `TaskRows` (`task_rows.dfy`): the row datatype, and the table as a
  sequence of rows in table order. There is one pure function per SQL
  statement: `NewTask` for the INSERT, `Listing` for the SELECT of
  `show_today`, `MarkedDone` for `UPDATE ... SET done=1`, and `RolledOver`
  for `UPDATE ... SET date=tomorrow`. Lemmas cover idempotence, order and
  unique ids.
- `Callbacks` (`callbacks.dfy`): Python's `str`/`int` on integers, the
  `done_<id>` callback data and its parse, the buttons under today's list,
  and the view `show_today` produces.
- `Statistics` (`statistics.dfy`): the window counts, the exact percentage,
  the three tiers, and how each table operation moves the counts.
- `TaskStore` (`task_store.dfy`): class `TaskTable`. Its field `rows` is
  changed in place by the INSERT and the two UPDATEs. Each method is
  specified by the matching `TaskRows` function and keeps ids positive and
  increasing.
- `Dialogue` (`dialogue.dfy`): class `Conversations`, the conversation
  state (`Idle` or `WaitingTask`) kept per user. It also has the methods
  `TickOff` and `CloseDay`, one user's day driven through the class methods.

Modelling choices:

- Dates are integer day numbers. The lexicographic comparison of
  `YYYY-MM-DD` strings in the source agrees with numeric order.
- "Today" is a parameter, not a clock read.
- `done` is a boolean. Through this code the column only ever holds 0 or 1.
- The table is well formed when ids are positive and increase in table
  order, which makes them unique. The SELECTs have no ORDER BY, so table
  order is SQLite's rowid order.
- A new row's id is one more than the largest id in the table, or 1 when
  the table is empty. This is how SQLite assigns an `INTEGER PRIMARY KEY`
  when the statement gives no id.
- The statistics window is `date >= today - 7`, as the code has it. It
  covers eight calendar days, today included. It also counts rows already
  rolled to tomorrow.
- The "clear" button (labelled "clear all") deletes nothing. It runs the
  rollover UPDATE.
- Marking done is not restricted to the caller's rows. The UPDATE filters
  on `id` only, and `MarkedDone` keeps that behaviour.

## Model

| member | source | states |
|---|---|---|
| `TaskRows.NextId` | bot.py:16 | the id given to a new row is not yet in the table, exceeds every id present, and is positive when all ids are |
| `TaskRows.NewTask` | bot.py:43-46 | the inserted row has a fresh id, the caller's user id, the message text, today's date and `done` unset |
| `TaskRows.InsertKeepsWellFormed` | bot.py:16 | appending the new row keeps ids positive and increasing in table order, hence unique (primary-key invariant) |
| `TaskRows.Listing` | bot.py:55-57 | a task is listed iff it is in the table with that user id and that date; an empty result is a plain empty sequence |
| `TaskRows.ListingAppend` | bot.py:55-57 | the listing keeps table order: listing `a + b` is listing `a` followed by listing `b` |
| `TaskRows.ListingAfterInsert` | bot.py:43-57 | right after an insert, today's list is the old list followed by the new task when it is the user's and today's |
| `TaskRows.MarkedDone` | bot.py:78 | same number of rows; id, user, text and date of every row unchanged; a row is done afterwards iff it was done or has that id, whoever owns it |
| `TaskRows.MarkedDoneIdempotent` | bot.py:78 | marking the same id twice equals marking it once |
| `TaskRows.MarkedDoneAbsentIsNoOp` | bot.py:78 | an id no row has leaves the table unchanged |
| `TaskRows.MarkedDoneOneRow` | bot.py:78 | with unique ids, marking row i's id sets row i done and leaves every other row identical |
| `TaskRows.MarkedDoneKeepsWellFormed` | bot.py:78 | marking done keeps ids positive and increasing |
| `TaskRows.RolledOver` | bot.py:105-109 | same number of rows; ids, users, texts and done flags unchanged; rows of that user dated today and not done move to today+1; every other row keeps its date |
| `TaskRows.RolledOverKeepsWellFormed` | bot.py:108 | the rollover keeps ids positive and increasing |
| `TaskRows.RolledOverIdempotent` | bot.py:108 | a second rollover on the same day changes nothing |
| `TaskRows.ListingAfterRollover` | bot.py:105-109 | after the rollover every task the user still has today is done, and they are exactly the done tasks listed before, in the same order |
| `TaskRows.ListingAfterRolloverKeepsDone` | bot.py:105-109 | today's listing after the rollover equals the done part of the listing before it |
| `Callbacks.NatToString` | bot.py:69 | the decimal text of a natural number is a non-empty run of digits with no leading zero |
| `Callbacks.IntToString` | bot.py:69 | `str` of an integer is non-empty, has no underscore, and is a plain numeral exactly for non-negative integers |
| `Callbacks.ParseInt` | bot.py:76 | `int` accepts a numeral (giving a non-negative value) and otherwise only a sign followed by a numeral |
| `Callbacks.DigitsOfNat` | bot.py:69-76 | reading back the decimal text of n gives n |
| `Callbacks.ParseIntToString` | bot.py:69-76 | `int(str(i)) == i` for every integer i |
| `Callbacks.FirstField` | bot.py:76 | the split field is the prefix of the text up to, and without, the first underscore |
| `Callbacks.FirstFieldNoUnderscore` | bot.py:76 | text without underscores is its own first field |
| `Callbacks.DoneCallback` | bot.py:69 | a button's callback data starts with `done_` and has more after it |
| `Callbacks.ParseDoneCallback` | bot.py:74-76 | an id is read only from data starting with `done_` |
| `Callbacks.DoneCallbackRoundTrip` | bot.py:69-76 | parsing the callback data of a button gives back the id it was made from |
| `Callbacks.DoneCallbackInjective` | bot.py:69 | different ids give different callback data |
| `Callbacks.Buttons` | bot.py:65-69 | every undone listed task has its button, and every button belongs to an undone listed task |
| `Callbacks.ButtonsFollowOpenTasks` | bot.py:65-69 | exactly one button per undone task, in list order: the k-th button carries the id of the k-th undone task |
| `TaskRows.OpenOnly` | bot.py:68 | a task is kept iff it is in the list and not done |
| `Callbacks.ShowToday` | bot.py:52-69 | "nothing today" iff the listing is empty; otherwise the listing itself and exactly its `Buttons`: one per undone task of the user's day, in list order, each naming such a task |
| `Callbacks.PressingButtonNamesListedTask` | bot.py:68-78 | every button of today's list parses to the id of an undone row of that user dated today |
| `Callbacks.NoButtonsForDoneTasks` | bot.py:68-69 | a list of done tasks gets no button |
| `Callbacks.NoButtonsAfterRollover` | bot.py:104-109 | after "clear", today's list offers no button |
| `Statistics.WindowTotal` | bot.py:87-91 | the total is at most the table size, and zero iff no row of the user is dated on or after the window start |
| `Statistics.WindowDone` | bot.py:92 | the done count never exceeds the total, and equals it when every row is done |
| `Statistics.WindowDoneCountsDoneRows` | bot.py:87-92 | the done count is the number of selected rows whose `done` is set |
| `Statistics.WeekStats` | bot.py:85-92 | `0 <= done <= total <= rows`; `total` is the number of the user's rows dated on or after today-7 and `done` the number of done ones among them; the total is zero iff the user has no row dated on or after today-7 |
| `Statistics.Percent` | bot.py:93 | the percentage lies in [0, 100], is 0 on an empty window, and is 100 iff the window is non-empty and all done |
| `Statistics.TierOf` | bot.py:99 | an empty window is the bottom tier; a non-empty, fully done window is top |
| `Statistics.PercentAtLeast` | bot.py:93-99 | the percentage reaches p iff `100*done >= p*total` (only p = 0 on an empty window) |
| `Statistics.CrossMultiply` | bot.py:93-99 | `d / n * 100 >= q` iff `100*d >= q*n` for a positive n |
| `Statistics.TierByCrossMultiplication` | bot.py:99 | top iff `100*done >= 90*total > 0`; middle iff `90*total > 100*done >= 50*total`, total > 0; bottom otherwise |
| `Statistics.TierBoundaries` | bot.py:99 | 9 of 10 is top, 5 of 10 is middle, 4 of 10 is bottom, an empty window is bottom at 0% |
| `Statistics.TierMonotone` | bot.py:99 | with the same total, more done tasks never give a lower tier |
| `Statistics.WindowAppend` | bot.py:87-92 | both counts add up over a concatenation of tables |
| `Statistics.StatsAfterInsert` | bot.py:43-47 | adding a task today raises the user's total by one and leaves the done count |
| `Statistics.StatsAfterRollover` | bot.py:105-109 | the rollover leaves the user's counts unchanged (rolled rows stay in the window) |
| `Statistics.WindowAfterRollover` | bot.py:87-109 | for any window starting on or before today, the rollover changes neither count |
| `Statistics.StatsAfterMarkDone` | bot.py:78 | marking done keeps every user's total and never lowers the done count |
| `Statistics.WindowAfterMarkDone` | bot.py:78-92 | for any window, marking done keeps the total and never lowers the done count |
| `TaskStore.TaskTable.constructor` | bot.py:13-16 | a new table is empty and well formed |
| `TaskStore.TaskTable.Insert` | bot.py:44-47 | the rows become the old rows plus one new row (fresh positive id, the user, the text, today, not done); ids stay unique |
| `TaskStore.TaskTable.MarkDone` | bot.py:76-79 | the rows become `MarkedDone` of the old rows |
| `TaskStore.TaskTable.PressDone` | bot.py:74-78 | the id is what the callback parse gives; a parsed id marks that row done, and unparsable data changes nothing |
| `TaskStore.TaskTable.ClearToday` | bot.py:103-110 | the rows become `RolledOver` of the old rows; nothing is deleted |
| `Dialogue.Conversations.constructor` | bot.py:10 | a fresh process has no user in any state |
| `Dialogue.Conversations.StateOf` | bot.py:39 | a user with no stored state is idle |
| `Dialogue.Conversations.PressAdd` | bot.py:35-39 | only this user's state changes, to waiting for the task text |
| `Dialogue.Conversations.ReceiveText` | bot.py:41-49 | when waiting: exactly one task is added and committed, with the message verbatim and today's date; the user becomes idle only if the confirmation reply went through, and stays waiting if it failed. When idle: nothing is added and no state changes |
| `Dialogue.Conversations.AddTask` | bot.py:35-49 | the button followed by a message adds exactly one task with that text; the user ends idle if the confirmation went through, waiting otherwise |
| `Dialogue.TwoDayListings` | bot.py:55-57 | support for `CloseDay`: in its final two-row table, each day lists exactly its own task |
| `Dialogue.TickOff` | bot.py:41-81 | a task added through the "add" exchange is listed open with one button; pressing that button lists it done with no button |
| `Dialogue.FailedConfirmation` | bot.py:41-49 | when the confirmation of a long task fails, the user's next message ("hello") is saved as a second task |
| `Dialogue.CloseDay` | bot.py:41-109 | with "buy milk" done, clear, add "call mom", clear again: "buy milk" stays today and done, "call mom" is tomorrow's only task, and a stray message adds nothing |

## Left out

- Telegram transport: the bot, the dispatcher, menus, keyboards, reply texts and Markdown (bot.py:9-10, 19-33, 60-63, 71-72, 80, 95-101, 111) are presentation. The "refresh" button and the redraw after a tick are part of this.
- Database I/O: connecting, committing, `init_db` and the event loop (bot.py:13-17, 113-118). The table is an in-memory sequence, so a storage failure is not modelled.
- The clock: `datetime.now()` and `strftime` are replaced by an integer "today" parameter. The two `now()` calls of the rollover can straddle midnight; that is a wall-clock race, not logic.
- Statistics.Percent: it is exact rational arithmetic where the source divides floats. The rounding of `done / total * 100` and the `:.1f` formatting are not modelled. When the ratio is exactly 9/10 or 1/2, the float result is not below 90 or 50.
- Callbacks.ParseInt: it accepts a sign and ASCII digits only. Python's `int` also accepts surrounding whitespace, `_` digit separators and non-ASCII decimal digits. The bot never writes any of these into its callback data, and the `split("_")` before the parse removes every underscore anyway.
- Dialogue.Conversations.ReceiveText: only text messages reach `save_task`, because the chat library's message handler takes text content by default. Photos, stickers and other content are not modelled.
- The chat library's memory storage keys the state by chat and user (bot.py:39 takes the chat from the callback's message; the filter at bot.py:41 reads the message's chat and sender). The model keys it by user only, so it matches the bot for a user who talks to it in one chat.
- The button handlers at bot.py:35, 51, 74, 83 and 103 carry no state filter, so they fire only while the user is idle: while waiting for task text, the "add", "today", `done_`, "stats" and "clear" buttons are ignored. The model does not guard `TaskTable.PressDone`, `TaskTable.ClearToday` or `PressAdd` by the conversation state; they run in either state.
- Whether the confirmation reply of `save_task` (bot.py:48) goes through is a parameter (`replied`) of `ReceiveText` and `AddTask`. Telegram's size limit on a reply and network errors decide it; neither is modelled. A failed reply leaves the committed row and the waiting state.
- Dialogue.Conversations.PressAdd: the replies at bot.py:37-38 come before `set_state` at bot.py:39. The model assumes they succeed; if one raises, the user stays in their previous state.
- Concurrent messages from one user racing on the state flag are out of scope.
- SQLite's choice of a random unused id after the largest possible rowid has been used is not modelled. Ids are unbounded integers.
