/**
  The conversation state, kept per user (the chat library keys it by chat
  and user):
  the "add" button puts the user into `waiting_task`, and the next text
  message from that user becomes a task and ends the state.
 */
module Dialogue {
  import opened TaskRows
  import opened Callbacks
  import opened TaskStore

  datatype ConvState = Idle | WaitingTask

  class Conversations {
    /** The state of each user who has one; a user with no entry is idle. */
    var states: map<int, ConvState>

    /** A fresh process: nobody is waiting (nothing is persisted). */
    constructor ()
      ensures states == map[]
    {
      states := map[];
    }

    function StateOf(user: int): (s: ConvState)
      reads this
      ensures user !in states ==> s == Idle
    {
      if user in states then states[user] else Idle
    }

    /** The "add" button: `set_state("waiting_task")` for this user only. */
    method PressAdd(user: int)
      modifies this
      ensures states == old(states)[user := WaitingTask]
      ensures StateOf(user) == WaitingTask
    {
      states := states[user := WaitingTask];
    }

    /** A text message from `user`. In `waiting_task` it is saved verbatim as a
        task dated today and committed; then the confirmation is sent, and only
        if that reply goes through (`replied`) is the state finished. A reply
        that raises leaves the row in place and the user still waiting.
        Otherwise no handler takes the message and nothing changes. */
    method ReceiveText(table: TaskTable, user: int, text: string, today: int, replied: bool) returns (id: Option<int>)
      requires table.Valid()
      modifies this, table
      ensures table.Valid()
      ensures old(StateOf(user)) == Idle ==>
        id == None && table.rows == old(table.rows) && states == old(states)
      ensures old(StateOf(user)) == WaitingTask ==>
        && id.Some? && !HasId(old(table.rows), id.value)
        && table.rows == old(table.rows) + [Task(id.value, user, text, today, false)]
        && states == (if replied then old(states)[user := Idle] else old(states))
      ensures replied ==> StateOf(user) == Idle
      ensures !replied ==> StateOf(user) == old(StateOf(user))
    {
      if StateOf(user) == WaitingTask {
        var newId := table.Insert(user, text, today);
        id := Some(newId);
        if replied {
          states := states[user := Idle];
        }
      } else {
        id := None;
      }
    }

    /** The whole "add" exchange: the button, then the user's next message.
        Exactly one task is added, with the message as its text, whatever state
        the user was in before; the user is idle again when the confirmation
        went through and still waiting when it failed. */
    method AddTask(table: TaskTable, user: int, text: string, today: int, replied: bool) returns (id: int)
      requires table.Valid()
      modifies this, table
      ensures table.Valid()
      ensures id > 0 && !HasId(old(table.rows), id)
      ensures table.rows == old(table.rows) + [Task(id, user, text, today, false)]
      ensures states == old(states)[user := if replied then Idle else WaitingTask]
    {
      PressAdd(user);
      var added := ReceiveText(table, user, text, today, replied);
      id := added.value;
    }
  }

  /** A user adds "buy milk" and sees it listed open with its button, then
      presses the button and sees it listed done with no button. */
  method TickOff(user: int, day: int) returns (first: TodayView, ticked: TodayView)
    ensures first.Agenda? && |first.tasks| == 1 && |first.buttons| == 1
    ensures first.tasks[0].text == "buy milk" && !first.tasks[0].done
    ensures ticked.Agenda? && |ticked.tasks| == 1 && ticked.buttons == []
    ensures ticked.tasks[0].text == "buy milk" && ticked.tasks[0].done
  {
    var table := new TaskTable();
    var conv := new Conversations();

    var milk := conv.AddTask(table, user, "buy milk", day, true);
    ghost var open := Task(milk, user, "buy milk", day, false);
    assert table.rows == [open];
    ListingAfterInsert([], open, user, day);
    first := ShowToday(table.rows, user, day);
    assert Buttons([open]) == [DoneCallback(milk)] by {
      assert [open][..0] == [];
    }

    var pressed := table.PressDone(first.buttons[0]);
    DoneCallbackRoundTrip(milk);
    ghost var closed := open.(done := true);
    assert table.rows == [closed];
    ListingAfterInsert([], closed, user, day);
    NoButtonsForDoneTasks([closed]);
    ticked := ShowToday(table.rows, user, day);
  }

  /** Support for `CloseDay`: the two-row table it ends with, a done task of
      today and a task of tomorrow, lists one task on each day. */
  lemma TwoDayListings(closed: Task, moved: Task, user: int, day: int)
    requires closed.userId == user && closed.date == day
    requires moved.userId == user && moved.date == day + 1
    ensures Listing([closed, moved], user, day) == [closed]
    ensures Listing([closed, moved], user, day + 1) == [moved]
  {
    assert [closed, moved][..1] == [closed];
    assert [closed][..0] == [];
  }

  /** The same day continued: with "buy milk" done, the user clears the day,
      adds "call mom", clears again and sends a stray message. The done task
      stays on its day, the open one moves to the next day, and the stray
      message adds nothing. */
  method CloseDay(user: int, day: int) returns (stray: Option<int>, today: seq<Task>, tomorrow: seq<Task>)
    ensures stray == None
    ensures |today| == 1 && today[0].text == "buy milk" && today[0].done
    ensures |tomorrow| == 1 && tomorrow[0].text == "call mom" && !tomorrow[0].done
  {
    var table := new TaskTable();
    var conv := new Conversations();

    var milk := conv.AddTask(table, user, "buy milk", day, true);
    table.MarkDone(milk);
    ghost var closed := Task(milk, user, "buy milk", day, true);
    assert table.rows == [closed];

    table.ClearToday(user, day);
    assert table.rows == [closed];
    var mom := conv.AddTask(table, user, "call mom", day, true);
    ghost var call := Task(mom, user, "call mom", day, false);
    assert table.rows == [closed, call];
    table.ClearToday(user, day);
    ghost var moved := call.(date := day + 1);
    assert table.rows == [closed, moved];
    stray := conv.ReceiveText(table, user, "hello", day, true);

    TwoDayListings(closed, moved, user, day);
    today := Listing(table.rows, user, day);
    tomorrow := Listing(table.rows, user, day + 1);
  }

  /** A confirmation that fails (a text too long for one reply, or a network
      error) leaves the user waiting, so the next message, whatever it says,
      is saved as a second task. */
  method FailedConfirmation(user: int, day: int, long: string) returns (tasks: seq<Task>)
    ensures |tasks| == 2
    ensures tasks[0].text == long && tasks[1].text == "hello"
    ensures tasks[0].userId == user && tasks[1].userId == user
  {
    var table := new TaskTable();
    var conv := new Conversations();

    var first := conv.AddTask(table, user, long, day, false);
    assert conv.StateOf(user) == WaitingTask;
    var second := conv.ReceiveText(table, user, "hello", day, true);
    tasks := table.rows;
  }
}
