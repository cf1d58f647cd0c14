/**
  The `done_<id>` callback data attached to the buttons of today's list, the
  `str(id)` that writes the id and the `int(data.split("_")[1])` that reads
  it back.
 */
module Callbacks {
  import opened TaskRows

  datatype Option<T> = None | Some(value: T)

  predicate IsDigit(c: char) {
    '0' <= c <= '9'
  }

  /** A non-empty run of ASCII digits. */
  predicate IsNumeral(s: string) {
    |s| > 0 && forall k :: 0 <= k < |s| ==> IsDigit(s[k])
  }

  function DigitChar(d: nat): (c: char)
    requires d < 10
    ensures IsDigit(c) && c as int - '0' as int == d
  {
    ('0' as int + d) as char
  }

  /** The decimal numeral of `n`, most significant digit first, no leading zeros. */
  function NatToString(n: nat): (s: string)
    ensures IsNumeral(s)
    ensures s[0] != '0' || n == 0
    decreases n
  {
    if n < 10 then [DigitChar(n)] else NatToString(n / 10) + [DigitChar(n % 10)]
  }

  /** Python's `str` of an integer. */
  function IntToString(i: int): (s: string)
    ensures |s| > 0
    ensures forall k :: 0 <= k < |s| ==> s[k] != '_'
    ensures i >= 0 <==> IsNumeral(s)
  {
    if i < 0 then
      var s := "-" + NatToString(-i);
      assert !IsDigit(s[0]);
      s
    else NatToString(i)
  }

  function DigitValue(c: char): nat
    requires IsDigit(c)
  {
    c as int - '0' as int
  }

  /** The value of a run of digits. */
  function DigitsValue(s: string): nat
    requires forall k :: 0 <= k < |s| ==> IsDigit(s[k])
  {
    if s == [] then 0
    else DigitsValue(s[..|s| - 1]) * 10 + DigitValue(s[|s| - 1])
  }

  /** Python's `int` on the forms the bot writes: an optional sign followed by
      ASCII digits (leading zeros allowed). Everything else is `None`, which
      stands for the raise; Python's `int` also accepts surrounding whitespace,
      `_` digit separators and non-ASCII digits. */
  function ParseInt(s: string): (r: Option<int>)
    ensures IsNumeral(s) ==> r.Some? && r.value >= 0
    ensures r.Some? ==> |s| > 0 && (IsNumeral(s) || ((s[0] == '-' || s[0] == '+') && IsNumeral(s[1..])))
  {
    if |s| > 0 && (s[0] == '-' || s[0] == '+') then
      if IsNumeral(s[1..]) then
        var magnitude: int := DigitsValue(s[1..]);
        Some(if s[0] == '-' then -magnitude else magnitude)
      else None
    else if IsNumeral(s) then Some(DigitsValue(s))
    else None
  }

  /** Reading back a numeral gives the number written. */
  lemma {:induction false} DigitsOfNat(n: nat)
    ensures DigitsValue(NatToString(n)) == n
    decreases n
  {
    if n >= 10 {
      var s := NatToString(n);
      var front := NatToString(n / 10);
      assert s == front + [DigitChar(n % 10)];
      assert s[..|s| - 1] == front;
      DigitsOfNat(n / 10);
    }
  }

  /** `int(str(i)) == i` for every integer. */
  lemma ParseIntToString(i: int)
    ensures ParseInt(IntToString(i)) == Some(i)
  {
    var s := IntToString(i);
    if i < 0 {
      assert s[1..] == NatToString(-i);
      DigitsOfNat(-i);
    } else {
      DigitsOfNat(i);
    }
  }

  /** `s.split("_")[0]`: the text before the first underscore. */
  function FirstField(s: string): (r: string)
    ensures |r| <= |s| && r == s[..|r|]
    ensures forall k :: 0 <= k < |r| ==> r[k] != '_'
    ensures |r| < |s| ==> s[|r|] == '_'
  {
    if s == [] || s[0] == '_' then [] else [s[0]] + FirstField(s[1..])
  }

  const DonePrefix: string := "done_"

  /** `f"done_{task[0]}"`, the callback data of a task's button. */
  function DoneCallback(id: int): (data: string)
    ensures |data| > |DonePrefix| && data[..|DonePrefix|] == DonePrefix
  {
    DonePrefix + IntToString(id)
  }

  /** The `done_` handler: it fires only on data starting with `done_` and takes
      `int(data.split("_")[1])`; the field after the first underscore is the field
      before the next one in the text after the prefix. `None` when the handler
      does not fire or `int` raises. */
  function ParseDoneCallback(data: string): (id: Option<int>)
    ensures id.Some? ==> |data| > |DonePrefix| && data[..|DonePrefix|] == DonePrefix
  {
    if |data| >= |DonePrefix| && data[..|DonePrefix|] == DonePrefix
    then ParseInt(FirstField(data[|DonePrefix|..]))
    else None
  }

  /** Parsing a button's callback data gives back the id it was made from. */
  lemma DoneCallbackRoundTrip(id: int)
    ensures ParseDoneCallback(DoneCallback(id)) == Some(id)
  {
    var data := DoneCallback(id);
    var s := IntToString(id);
    assert data[|DonePrefix|..] == s;
    FirstFieldNoUnderscore(s);
    ParseIntToString(id);
  }

  lemma {:induction false} FirstFieldNoUnderscore(s: string)
    requires forall k :: 0 <= k < |s| ==> s[k] != '_'
    ensures FirstField(s) == s
  {
    if s != [] {
      FirstFieldNoUnderscore(s[1..]);
    }
  }

  /** Distinct ids give distinct callback data. */
  lemma DoneCallbackInjective(a: int, b: int)
    requires DoneCallback(a) == DoneCallback(b)
    ensures a == b
  {
    DoneCallbackRoundTrip(a);
    DoneCallbackRoundTrip(b);
  }

  // ---------------------------------------------------------------------
  // Today's list: one button per undone task

  /** The callback data of the buttons under today's list, built as the source
      walks the list: a button for each undone task. */
  function Buttons(listed: seq<Task>): (r: seq<string>)
    ensures forall t :: t in listed && !t.done ==> DoneCallback(t.id) in r
    ensures forall b :: b in r ==> exists t :: t in listed && !t.done && b == DoneCallback(t.id)
  {
    if listed == [] then []
    else
      var init := listed[..|listed| - 1];
      var last := listed[|listed| - 1];
      assert listed == init + [last];
      assert forall t :: t in init ==> t in listed;
      Buttons(init) + (if last.done then [] else [DoneCallback(last.id)])
  }

  /** Exactly one button per undone task, in list order: the k-th button
      belongs to the k-th undone task. */
  lemma {:induction false} ButtonsFollowOpenTasks(listed: seq<Task>)
    ensures |Buttons(listed)| == |OpenOnly(listed)|
    ensures forall k :: 0 <= k < |Buttons(listed)| ==> Buttons(listed)[k] == DoneCallback(OpenOnly(listed)[k].id)
    decreases |listed|
  {
    if listed != [] {
      var init := listed[..|listed| - 1];
      ButtonsFollowOpenTasks(init);
    }
  }

  /** What "today" shows: the empty-day message, or the list and its buttons. */
  datatype TodayView = NothingToday | Agenda(tasks: seq<Task>, buttons: seq<string>)

  function ShowToday(rows: seq<Task>, user: int, today: int): (v: TodayView)
    ensures v.NothingToday? <==> Listing(rows, user, today) == []
    ensures v.Agenda? ==> v.tasks == Listing(rows, user, today)
    ensures v.Agenda? ==> v.buttons == Buttons(v.tasks)
    ensures v.Agenda? ==> forall b :: b in v.buttons ==>
      exists t :: t in rows && t.userId == user && t.date == today && !t.done && b == DoneCallback(t.id)
  {
    var listed := Listing(rows, user, today);
    if listed == [] then NothingToday else Agenda(listed, Buttons(listed))
  }

  /** Every button of today's list parses back to the id of an undone row of
      that user dated today (and by `MarkedDoneOneRow`, pressing it changes that row only). */
  lemma PressingButtonNamesListedTask(rows: seq<Task>, user: int, today: int, b: string)
    requires b in Buttons(Listing(rows, user, today))
    ensures ParseDoneCallback(b).Some?
    ensures exists i :: (0 <= i < |rows| && rows[i].id == ParseDoneCallback(b).value
      && rows[i].userId == user && rows[i].date == today && !rows[i].done)
  {
    var t :| t in Listing(rows, user, today) && !t.done && b == DoneCallback(t.id);
    DoneCallbackRoundTrip(t.id);
    var i :| 0 <= i < |rows| && rows[i] == t;
  }

  /** No done task has a button. */
  lemma {:induction false} NoButtonsForDoneTasks(listed: seq<Task>)
    requires forall t :: t in listed ==> t.done
    ensures Buttons(listed) == []
    decreases |listed|
  {
    if listed != [] {
      var init := listed[..|listed| - 1];
      assert listed[|listed| - 1] in listed;
      assert forall t :: t in init ==> t in listed;
      NoButtonsForDoneTasks(init);
    }
  }

  /** After the rollover today's list offers no button at all. */
  lemma NoButtonsAfterRollover(rows: seq<Task>, user: int, today: int)
    ensures Buttons(Listing(RolledOver(rows, user, today), user, today)) == []
  {
    ListingAfterRollover(rows, user, today);
    NoButtonsForDoneTasks(Listing(RolledOver(rows, user, today), user, today));
  }
}
