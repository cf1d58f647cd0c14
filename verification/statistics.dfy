/**
  The "stats" screen: how many of the user's rows fall in the window
  `date >= today - 7`, how many of those are done, the completion
  percentage and the tier it is sorted into.
 */
module Statistics {
  import opened TaskRows

  /** `timedelta(days=7)`: the window starts this many days before today and
      includes both ends, so it spans eight calendar days. */
  const WindowDays: int := 7

  /** Whether row `t` is selected by `WHERE user_id=? AND date>=since`. */
  predicate InWindow(t: Task, user: int, since: int) {
    t.userId == user && t.date >= since
  }

  /** `len(all_tasks)`: the number of selected rows. */
  function WindowTotal(rows: seq<Task>, user: int, since: int): (n: nat)
    ensures n <= |rows|
    ensures n == 0 <==> forall t :: t in rows ==> !InWindow(t, user, since)
  {
    if rows == [] then 0
    else
      assert forall t :: t in rows ==> t == rows[0] || t in rows[1..];
      (if InWindow(rows[0], user, since) then 1 else 0) + WindowTotal(rows[1..], user, since)
  }

  /** `sum(1 for t in all_tasks if t[0] == 1)`: the selected rows that are done. */
  function WindowDone(rows: seq<Task>, user: int, since: int): (n: nat)
    ensures n <= WindowTotal(rows, user, since)
    ensures (forall t :: t in rows ==> t.done) ==> n == WindowTotal(rows, user, since)
  {
    if rows == [] then 0
    else
      assert forall t :: t in rows[1..] ==> t in rows;
      (if InWindow(rows[0], user, since) && rows[0].done then 1 else 0) + WindowDone(rows[1..], user, since)
  }

  /** The two counts the screen shows. */
  datatype Stats = Stats(total: nat, done: nat)

  function WeekStats(rows: seq<Task>, user: int, today: int): (s: Stats)
    ensures s.done <= s.total <= |rows|
    ensures s.total == WindowTotal(rows, user, today - WindowDays)
    ensures s.done == WindowTotal(DoneOnly(rows), user, today - WindowDays)
    ensures s.total == 0 <==> forall t :: t in rows ==> t.userId != user || t.date < today - WindowDays
  {
    var since := today - WindowDays;
    WindowDoneCountsDoneRows(rows, user, since);
    Stats(WindowTotal(rows, user, since), WindowDone(rows, user, since))
  }

  /** `done / total * 100`, or 0 when there is no task: exact, where the source uses a float. */
  function Percent(s: Stats): (p: real)
    requires s.done <= s.total
    ensures 0.0 <= p <= 100.0
    ensures s.total == 0 ==> p == 0.0
    ensures p == 100.0 <==> s.total > 0 && s.done == s.total
  {
    if s.total == 0 then 0.0 else (s.done as real) / (s.total as real) * 100.0
  }

  /** The verdict line under the counts. */
  datatype Tier = Top | Middle | Bottom

  /** `>= 90` is top, `>= 50` middle, anything lower bottom. */
  function TierOf(s: Stats): (tier: Tier)
    requires s.done <= s.total
    ensures s.total == 0 ==> tier == Bottom
    ensures s.total > 0 && s.done == s.total ==> tier == Top
  {
    var p := Percent(s);
    if p >= 90.0 then Top else if p >= 50.0 then Middle else Bottom
  }

  /** The percentage reaches `p` exactly when `100 * done >= p * total`
      (and only `p == 0` is reached on an empty window). */
  lemma PercentAtLeast(s: Stats, p: nat)
    requires s.done <= s.total
    ensures Percent(s) >= p as real <==> (if s.total == 0 then p == 0 else 100 * s.done >= p * s.total)
  {
    if s.total > 0 {
      var d, n, q := s.done as real, s.total as real, p as real;
      CrossMultiply(d, n, q);
      assert (100 * s.done) as real == 100.0 * d;
      assert (p * s.total) as real == q * n;
    }
  }

  /** `d / n * 100 >= q` compared without dividing. */
  lemma CrossMultiply(d: real, n: real, q: real)
    requires n > 0.0
    ensures d / n * 100.0 >= q <==> 100.0 * d >= q * n
  {
    var pct := d / n * 100.0;
    assert pct * n == 100.0 * d by {
      assert d / n * n == d;
    }
    if pct >= q {
      ScalePositive(q, pct, n);
    } else {
      ScalePositive(pct, q, n);
    }
  }

  lemma ScalePositive(x: real, y: real, n: real)
    requires n > 0.0 && x <= y
    ensures x * n <= y * n
    ensures x < y ==> x * n < y * n
  {
  }

  /** The tiers in integer terms: cross-multiplication instead of division. */
  lemma TierByCrossMultiplication(s: Stats)
    requires s.done <= s.total
    ensures TierOf(s) == Top <==> s.total > 0 && 100 * s.done >= 90 * s.total
    ensures TierOf(s) == Middle <==> s.total > 0 && 90 * s.total > 100 * s.done >= 50 * s.total
    ensures TierOf(s) == Bottom <==> s.total == 0 || 100 * s.done < 50 * s.total
  {
    PercentAtLeast(s, 90);
    PercentAtLeast(s, 50);
  }

  /** Both boundaries belong to the higher tier: 9 of 10 is top, 5 of 10 middle,
      4 of 10 bottom, and an empty week is bottom. */
  lemma TierBoundaries()
    ensures TierOf(Stats(10, 9)) == Top
    ensures TierOf(Stats(10, 5)) == Middle
    ensures TierOf(Stats(10, 4)) == Bottom
    ensures TierOf(Stats(0, 0)) == Bottom && Percent(Stats(0, 0)) == 0.0
  {
    TierByCrossMultiplication(Stats(10, 9));
    TierByCrossMultiplication(Stats(10, 5));
    TierByCrossMultiplication(Stats(10, 4));
  }

  function Rank(tier: Tier): nat {
    match tier
    case Bottom => 0
    case Middle => 1
    case Top => 2
  }

  /** With the same number of tasks, finishing more never lowers the tier. */
  lemma TierMonotone(s: Stats, s': Stats)
    requires s.done <= s.total && s'.done <= s'.total
    requires s'.total == s.total && s.done <= s'.done
    ensures Rank(TierOf(s)) <= Rank(TierOf(s'))
  {
    TierByCrossMultiplication(s);
    TierByCrossMultiplication(s');
  }

  // ---------------------------------------------------------------------
  // How the table operations move the counts

  lemma {:induction false} WindowAppend(a: seq<Task>, b: seq<Task>, user: int, since: int)
    ensures WindowTotal(a + b, user, since) == WindowTotal(a, user, since) + WindowTotal(b, user, since)
    ensures WindowDone(a + b, user, since) == WindowDone(a, user, since) + WindowDone(b, user, since)
    decreases |a|
  {
    if a == [] {
      assert a + b == b;
    } else {
      assert (a + b)[1..] == a[1..] + b;
      WindowAppend(a[1..], b, user, since);
    }
  }

  /** `WindowDone` counts exactly the window's rows whose `done` is set. */
  lemma {:induction false} WindowDoneCountsDoneRows(rows: seq<Task>, user: int, since: int)
    ensures WindowDone(rows, user, since) == WindowTotal(DoneOnly(rows), user, since)
    decreases |rows|
  {
    if rows != [] {
      var init := rows[..|rows| - 1];
      var last := rows[|rows| - 1];
      assert rows == init + [last];
      var tail := if last.done then [last] else [];
      assert DoneOnly(rows) == DoneOnly(init) + tail;
      WindowAppend(init, [last], user, since);
      WindowAppend(DoneOnly(init), tail, user, since);
      WindowDoneCountsDoneRows(init, user, since);
      assert [last][1..] == [];
      if last.done {
        assert tail[1..] == [];
      }
    }
  }

  /** A task added today counts in the week's total at once, and not as done. */
  lemma StatsAfterInsert(rows: seq<Task>, user: int, text: string, today: int)
    ensures var s := WeekStats(rows, user, today);
            WeekStats(rows + [NewTask(rows, user, text, today)], user, today) == Stats(s.total + 1, s.done)
  {
    var t := NewTask(rows, user, text, today);
    var since := today - WindowDays;
    WindowAppend(rows, [t], user, since);
    assert [t][1..] == [];
    assert WindowTotal([t], user, since) == 1 && WindowDone([t], user, since) == 0;
  }

  /** A rolled row moves from today to tomorrow, both inside the window,
      so the rollover leaves the week's counts as they were. */
  lemma StatsAfterRollover(rows: seq<Task>, user: int, today: int)
    ensures WeekStats(RolledOver(rows, user, today), user, today) == WeekStats(rows, user, today)
  {
    WindowAfterRollover(rows, user, today, today - WindowDays);
  }

  lemma {:induction false} WindowAfterRollover(rows: seq<Task>, user: int, today: int, since: int)
    requires since <= today
    ensures WindowTotal(RolledOver(rows, user, today), user, since) == WindowTotal(rows, user, since)
    ensures WindowDone(RolledOver(rows, user, today), user, since) == WindowDone(rows, user, since)
    decreases |rows|
  {
    if rows != [] {
      var r := RolledOver(rows, user, today);
      assert r[1..] == RolledOver(rows[1..], user, today) by {
        var tail := RolledOver(rows[1..], user, today);
        forall i | 0 <= i < |tail| ensures r[1..][i] == tail[i] {
          assert rows[1..][i] == rows[i + 1];
        }
      }
      WindowAfterRollover(rows[1..], user, today, since);
    }
  }

  /** Marking a task done keeps the week's total and never lowers the done count. */
  lemma StatsAfterMarkDone(rows: seq<Task>, user: int, today: int, id: int)
    ensures WeekStats(MarkedDone(rows, id), user, today).total == WeekStats(rows, user, today).total
    ensures WeekStats(MarkedDone(rows, id), user, today).done >= WeekStats(rows, user, today).done
  {
    WindowAfterMarkDone(rows, user, today - WindowDays, id);
  }

  lemma {:induction false} WindowAfterMarkDone(rows: seq<Task>, user: int, since: int, id: int)
    ensures WindowTotal(MarkedDone(rows, id), user, since) == WindowTotal(rows, user, since)
    ensures WindowDone(MarkedDone(rows, id), user, since) >= WindowDone(rows, user, since)
    decreases |rows|
  {
    if rows != [] {
      var r := MarkedDone(rows, id);
      assert r[1..] == MarkedDone(rows[1..], id) by {
        var tail := MarkedDone(rows[1..], id);
        forall i | 0 <= i < |tail| ensures r[1..][i] == tail[i] {
          assert rows[1..][i] == rows[i + 1];
        }
      }
      WindowAfterMarkDone(rows[1..], user, since, id);
    }
  }
}
