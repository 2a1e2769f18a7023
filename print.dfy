/**
 * The task table (src/print.rs). `FromTask` is `TaskRow::from_task` with the
 * clock reading `now` passed in: the time left, the bar and its colour are
 * integer arithmetic on `due - now` in seconds. `PrintTasks` is what
 * `print_tasks` shows: a message for no tasks, otherwise one row per task,
 * each built from its own reading of the clock.
 */
module Print {
  import opened Results
  import opened Tasks
  import RustFmt

  const SecondsPerDay: int := 86400
  const SecondsPerHour: int := 3600
  const OverdueLabel: string := "OVERDUE"
  const NoTasksMessage: string := "No tasks found."

  /** The block character U+25A0 that one day of the bar is drawn with. */
  const Block: char := '\U{25A0}'

  /** The colour of the bar: red for at most two days left, yellow up to five, green beyond. */
  datatype Tier = Red | Yellow | Green

  /** The four columns of a row; `visualBar` is uncoloured and `tier` says which colour it is shown in. */
  datatype TaskRow = TaskRow(name: string, weight: string, timeLeft: string, visualBar: string, tier: Tier)

  /**
   * The readings of `Local::now()` while a table is built: `from_task` reads
   * the clock once per row, so row `i` sees reading `i`.
   */
  type Clock = nat -> Timestamp

  /** What `print_tasks` writes: a one-line message or a table of rows. */
  datatype Display = Message(text: string) | Table(rows: seq<TaskRow>)

  /** `(due - now).num_days()`: whole days, truncated toward zero. */
  function Days(due: Timestamp, now: Timestamp): int {
    RustFmt.Div(due - now, SecondsPerDay)
  }

  /** `(due - now).num_hours() % 24`: whole hours truncated toward zero, remainder with the sign of the hours. */
  function Hours(due: Timestamp, now: Timestamp): int {
    RustFmt.Rem(RustFmt.Div(due - now, SecondsPerHour), 24)
  }

  /** The time-left column. */
  function TimeLeft(days: int, hours: int): string {
    if days < 0 then OverdueLabel
    else if days == 0 then RustFmt.Dec(hours) + "h"
    else RustFmt.Dec(days) + "d " + RustFmt.Dec(hours) + "h"
  }

  /** `"■ ".repeat(count)`. */
  function Bar(count: nat): (bar: string)
    ensures |bar| == 2 * count
    ensures forall i :: 0 <= i < |bar| ==> bar[i] == if i % 2 == 0 then Block else ' '
  {
    if count == 0 then [] else [Block, ' '] + Bar(count - 1)
  }

  function ColourTier(days: int): Tier {
    if days <= 2 then Red else if days <= 5 then Yellow else Green
  }

  /** `TaskRow::from_task`, with the clock reading `now`. */
  function FromTask(t: Task, now: Timestamp): (row: TaskRow)
    ensures row.name == t.name
    ensures WeightFromName(row.weight) == Some(t.weight)
  {
    var days, hours := Days(t.dueDate, now), Hours(t.dueDate, now);
    TaskRow(t.name, WeightName(t.weight), TimeLeft(days, hours),
            Bar(if days < 0 then 0 else days), ColourTier(days))
  }

  /**
   * `print_tasks`: the message when there are no tasks, otherwise one row per
   * task in the given order, row `i` built at the clock reading `clock(i)`.
   */
  function PrintTasks(ts: seq<Task>, clock: Clock): (d: Display)
    ensures d.Message? <==> ts == []
    ensures d.Message? ==> d.text == NoTasksMessage
    ensures d.Table? ==> |d.rows| == |ts| && forall i :: 0 <= i < |ts| ==> d.rows[i] == FromTask(ts[i], clock(i))
  {
    if ts == [] then Message(NoTasksMessage) else Table(seq(|ts|, i requires 0 <= i < |ts| => FromTask(ts[i], clock(i))))
  }

  /** The table lists the tasks' names and weights in the order given, whatever the clock reads. */
  lemma TableColumns(ts: seq<Task>, clock: Clock)
    requires ts != []
    ensures var rows := PrintTasks(ts, clock).rows;
            |rows| == |ts| &&
            forall i :: 0 <= i < |ts| ==> rows[i].name == ts[i].name && WeightFromName(rows[i].weight) == Some(ts[i].weight)
  {
  }

  /**
   * Two rows of the same task can disagree: when the clock passes a whole
   * hour before the due time between the two readings, the first row shows
   * `1h` and the second `0h`.
   */
  lemma ClockPassesHour(t: Task, clock: Clock)
    requires clock(0) == t.dueDate - SecondsPerHour && clock(1) == t.dueDate - SecondsPerHour + 1
    ensures var rows := PrintTasks([t, t], clock).rows;
            rows[0].timeLeft == "1h" && rows[1].timeLeft == "0h"
  {
    assert FromTask(t, clock(0)).timeLeft == "1h" by {
      LabelAhead(t, clock(0));
      assert (t.dueDate - clock(0)) / SecondsPerHour == 1 && RustFmt.Dec(1) == "1";
    }
    assert FromTask(t, clock(1)).timeLeft == "0h" by {
      LabelAhead(t, clock(1));
      assert (t.dueDate - clock(1)) / SecondsPerHour == 0 && RustFmt.Dec(0) == "0";
    }
    var rows := PrintTasks([t, t], clock).rows;
    assert rows[0] == FromTask(t, clock(0)) && rows[1] == FromTask(t, clock(1));
  }

  /** A task is shown as `OVERDUE` exactly when it is at least one full day past due. */
  lemma OverdueExactly(t: Task, now: Timestamp)
    ensures FromTask(t, now).timeLeft == OverdueLabel <==> t.dueDate - now <= -SecondsPerDay
  {
    var days, hours := Days(t.dueDate, now), Hours(t.dueDate, now);
    if days >= 0 {
      var shown := TimeLeft(days, hours);
      assert shown[|shown| - 1] == 'h';
    }
  }

  /**
   * A task less than a day past due is not `OVERDUE`: its label is the hour
   * count, which is negative once it is an hour or more past due.
   */
  lemma SlightlyOverdue(t: Task, now: Timestamp)
    requires -SecondsPerDay < t.dueDate - now < 0
    ensures Days(t.dueDate, now) == 0
    ensures FromTask(t, now).timeLeft == RustFmt.Dec(-((now - t.dueDate) / SecondsPerHour)) + "h"
    ensures t.dueDate - now <= -SecondsPerHour ==> FromTask(t, now).timeLeft[0] == '-'
  {
    var h := RustFmt.Div(t.dueDate - now, SecondsPerHour);
    assert -24 < h <= 0;
    assert RustFmt.Rem(h, 24) == h;
  }

  /** The label of a task not yet past due, in whole days and hours left. */
  lemma LabelAhead(t: Task, now: Timestamp)
    requires t.dueDate - now >= 0
    ensures var d := t.dueDate - now;
            FromTask(t, now).timeLeft ==
              if d < SecondsPerDay then RustFmt.Dec(d / SecondsPerHour) + "h"
              else RustFmt.Dec(d / SecondsPerDay) + "d " + RustFmt.Dec(d / SecondsPerHour % 24) + "h"
  {
    var d := t.dueDate - now;
    var days, h := d / SecondsPerDay, d / SecondsPerHour;
    assert Days(t.dueDate, now) == days;
    assert RustFmt.Div(d, SecondsPerHour) == h;
    assert Hours(t.dueDate, now) == h % 24;
    assert days == 0 <==> d < SecondsPerDay;
  }

  /** The bar has one block per whole day left, and none for a task that is due within a day or overdue. */
  lemma BarLength(t: Task, now: Timestamp)
    ensures var d := t.dueDate - now;
            |FromTask(t, now).visualBar| == 2 * (if d < 0 then 0 else d / SecondsPerDay)
    ensures t.dueDate - now < SecondsPerDay ==> FromTask(t, now).visualBar == []
  {
  }

  /** The colour bands, in seconds left: below three days red (every overdue task too), below six yellow, else green. */
  lemma TierBands(t: Task, now: Timestamp)
    ensures var d, tier := t.dueDate - now, FromTask(t, now).tier;
            (tier == Red <==> d < 3 * SecondsPerDay) &&
            (tier == Yellow <==> 3 * SecondsPerDay <= d < 6 * SecondsPerDay) &&
            (tier == Green <==> d >= 6 * SecondsPerDay)
  {
  }

  /** A task due two days from now shows "2d 0h", two blocks, in red. */
  lemma DueInTwoDays(name: string, w: WorkWeight, now: Timestamp)
    ensures var row := FromTask(Task(now + 2 * SecondsPerDay, name, w), now);
            row.timeLeft == "2d 0h" && row.visualBar == [Block, ' ', Block, ' '] && row.tier == Red
  {
    assert RustFmt.Dec(2) == "2" && RustFmt.Dec(0) == "0";
  }
}
