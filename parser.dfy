/**
 * The command layer (src/parser.rs): turning the due-date text of `Add`
 * into a task, and `parse_cli_args`, which builds the store, loads it and
 * runs one of `Add`, `List` or `Reset` against it. The command line arrives
 * already parsed as a `Command`; the natural-language date reader, the clock
 * (one reading for the date, one per printed row) and the failures of the
 * environment are parameters.
 */
module Parser {
  import opened Results
  import opened Tasks
  import opened FileSystem
  import opened Storage
  import opened Paths
  import RustFmt
  import Codec
  import Sorting
  import Print

  /**
   * The natural-language date reader (`chrono_english::parse_date_string`
   * in the UK day-before-month convention, then `naive_local`): the text and
   * the reference time give a local time, or nothing when the text is not
   * understood.
   */
  type DateReader = (string, Timestamp) -> Option<Timestamp>

  const LoadFailedMessage: string := "Could not load tasks"
  const SaveFailedMessage: string := "Could not save tasks"
  const ClearFailedMessage: string := "Could not clear tasks"

  /** The text `parse_user_date` reports for input it cannot read. */
  function DateErrorText(input: string): string {
    "Could not understand date: '" + input + "'"
  }

  /** `parse_user_date`, reading the clock as `now`. */
  function ParseUserDate(input: string, readDate: DateReader, now: Timestamp): (r: Result<Timestamp, string>)
    ensures r.Ok? <==> readDate(input, now).Some?
    ensures r.Ok? ==> r.value == readDate(input, now).value
    ensures r.Err? ==> r.error == DateErrorText(input)
  {
    match readDate(input, now)
    case Some(dt) => Ok(dt)
    case None => Err(DateErrorText(input))
  }

  /**
   * `parse_new_task`: a task with the given name and weight, due when the
   * date reader says; or a `DateParseError` whose message is the `Debug`
   * rendering of the reader's complaint, which names the input.
   */
  function ParseNewTask(task: string, due: string, weight: WorkWeight, readDate: DateReader, now: Timestamp)
    : (r: Result<Task, ParseError>)
    ensures r.Ok? <==> readDate(due, now).Some?
    ensures r.Ok? ==> r.value == Task(readDate(due, now).value, task, weight)
    ensures r.Err? ==> r.error == DateParseError(RustFmt.Debug(DateErrorText(due)))
    ensures r.Err? ==> RustFmt.Undebug(r.error.message) == Some(DateErrorText(due))
  {
    match ParseUserDate(due, readDate, now)
    case Ok(dt) => Ok(NewTask(dt, task, weight))
    case Err(e) =>
      RustFmt.DebugRoundTrip(e);
      Err(DateParseError(RustFmt.Debug(e)))
  }

  /** The subcommands, as the command-line adapter delivers them. */
  datatype Command = Add(task: string, due: string, weight: WorkWeight) | List | Reset

  /** `AddArgs`: the weight argument may be omitted and then defaults to `Medium`. */
  function AddCommand(task: string, due: string, weight: Option<WorkWeight>): (c: Command)
    ensures c.Add? && c.task == task && c.due == due
    ensures c.weight == if weight.Some? then weight.value else Medium
  {
    Add(task, due, match weight case Some(w) => w case None => Medium)
  }

  /** Which steps the environment makes fail during one run. */
  datatype Faults = Faults(load: LoadFault, store: StoreFault, clearFails: bool)

  /**
   * How a run ends: normally, with what was printed (if anything); with the
   * `ParseError` that `parse_cli_args` returns; or in a panic from
   * `.expect(...)`, with its message.
   */
  datatype Outcome = Completed(shown: Option<Print.Display>) | Returned(error: ParseError) | Aborted(message: string)

  /** The collection `Add` leaves: the loaded tasks plus the new one, by deadline. */
  function AfterAdd(loaded: seq<Task>, t: Task): seq<Task> {
    Sorting.SortedBy(ClosestToDeadline, loaded + [t])
  }

  /**
   * The `Add` arm of `parse_cli_args`: read the date before touching the
   * store; then append the task, sort by deadline, store and print. A store
   * error or a write panic aborts the run.
   */
  method RunAdd(storage: TaskStorage, disk: Disk, task: string, due: string, weight: WorkWeight,
                store: StoreFault, readDate: DateReader, parseNow: Timestamp, printClock: Print.Clock)
    returns (out: Outcome)
    requires storage.Valid() && disk.Valid()
    modifies storage, disk
    ensures storage.Valid() && disk.Valid()
    ensures |old(disk.history)| <= |disk.history| && disk.history[..|old(disk.history)|] == old(disk.history)
    ensures readDate(due, parseNow).None? ==>
              out == Returned(DateParseError(RustFmt.Debug(DateErrorText(due)))) &&
              storage.tasks == old(storage.tasks) && disk.files == old(disk.files) && disk.history == old(disk.history)
    ensures readDate(due, parseNow).Some? ==>
              var t := Task(readDate(due, parseNow).value, task, weight);
              var ts := storage.tasks;
              var stored := StoreResult(store, |Codec.Encode(ts)|);
              ts == AfterAdd(old(storage.tasks), t) &&
              multiset(ts) == multiset(old(storage.tasks) + [t]) &&
              Sorting.Sorted(ClosestToDeadline, ts) &&
              (stored.Done? ==>
                 out == Completed(Some(Print.PrintTasks(ts, printClock))) &&
                 disk.files == (old(disk.files) - {TempPath(storage.path)})[storage.path := Codec.Encode(ts)]) &&
              (stored.Failed? ==> out == Aborted(SaveFailedMessage)) &&
              (stored.Panicked? ==> out == Aborted(WriteFailedMessage)) &&
              (!stored.Done? ==> Lookup(disk.files, storage.path) == Lookup(old(disk.files), storage.path)) &&
              SafeBetween(disk.history, |old(disk.history)|, |disk.history| - (if stored.Done? then 1 else 0),
                          old(disk.files), TempPath(storage.path))
  {
    var parsed := ParseNewTask(task, due, weight, readDate, parseNow);
    if parsed.Err? {
      return Returned(parsed.error);
    }
    storage.AddTask(parsed.value);
    storage.Sort(ClosestToDeadline);
    ghost var files, history := disk.files, disk.history;
    assert files == old(disk.files) && history == old(disk.history);
    var stored := storage.Store(disk, store);
    match stored {
      case Done =>
        out := Completed(Some(Print.PrintTasks(storage.tasks, printClock)));
      case Failed(_) =>
        out := Aborted(SaveFailedMessage);
      case Panicked(message) =>
        out := Aborted(message);
    }
  }

  /** The `Reset` arm: truncate the file; the loaded tasks are neither sorted nor stored. */
  method RunReset(storage: TaskStorage, disk: Disk, clearFails: bool) returns (out: Outcome)
    requires storage.Valid() && disk.Valid()
    modifies disk
    ensures disk.Valid()
    ensures |old(disk.history)| <= |disk.history| && disk.history[..|old(disk.history)|] == old(disk.history)
    ensures clearFails ==> out == Aborted(ClearFailedMessage) && disk.files == old(disk.files)
    ensures !clearFails ==> out == Completed(None) && disk.files == old(disk.files)[storage.path := []]
  {
    var cleared := storage.Clear(disk, clearFails);
    if cleared.Failed? {
      return Aborted(ClearFailedMessage);
    }
    out := Completed(None);
  }

  /**
   * `parse_cli_args` for the command `cmd`. Every command first builds the
   * store and loads it; a load error aborts before anything else. `List`
   * prints the loaded tasks in their stored order and changes nothing.
   */
  method Run(cmd: Command, dataDir: Option<seq<string>>, disk: Disk, faults: Faults,
             readDate: DateReader, parseNow: Timestamp, printClock: Print.Clock)
    returns (out: Outcome, storage: TaskStorage)
    requires disk.Valid()
    modifies disk
    ensures disk.Valid() && fresh(storage) && storage.Valid() && storage.path == TaskPath(dataDir)
    ensures |old(disk.history)| <= |disk.history| && disk.history[..|old(disk.history)|] == old(disk.history)
    // Load runs first, for every command.
    ensures var loaded := LoadSpec(old(disk.files), storage.path, faults.load);
            loaded.Err? ==> out == Aborted(LoadFailedMessage) && disk.files == old(disk.files) && storage.tasks == []
    // List: shows the loaded tasks as stored, changes nothing.
    ensures var loaded := LoadSpec(old(disk.files), storage.path, faults.load);
            loaded.Ok? && cmd.List? ==>
              out == Completed(Some(Print.PrintTasks(loaded.value, printClock))) &&
              storage.tasks == loaded.value && disk.files == old(disk.files)
    // Reset: truncates the file and nothing else.
    ensures var loaded := LoadSpec(old(disk.files), storage.path, faults.load);
            loaded.Ok? && cmd.Reset? ==>
              storage.tasks == loaded.value &&
              if faults.clearFails then out == Aborted(ClearFailedMessage) && disk.files == old(disk.files)
              else out == Completed(None) && disk.files == old(disk.files)[storage.path := []]
    // Add with a date the reader does not understand: the error, and no change at all.
    ensures var loaded := LoadSpec(old(disk.files), storage.path, faults.load);
            loaded.Ok? && cmd.Add? && readDate(cmd.due, parseNow).None? ==>
              out == Returned(DateParseError(RustFmt.Debug(DateErrorText(cmd.due)))) &&
              storage.tasks == loaded.value && disk.files == old(disk.files)
    // Add with a readable date: the loaded tasks plus the new one, sorted by deadline, stored.
    ensures var loaded := LoadSpec(old(disk.files), storage.path, faults.load);
            loaded.Ok? && cmd.Add? && readDate(cmd.due, parseNow).Some? ==>
              var t := Task(readDate(cmd.due, parseNow).value, cmd.task, cmd.weight);
              var ts := storage.tasks;
              var stored := StoreResult(faults.store, |Codec.Encode(ts)|);
              ts == AfterAdd(loaded.value, t) &&
              (stored.Done? ==>
                 out == Completed(Some(Print.PrintTasks(ts, printClock))) &&
                 disk.files == (old(disk.files) - {TempPath(storage.path)})[storage.path := Codec.Encode(ts)]) &&
              (stored.Failed? ==> out == Aborted(SaveFailedMessage)) &&
              (stored.Panicked? ==> out == Aborted(WriteFailedMessage)) &&
              (!stored.Done? ==> Lookup(disk.files, storage.path) == Lookup(old(disk.files), storage.path))
  {
    storage := new TaskStorage(dataDir);
    var loaded := storage.Load(disk, faults.load);
    if loaded.Err? {
      return Aborted(LoadFailedMessage), storage;
    }
    match cmd {
      case Add(task, due, weight) =>
        out := RunAdd(storage, disk, task, due, weight, faults.store, readDate, parseNow, printClock);
      case List =>
        out := Completed(Some(Print.PrintTasks(storage.tasks, printClock)));
      case Reset =>
        out := RunReset(storage, disk, faults.clearFails);
    }
  }

  /** With tasks due one and five days after `t0` loaded, adding one due after three days puts it between them. */
  lemma AddBetween(t0: Timestamp, a: Task, b: Task, c: Task)
    requires a.dueDate == t0 + Print.SecondsPerDay && b.dueDate == t0 + 5 * Print.SecondsPerDay
    requires c.dueDate == t0 + 3 * Print.SecondsPerDay
    ensures AfterAdd([a, b], c) == [a, c, b]
  {
    assert [a, b] + [c] == [a, b, c];
    assert [a, b, c][..2] == [a, b] && [a, b][..1] == [a] && [a][..0] == [];
    assert Sorting.SortedBy(ClosestToDeadline, [a]) == [a];
    assert Sorting.SortedBy(ClosestToDeadline, [a, b]) == [a, b];
    assert Sorting.Insert(ClosestToDeadline, [a], c) == [a, c];
  }

  /** After saving into an empty store, the next run loads exactly the one new task. */
  lemma AddToEmptyThenLoad(files: Files, path: Path, t: Task)
    requires path !in files
    ensures LoadSpec(files, path, LoadRuns) == Ok([])
    ensures LoadSpec((files - {TempPath(path)})[path := Codec.Encode(AfterAdd([], t))], path, LoadRuns) == Ok([t])
  {
    LoadMissing(files, path, LoadRuns);
    assert [] + [t] == [t] && [t][..0] == [];
    assert Sorting.SortedBy(ClosestToDeadline, []) == [];
    assert Sorting.Insert(ClosestToDeadline, [], t) == [t];
    LoadAfterStore(files, path, [t]);
  }

  /**
   * When `exists` cannot see a file that holds a record, `Add` starts from no
   * tasks, and a successful store replaces the old record with one holding
   * only the new task.
   */
  lemma AddOverUnseenRecord(files: Files, path: Path, ts: seq<Task>, t: Task)
    requires path in files && files[path] == Codec.Encode(ts)
    ensures LoadSpec(files, path, ExistsFails) == Ok([])
    ensures LoadSpec((files - {TempPath(path)})[path := Codec.Encode(AfterAdd([], t))], path, LoadRuns) == Ok([t])
  {
    LoadUnseen(files, path, ts);
    assert [] + [t] == [t] && [t][..0] == [];
    assert Sorting.SortedBy(ClosestToDeadline, []) == [];
    assert Sorting.Insert(ClosestToDeadline, [], t) == [t];
    LoadAfterStore(files, path, [t]);
  }

  /** After `Reset`, a following `List` shows "No tasks found.". */
  lemma ListAfterReset(files: Files, path: Path, clock: Print.Clock)
    ensures var loaded := LoadSpec(files[path := []], path, LoadRuns);
            loaded == Ok([]) && Print.PrintTasks(loaded.value, clock) == Print.Message(Print.NoTasksMessage)
  {
    LoadAfterClear(files, path);
  }
}
