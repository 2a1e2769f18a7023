# prog-rs task store, in Dafny

This project models the core of `prog-rs`, a small command-line task tracker written in Rust, and
proves properties of the model. The core has three parts.

- **The task store** (`TaskStorage`, src/storage.rs). It keeps the tasks in memory and backs them with
  one file. `load` reads the file and either keeps it, treats it as empty, or reports an error.
  `add_task` appends a task. `sort` reorders the tasks by one of three keys. `store` writes the
  encoded tasks to a sibling `.tmp` file and renames that file over the real one. `clear` truncates
  the file.
- **The command flow** (src/parser.rs). `parse_new_task` turns the due-date text into a task.
  `parse_cli_args` builds and loads the store, then runs `Add`, `List` or `Reset` against it.
- **The task table** (src/print.rs). `TaskRow::from_task` computes the time-left label, the bar and
  its colour from `due - now`. `print_tasks` shows either a message or one row per task.

Layout, one module per file:

| file | module | contents |
|---|---|---|
| results.dfy | `Results` | `Option` and `Result` |
| rust_fmt.dfy | `RustFmt` | Rust's truncating `/` and `%`, `i64` display, `{:?}` of a string |
| utf8.dfy | `Utf8` | UTF-8 (RFC 3629) encoding, and the decoding check in `read_to_string` |
| paths.dfy | `Paths` | `PathBuf::join`, `with_extension`, `file_stem`, `extension` |
| file_system.dfy | `FileSystem` | class `Disk`: a map from path to bytes, with a ghost history of every state |
| tasks.dfy | `Tasks` | `Task`, `WorkWeight`, `SortType`, `ParseError` |
| sorting.dfy | `Sorting` | the stable sort that `sort_by` / `sort_by_key` perform |
| codec.dfy | `Codec` | a stand-in text format for the stored record, with its round trip |
| storage.dfy | `Storage` | class `TaskStorage` and its methods |
| print.dfy | `Print` | `FromTask`, `PrintTasks` |
| parser.dfy | `Parser` | `ParseNewTask` and `Run`, the state machine of one invocation |

Decisions that shape the model:

- **The file system.** `Disk` holds a `map<Path, Bytes>`. Each create, one-byte append and rename
  is a single atomic step. Each step is appended to a ghost `history`. A process crash means the
  disk stops in some state of that history, with every finished step durable, in program order.
  `write_all` is modelled one byte at a time, so every partial write appears in the history.
- **Environment failures.** An I/O error is a parameter that says which step fails:
  `LoadFault`, `StoreFault` (a write may fail at any byte offset), or a `bool` for `clear`.
  `LoadFault.ExistsFails` is `Path::exists` answering false for a file that is there.
- **Panics.** A panic from `.expect(...)` ends the run with `Aborted(message)` or
  `Panicked(message)`.
- **Encoding.** `Codec` is a concrete text format that stands in for `serde_json`. Its
  decode-after-encode round trip is proved, not assumed. As with `serde_json::from_str`, JSON
  whitespace before and after the record is skipped.
- **Time and dates.** Timestamps are integer seconds. The date reader
  (`chrono_english::parse_date_string`) is a function-valued parameter `DateReader`. The clock
  `Local::now()` is read once by `parse_user_date` (the parameter `parseNow`) and then once per
  row by `from_task` (src/print.rs:22, called for each task at src/print.rs:60). The row readings
  are the parameter `printClock: Print.Clock`, where row `i` sees `printClock(i)`. So two rows may
  see different times, for instance on either side of an hour boundary (`Print.ClockPassesHour`).

Points where the code behaves differently from what a reader might expect; the model follows the code:

- **A load error.** One might expect it to be returned to the caller. The code panics with
  `"Could not load tasks"` (src/parser.rs:84), ending the run before any command runs. The date
  is read only after that.
- **Stable sorting.** All three strategies go through `sort_by` / `sort_by_key`, which are stable,
  so `Alphabetical` keeps tasks with equal names in their previous order too. The model proves
  every strategy is stable.
- **The `OVERDUE` label.** One might expect it once a task is past due. The code shows it only
  when the task is at least one full day past due (`days < 0` with truncating division,
  src/print.rs:26-29). A task overdue by less than a day shows `0h` or a negative hour count, such
  as `-5h` (`Print.OverdueExactly`, `Print.SlightlyOverdue`).
- **A file `exists` cannot see.** `Path::exists` (src/storage.rs:56) is false when the file's
  metadata cannot be read, for example through a broken symlink or an I/O error. `load` then returns
  `Ok` with no tasks (src/storage.rs:78-80), while the same failure one step later
  (src/storage.rs:62) is an error. A following `Add` stores a record holding only the new task over
  the old one, with no error (`Storage.LoadUnseen`, `Parser.AddOverUnseenRecord`).
- **The colour bands.** The comments at src/print.rs:38-40 say "< 2 days" and "< 5 days", but
  the tests are `days <= 2` and `days <= 5`. The model follows the tests (`Print.TierBands`).

## Model

| member | source | states |
|---|---|---|
| Storage.TaskPath | src/storage.rs:24-40 | the backing file is `tasks.json`, inside the data directory when there is one and in the current directory otherwise |
| Storage.TempPathOfTaskFile | src/storage.rs:94 | the temporary file of `tasks.json` is `tasks.tmp` in the same directory, and it is a different path |
| Paths.WithExtensionDiffers | src/storage.rs:94 | replacing a file's extension with a different one gives a different path in the same directory |
| Storage.TaskStorage.constructor | src/storage.rs:48-53 | a new store holds no tasks, and its path is the one `get_task_path` picks |
| Storage.LoadSpec | src/storage.rs:55-82 | the outcome of `load` for a disk and a fault, its steps in source order: no file (or `exists` failing) gives no tasks; then a read error, a UTF-8 error, a metadata error; a zero-length file gives no tasks; otherwise the decoded record or `SerdeError` |
| Storage.TaskStorage.Load | src/storage.rs:55-82 | `Ok` exactly when the file's load outcome is `Ok`; on `Ok`, `tasks` becomes the loaded collection; on an error, that error is returned and `tasks` keeps its old value; the disk is unchanged either way |
| Storage.LoadMissing | src/storage.rs:78-81 | a missing file loads as an empty collection with no error, whatever step would have failed |
| Storage.LoadZeroLength | src/storage.rs:62-67 | a zero-length file loads as an empty collection, not as a decoding error |
| Storage.LoadUndecodable | src/storage.rs:69-75 | a non-empty file whose text does not decode gives `SerdeError`, never an empty collection |
| Storage.LoadOkMeans | src/storage.rs:55-82 | a successful load means the file is missing, `exists` failed, the file is empty, or it decodes to exactly the returned tasks; in the first two cases there are no tasks |
| Storage.LoadUnseen | src/storage.rs:56 | a present record that `exists` cannot see loads as no tasks and no error, unlike the same file read normally |
| Storage.TaskStorage.AddTask | src/storage.rs:84-86 | the length grows by one, the last task is the new one, and every earlier task is unchanged |
| Storage.TaskStorage.Clear | src/storage.rs:88-91 | on success the file at `path` is empty and nothing else on disk changes; on failure the disk is unchanged |
| Storage.LoadAfterClear | src/storage.rs:88-91 | after `clear`, the next load gives an empty collection and no error |
| Storage.WriteAll | src/storage.rs:99-100 | writes the bytes into the file, or a prefix cut at the failing offset; every intermediate disk state differs from the starting one only at that file |
| Storage.WriteTemp | src/storage.rs:94-100 | create, serialise and write of the temporary file: the outcome for each fault, the temporary file's contents afterwards, and that no other path changes in any intermediate state |
| Storage.TaskStorage.Store | src/storage.rs:93-105 | the outcome for each fault. On success, `path` holds the encoded tasks, the temporary file is gone and nothing else changes. Any failure leaves `path` as it was. Every disk state before the rename differs from the old disk only at the temporary path |
| Storage.LoadAfterCrash | src/storage.rs:93-105 | a disk that differs from the pre-`store` disk only at the temporary path loads exactly like the pre-`store` disk |
| Storage.LoadAfterStore | src/storage.rs:97-102 | after a successful `store`, the next load returns the same tasks in the same order |
| Codec.ParseSerialize | src/storage.rs:97 | parsing the serialised text gives back the same task sequence |
| Codec.DecodeEncoded | src/storage.rs:97-99 | the bytes written decode as UTF-8 to the serialised text, and they are never empty |
| Codec.ParseSerializePadded | src/storage.rs:70-72 | the written text still reads back as the same tasks with whitespace before or after it, such as a trailing newline |
| Codec.ParseRejects | src/storage.rs:70-73 | text whose first character after any whitespace is not `[` is rejected: a task collection is always a JSON array |
| Utf8.DecodeEncode | src/storage.rs:57 | `read_to_string` of the bytes of any string reads back that string |
| Utf8.EncodeEmpty | src/storage.rs:64 | the file is zero-length exactly when its text is empty |
| Storage.TaskStorage.Sort | src/storage.rs:107-117 | `tasks` becomes the stable sort of the old tasks by the strategy's key: sorted by that key, a permutation, and tasks with equal keys keep their order |
| Sorting.SortTasks | src/storage.rs:107-117 | the insertion loop computes the stable sort: sorted, a permutation, and equal keys in input order |
| Sorting.InsertTask | src/storage.rs:109-115 | one insertion places the task right after the last task whose key is not greater |
| Sorting.SortedBySorted | src/storage.rs:109-115 | the sort is non-decreasing by name (`Alphabetical`), non-decreasing by due date (`ClosestToDeadline`), or non-increasing by due date (`FurthestFromDeadline`) |
| Sorting.SortedByPermutes | src/storage.rs:107-117 | the sort neither drops nor duplicates a task |
| Sorting.SortedByStable | src/storage.rs:109-115 | tasks that share a key keep their relative order |
| Sorting.UniqueStableSort | src/storage.rs:107-117 | any sorted permutation that keeps equal keys in input order is exactly this sort, whatever algorithm produced it |
| Sorting.KeyLeTotal | src/storage.rs:109-115 | any two tasks are comparable under each key |
| Sorting.KeyLeTransitive | src/storage.rs:109-115 | each key order is transitive |
| Sorting.LexLeAntisymmetric | src/storage.rs:109 | two names that each sort no later than the other are equal |
| Tasks.NewTask | src/parser.rs:22-24 | `Task::new` keeps the due date, name and weight exactly as given |
| Tasks.WeightName | src/print.rs:47 | the weight column is the variant's own name, and it reads back as the same weight |
| Parser.ParseUserDate | src/parser.rs:73-79 | `Ok` exactly when the reader understands the text, holding the time it read; otherwise the message `Could not understand date: '<input>'` |
| Parser.ParseNewTask | src/parser.rs:108-119 | `Ok` exactly when the date is read, with a task of the given name and weight due at that time; otherwise a `DateParseError` whose message is the `{:?}` rendering of the message naming the input |
| RustFmt.DebugRoundTrip | src/parser.rs:117 | `{:?}` of a string can be undone, so the error message determines the complaint it quotes |
| Parser.AddCommand | src/parser.rs:61 | an omitted weight defaults to `Medium` |
| Parser.RunAdd | src/parser.rs:88-95 | a bad date returns the error with no change to tasks or disk. Otherwise the tasks are the loaded tasks plus the new one, sorted by deadline. With a successful store, the file holds their encoding and the table is shown. A save error or write panic aborts, leaves the file as it was, and every pre-rename disk state differs from the old one only at the temporary path |
| Parser.RunReset | src/parser.rs:100-103 | only `clear` runs: the file becomes empty, or the run aborts with `Could not clear tasks` and the disk is unchanged |
| Parser.Run | src/parser.rs:81-105 | the store is loaded before every command, and a load error aborts with `Could not load tasks`. `List` shows the loaded tasks in stored order and changes nothing. `Reset` only truncates the file. `Add` behaves as `RunAdd` on the loaded tasks |
| Parser.AddBetween | src/parser.rs:90-91 | with tasks due one and five days out, adding one due in three days gives the order 1d, 3d, 5d |
| Parser.AddToEmptyThenLoad | src/parser.rs:88-94 | adding to an empty store, then loading, gives exactly the one new task |
| Parser.AddOverUnseenRecord | src/parser.rs:84-92 | when `exists` cannot see a stored record, `Add` starts from no tasks and a successful store leaves a record holding only the new task |
| Parser.ListAfterReset | src/parser.rs:96-103 | after `Reset`, a `List` loads no tasks and shows `No tasks found.` |
| Print.FromTask | src/print.rs:45-50 | the row's name is the task's name, and its weight column names the task's weight |
| RustFmt.Div | src/print.rs:26 | division truncates toward zero, as Rust's `i64` division does |
| RustFmt.Rem | src/print.rs:27 | the remainder takes the sign of the dividend and stays below the divisor in size |
| RustFmt.DecRoundTrip | src/print.rs:31-33 | the decimal text of an integer reads back as that integer |
| RustFmt.DecInjective | src/print.rs:31-33 | different day or hour counts never show the same decimal text |
| Print.OverdueExactly | src/print.rs:28-29 | the label is `OVERDUE` exactly when the task is at least one full day past due |
| Print.SlightlyOverdue | src/print.rs:26-31 | a task less than a day past due has zero days and shows its hour count, negative from one hour overdue on |
| Print.LabelAhead | src/print.rs:26-34 | for a task not yet due, the label is `<hours>h` below one day, otherwise `<days>d <hours>h` |
| Print.Bar | src/print.rs:38 | `"■ ".repeat(count)`: exactly `count` block-and-space pairs |
| Print.BarLength | src/print.rs:36-42 | the bar has one block per whole day left, and none for a task due within a day or overdue |
| Print.TierBands | src/print.rs:37-43 | red below three days left (every overdue task too), yellow from three up to six days, green from six days |
| Print.DueInTwoDays | src/print.rs:25-43 | a task due in exactly two days shows `2d 0h`, two blocks, in red |
| Print.PrintTasks | src/print.rs:54-60 | no tasks gives `No tasks found.` and no table; otherwise one row per task, in the given order, row `i` built at the `i`-th clock reading |
| Print.TableColumns | src/print.rs:54-60 | the table's name and weight columns list the tasks in the order given, whatever the clock reads |
| Print.ClockPassesHour | src/print.rs:22-31 | two rows of the same task show `1h` and `0h` when the clock passes an hour before the due time between their readings |
| FileSystem.Disk.Create | src/storage.rs:96 | `File::create` leaves a zero-length file, or fails and changes nothing |
| FileSystem.Disk.Rename | src/storage.rs:102 | `fs::rename` replaces the target with the source in one step and removes the source |

## Left out

- `serde_json`: the record is encoded in a simpler text format with the same round trip. Which
  malformed texts `serde_json` rejects is not modelled, only that a rejected text gives `SerdeError`.
  The model reads only its own format, with JSON whitespace allowed before and after the record
  but not between its parts. A JSON file written some other way is not modelled.
- `to_string_pretty` failing: this is the `SerializeFails` fault, a parameter, since serde decides
  it and the model does not.
- `chrono_english::parse_date_string` and its UK dialect: these are the `DateReader` parameter.
  `naive_local` is part of the reader.
- `Local::now()`: passed in as `parseNow` and as `printClock`, one reading per printed row.
- `NaiveDateTime`: whole seconds only. Sub-second precision, calendar arithmetic and `i64` overflow
  of `due - now` are left out.
- `ProjectDirs::from` and `fs::create_dir_all` (src/storage.rs:25-33): platform lookup and I/O. Only
  the choice between a data directory and the fallback is modelled. The panic when the directory
  cannot be created is left out.
- `fs::metadata` reports the file's byte length. The model reads that length from the same snapshot
  as the text, since nothing runs in between.
- `tabled` layout and `owo_colors` colouring: the output is a sequence of rows, and the colour is the
  three-valued `Tier`.
- `RustFmt.EscapeChar`: only the escapes `\\ \" \n \r \t \0` of `{:?}` are modelled. The `\u{..}`
  escapes Rust uses for other non-printable characters are not, so that the round trip stays simple.
- `TaskStorage.Store`: the disk history models a process crash, in which every finished step is
  already durable and steps take effect in the order they run. The code never calls `sync_all` on
  the temporary file before `fs::rename`, nor syncs the directory after it. After a power loss, a
  file system may therefore keep the rename but not the written bytes, leaving `tasks.json`
  zero-length. `load` then reads it as no tasks, and the next `Add` overwrites the old record. That
  outcome is possible in the program but lies outside the model's history.
- Panic and error payloads: `.expect(msg)` panics with `msg: <error>`. The model's
  `Aborted(message)` keeps only `msg`. `StorageError::SerdeError` carries serde's message
  (src/storage.rs:73); the model's `SerdeError` carries none.
- `Parser.Run`: the crash-safety clause, that every pre-rename disk state differs from the old disk
  only at the temporary path, is stated on `RunAdd` and `TaskStorage.Store`, not repeated on `Run`.
- The `clap` parser (`Cli`, `Cli::parse`) and its argument checks: the command arrives as a
  `Command` value.
- `tracing` and `debug!` logging, and src/main.rs: they only set up logging and print errors.
- Two invocations running at once: there is no locking to model.
