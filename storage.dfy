/**
 * `TaskStorage` (src/storage.rs): the in-memory task collection and the
 * file that backs it. Loading picks one of four outcomes; storing writes a
 * sibling temporary file and renames it over the real one, so that the real
 * path never holds a half-written record.
 */
module Storage {
  import opened Results
  import opened Tasks
  import opened Paths
  import opened FileSystem
  import Utf8
  import Codec
  import Sorting

  const TaskFileName: string := "tasks.json"
  const TempExtension: string := "tmp"
  const WriteFailedMessage: string := "Could not write tasks to file"

  /**
   * `get_task_path`: `tasks.json` inside the platform's data directory when
   * there is one, otherwise `tasks.json` in the current directory.
   */
  function TaskPath(dataDir: Option<seq<string>>): (p: Path)
    ensures p.name == TaskFileName
    ensures p.dir == if dataDir.Some? then dataDir.value else []
  {
    match dataDir
    case Some(d) => Join(d, TaskFileName)
    case None => Path([], TaskFileName)
  }

  /** `path.with_extension("tmp")`: where `store` writes before renaming. */
  function TempPath(p: Path): Path {
    WithExtension(p, TempExtension)
  }

  /** For the backing file, the temporary file is `tasks.tmp` in the same directory: a different path. */
  lemma TempPathOfTaskFile(p: Path)
    requires p.name == TaskFileName
    ensures TempPath(p) == Path(p.dir, "tasks.tmp")
    ensures TempPath(p) != p
  {
    assert TaskFileName == "tasks" + "." + "json";
    WithExtensionOfJoined(p, "tasks", "json", TempExtension);
    assert |"tasks" + "." + TempExtension| != |p.name|;
  }

  /** What went wrong in an I/O step. */
  datatype IoError =
    | ReadFailed       // `fs::read_to_string` could not read the file
    | InvalidData      // `fs::read_to_string` found bytes that are not UTF-8
    | MetadataFailed   // `fs::metadata` failed
    | CreateFailed     // `File::create` failed
    | SerializeFailed  // `to_string_pretty` failed (its error becomes an `io::Error`)
    | RenameFailed     // `fs::rename` failed

  datatype StorageError = IoError(cause: IoError) | SerdeError

  /** How a state-changing step ended: `Ok(())`, an `Err`, or a panic from `.expect(...)`. */
  datatype Completion = Done | Failed(error: IoError) | Panicked(message: string)

  /**
   * Which step of `load`, if any, the environment makes fail. `ExistsFails`
   * is `Path::exists` answering false for a file that is there, because its
   * metadata cannot be read (a broken symlink, an I/O error).
   */
  datatype LoadFault = LoadRuns | ExistsFails | ReadFails | MetadataFails

  /** Which step of `store`, if any, the environment makes fail; a write can fail at any byte. */
  datatype StoreFault = StoreRuns | CreateTempFails | SerializeFails | WriteFailsAt(offset: nat) | RenameFails

  /** How `store` ends when `fault` strikes and the encoded record is `size` bytes long. */
  function StoreResult(fault: StoreFault, size: nat): Completion {
    match fault
    case StoreRuns => Done
    case CreateTempFails => Failed(CreateFailed)
    case SerializeFails => Failed(SerializeFailed)
    case WriteFailsAt(k) => if k < size then Panicked(WriteFailedMessage) else Done
    case RenameFails => Failed(RenameFailed)
  }

  /** What `load` yields for a disk: the tasks it assigns, or the error it returns. */
  function LoadSpec(files: Files, path: Path, fault: LoadFault): Result<seq<Task>, StorageError> {
    if path !in files || fault == ExistsFails then Ok([])
    else if fault == ReadFails then Err(IoError(ReadFailed))
    else
      match Utf8.Decode(files[path])
      case None => Err(IoError(InvalidData))
      case Some(text) =>
        if fault == MetadataFails then Err(IoError(MetadataFailed))
        else if |files[path]| == 0 then Ok([])
        else
          match Codec.Parse(text)
          case None => Err(SerdeError)
          case Some(ts) => Ok(ts)
  }

  /**
   * A file that `exists` cannot see, though it is there and holds a record,
   * loads as no tasks and no error: the record is not read.
   */
  lemma LoadUnseen(files: Files, path: Path, ts: seq<Task>)
    requires path in files && files[path] == Codec.Encode(ts)
    ensures LoadSpec(files, path, ExistsFails) == Ok([])
    ensures ts != [] ==> LoadSpec(files, path, LoadRuns) != LoadSpec(files, path, ExistsFails)
  {
    if ts != [] {
      var stored := (files - {TempPath(path)})[path := Codec.Encode(ts)];
      LoadAfterStore(files, path, ts);
      LoadSeesOnlyPath(files, stored, path, LoadRuns);
    }
  }

  /** `load` depends only on what is at `path`. */
  lemma LoadSeesOnlyPath(a: Files, b: Files, path: Path, fault: LoadFault)
    requires Lookup(a, path) == Lookup(b, path)
    ensures LoadSpec(a, path, fault) == LoadSpec(b, path, fault)
  {
    assert path in a <==> path in b;
  }

  /** A missing file is "no tasks yet": an empty collection and no error, whatever else happens. */
  lemma LoadMissing(files: Files, path: Path, fault: LoadFault)
    requires path !in files
    ensures LoadSpec(files, path, fault) == Ok([])
  {
  }

  /** A zero-length file is also an empty collection, not a decoding error. */
  lemma LoadZeroLength(files: Files, path: Path)
    requires path in files && files[path] == []
    ensures LoadSpec(files, path, LoadRuns) == Ok([])
  {
  }

  /**
   * A present, non-empty file whose text does not decode is reported as
   * `SerdeError`; it is never taken for an empty collection.
   */
  lemma LoadUndecodable(files: Files, path: Path, text: string)
    requires path in files && |files[path]| > 0
    requires Utf8.Decode(files[path]) == Some(text) && Codec.Parse(text) == None
    ensures LoadSpec(files, path, LoadRuns) == Err(SerdeError)
  {
  }

  /**
   * `load` succeeds only for a file it takes to be missing (really missing,
   * or `exists` failing), an empty file, or a file that decodes to exactly
   * the tasks it returns.
   */
  lemma LoadOkMeans(files: Files, path: Path, fault: LoadFault, ts: seq<Task>)
    requires LoadSpec(files, path, fault) == Ok(ts)
    ensures path !in files || fault == ExistsFails || files[path] == [] ||
            exists text :: Utf8.Decode(files[path]) == Some(text) && Codec.Parse(text) == Some(ts)
    ensures (path !in files || fault == ExistsFails) ==> ts == []
  {
    if path in files && fault != ExistsFails && files[path] != [] {
      var text := Utf8.Decode(files[path]).value;
      assert Codec.Parse(text) == Some(ts);
    }
  }

  /** After a successful `store`, the next `load` restores the same tasks in the same order. */
  lemma LoadAfterStore(files: Files, path: Path, ts: seq<Task>)
    ensures LoadSpec((files - {TempPath(path)})[path := Codec.Encode(ts)], path, LoadRuns) == Ok(ts)
  {
    Codec.DecodeEncoded(ts);
    Codec.ParseSerialize(ts);
  }

  /**
   * Crash safety as a reader sees it: a disk that differs from the one
   * before `store` only at the temporary path loads exactly as before.
   */
  lemma LoadAfterCrash(before: Files, crashed: Files, path: Path, fault: LoadFault)
    requires path != TempPath(path) && AgreeExcept(crashed, before, TempPath(path))
    ensures LoadSpec(crashed, path, fault) == LoadSpec(before, path, fault)
  {
    var tmp := TempPath(path);
    assert path in crashed <==> path in crashed - {tmp};
    assert path in before <==> path in before - {tmp};
    if path in crashed {
      assert crashed[path] == (crashed - {tmp})[path];
    }
  }

  /** After `clear`, the next `load` sees an empty collection and no error. */
  lemma LoadAfterClear(files: Files, path: Path)
    ensures LoadSpec(files[path := []], path, LoadRuns) == Ok([])
  {
  }

  /** The disk states `history[from..to]` all differ from `before` at most at `tmp`. */
  ghost predicate SafeBetween(history: seq<Files>, from: nat, to: nat, before: Files, tmp: Path) {
    from <= to <= |history| && forall j :: from <= j < to ==> AgreeExcept(history[j], before, tmp)
  }

  lemma UpdateAgrees(m: Files, p: Path, v: Utf8.Bytes, s: set<Path>)
    requires p in s
    ensures m[p := v] - s == m - s
  {
  }

  lemma RenameAgrees(m: Files, tmp: Path, path: Path, v: Utf8.Bytes)
    ensures (m - {tmp})[path := v] - {path, tmp} == m - {path, tmp}
  {
  }

  /**
   * A state `created` that differs from `before` only at `tmp`, followed by
   * states that differ from `created` only there: all of them differ from
   * `before` only at `tmp`.
   */
  lemma SafeJoin(history: seq<Files>, from: nat, before: Files, tmp: Path)
    requires from < |history| && AgreeExcept(history[from], before, tmp)
    requires SafeBetween(history, from + 1, |history|, history[from], tmp)
    ensures SafeBetween(history, from, |history|, before, tmp)
  {
  }

  /**
   * `file.write_all(bytes)` on the freshly created file `p`: writes the bytes
   * one at a time, and fails at offset `failAt` if that is within `bytes`.
   * Every state it leaves in the disk history differs from the starting
   * disk only at `p`.
   */
  method WriteAll(disk: Disk, p: Path, bytes: Utf8.Bytes, failAt: Option<nat>) returns (ok: bool)
    requires disk.Valid() && p in disk.files && disk.files[p] == []
    modifies disk
    ensures disk.Valid()
    ensures ok <==> failAt.None? || failAt.value >= |bytes|
    ensures disk.files == old(disk.files)[p := if ok then bytes else bytes[..failAt.value]]
    ensures |old(disk.history)| <= |disk.history| && disk.history[..|old(disk.history)|] == old(disk.history)
    ensures SafeBetween(disk.history, |old(disk.history)|, |disk.history|, old(disk.files), p)
  {
    var i := 0;
    while i < |bytes|
      invariant 0 <= i <= |bytes|
      invariant failAt.Some? ==> i <= failAt.value
      invariant disk.Valid()
      invariant disk.files == old(disk.files)[p := bytes[..i]]
      invariant |old(disk.history)| <= |disk.history| && disk.history[..|old(disk.history)|] == old(disk.history)
      invariant forall j :: |old(disk.history)| <= j < |disk.history| ==> AgreeExcept(disk.history[j], old(disk.files), p)
    {
      ok := disk.Append(p, bytes[i], failAt == Some(i));
      if !ok {
        return;
      }
      assert bytes[..i + 1] == bytes[..i] + [bytes[i]];
      i := i + 1;
    }
    assert bytes[..i] == bytes;
    ok := true;
  }

  /**
   * The first half of `store`: `File::create(tmp)`, serialising the tasks to
   * `bytes`, and `write_all`. Only `tmp` changes, and every state passed
   * through differs from the starting disk only there.
   */
  method WriteTemp(disk: Disk, tmp: Path, bytes: Utf8.Bytes, fault: StoreFault) returns (r: Completion)
    requires disk.Valid()
    modifies disk
    ensures disk.Valid()
    ensures r == match fault
                 case CreateTempFails => Failed(CreateFailed)
                 case SerializeFails => Failed(SerializeFailed)
                 case WriteFailsAt(k) => if k < |bytes| then Panicked(WriteFailedMessage) else Done
                 case _ => Done
    ensures r == Failed(CreateFailed) ==> disk.files == old(disk.files)
    ensures r == Failed(SerializeFailed) ==> disk.files == old(disk.files)[tmp := []]
    ensures r.Panicked? ==> disk.files == old(disk.files)[tmp := bytes[..fault.offset]]
    ensures r.Done? ==> disk.files == old(disk.files)[tmp := bytes]
    ensures |old(disk.history)| <= |disk.history| && disk.history[..|old(disk.history)|] == old(disk.history)
    ensures SafeBetween(disk.history, |old(disk.history)|, |disk.history|, old(disk.files), tmp)
  {
    ghost var before, start := disk.files, disk.history;
    var ok := disk.Create(tmp, fault == CreateTempFails);
    if !ok {
      return Failed(CreateFailed);
    }
    ghost var afterCreate := disk.history;
    UpdateAgrees(before, tmp, [], {tmp});
    if fault == SerializeFails {
      return Failed(SerializeFailed);
    }
    ok := WriteAll(disk, tmp, bytes, if fault.WriteFailsAt? then Some(fault.offset) else None);
    assert disk.history[|start|] == afterCreate[|start|];
    SafeJoin(disk.history, |start|, before, tmp);
    if !ok {
      return Panicked(WriteFailedMessage);
    }
    return Done;
  }

  class TaskStorage {
    var tasks: seq<Task>
    const path: Path

    ghost predicate Valid()
      reads this
    {
      path.name == TaskFileName
    }

    /** `TaskStorage::new`: no tasks yet, and the backing path `get_task_path` picks. */
    constructor (dataDir: Option<seq<string>>)
      ensures Valid() && tasks == [] && path == TaskPath(dataDir)
    {
      tasks := [];
      path := TaskPath(dataDir);
    }

    /**
     * `load`: replaces `tasks` with the collection on disk, or returns the
     * error and keeps the previous `tasks`. It never writes to the disk.
     */
    method Load(disk: Disk, fault: LoadFault) returns (r: Result<(), StorageError>)
      requires disk.Valid()
      modifies this
      ensures var spec := LoadSpec(disk.files, path, fault);
              (r.Ok? <==> spec.Ok?) && (r.Err? ==> r.error == spec.error) &&
              tasks == (if spec.Ok? then spec.value else old(tasks))
      ensures unchanged(disk)
    {
      if path in disk.files && fault != ExistsFails {
        if fault == ReadFails {
          return Err(IoError(ReadFailed));
        }
        var data := Utf8.Decode(disk.files[path]);
        if data.None? {
          return Err(IoError(InvalidData));
        }
        if fault == MetadataFails {
          return Err(IoError(MetadataFailed));
        }
        if |disk.files[path]| == 0 {
          tasks := [];
          return Ok(());
        }
        var parsed := Codec.Parse(data.value);
        if parsed.None? {
          return Err(SerdeError);
        }
        tasks := parsed.value;
        return Ok(());
      } else {
        tasks := [];
        return Ok(());
      }
    }

    /** `add_task`: appends `t`; every earlier task stays where it was. */
    method AddTask(t: Task)
      modifies this
      ensures tasks == old(tasks) + [t]
      ensures |tasks| == |old(tasks)| + 1 && tasks[|tasks| - 1] == t
      ensures forall i :: 0 <= i < |old(tasks)| ==> tasks[i] == old(tasks)[i]
    {
      tasks := tasks + [t];
    }

    /** `clear`: `File::create(path)`, which leaves a zero-length file there; `tasks` stays as it was. */
    method Clear(disk: Disk, fail: bool) returns (r: Completion)
      requires disk.Valid()
      modifies disk
      ensures disk.Valid()
      ensures r == if fail then Failed(CreateFailed) else Done
      ensures disk.files == if fail then old(disk.files) else old(disk.files)[path := []]
      ensures disk.history == if fail then old(disk.history) else old(disk.history) + [disk.files]
    {
      var ok := disk.Create(path, fail);
      if !ok {
        return Failed(CreateFailed);
      }
      return Done;
    }

    /**
     * `store`: writes the encoded tasks into `path.with_extension("tmp")`,
     * then renames that file over `path`. Only those two paths are touched;
     * until the rename every state the disk passes through agrees with the
     * old disk everywhere but the temporary path, so a failure, or a process
     * crash before the rename, leaves `path` exactly as it was. The disk
     * history holds the steps in the order they run, each one durable once
     * done: a power loss that keeps the rename but not the written bytes is
     * outside it, since nothing is synced.
     */
    method Store(disk: Disk, fault: StoreFault) returns (r: Completion)
      requires Valid() && disk.Valid()
      modifies disk
      ensures disk.Valid()
      ensures r == match fault
                   case StoreRuns => Done
                   case CreateTempFails => Failed(CreateFailed)
                   case SerializeFails => Failed(SerializeFailed)
                   case WriteFailsAt(k) => if k < |Codec.Encode(tasks)| then Panicked(WriteFailedMessage) else Done
                   case RenameFails => Failed(RenameFailed)
      ensures r.Done? ==> disk.files == (old(disk.files) - {TempPath(path)})[path := Codec.Encode(tasks)]
      ensures r == Failed(CreateFailed) ==> disk.files == old(disk.files)
      ensures r == Failed(SerializeFailed) ==> disk.files == old(disk.files)[TempPath(path) := []]
      ensures r.Panicked? ==> disk.files == old(disk.files)[TempPath(path) := Codec.Encode(tasks)[..fault.offset]]
      ensures r == Failed(RenameFailed) ==> disk.files == old(disk.files)[TempPath(path) := Codec.Encode(tasks)]
      ensures !r.Done? ==> Lookup(disk.files, path) == Lookup(old(disk.files), path)
      ensures disk.files - {path, TempPath(path)} == old(disk.files) - {path, TempPath(path)}
      ensures |old(disk.history)| <= |disk.history| && disk.history[..|old(disk.history)|] == old(disk.history)
      ensures SafeBetween(disk.history, |old(disk.history)|, |disk.history| - (if r.Done? then 1 else 0),
                          old(disk.files), TempPath(path))
    {
      var tmp := TempPath(path);
      TempPathOfTaskFile(path);
      var json := Codec.Encode(tasks);
      r := WriteTemp(disk, tmp, json, fault);
      if !r.Done? {
        if r != Failed(CreateFailed) {
          UpdateAgrees(old(disk.files), tmp, disk.files[tmp], {path, tmp});
        }
        return;
      }
      var ok := disk.Rename(tmp, path, fault == RenameFails);
      if !ok {
        UpdateAgrees(old(disk.files), tmp, json, {path, tmp});
        return Failed(RenameFailed);
      }
      RenameAgrees(old(disk.files), tmp, path, json);
    }

    /** `sort`: a stable reordering of `tasks` by the strategy's key; `path` stays as it is. */
    method Sort(sorting: SortType)
      modifies this
      ensures tasks == Sorting.SortedBy(sorting, old(tasks))
      ensures Sorting.Sorted(sorting, tasks) && multiset(tasks) == multiset(old(tasks))
      ensures forall k :: Sorting.KeyClass(sorting, tasks, k) == Sorting.KeyClass(sorting, old(tasks), k)
    {
      tasks := Sorting.SortTasks(sorting, tasks);
    }
  }
}
