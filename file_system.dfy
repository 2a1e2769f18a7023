/**
 * The file system the task store talks to: a map from path to the bytes of
 * the file there. Each operation that changes the map is one atomic step,
 * and the ghost `history` records every state the disk has been in, so that
 * a process crash can be modelled as the disk stopping in any recorded state.
 * Each step is durable as soon as it is done, in program order; the
 * reordering a power loss can cause in a file system's cache is not modelled.
 * Every step takes a `fail` flag: when the environment makes the step fail
 * (permissions, a full disk, ...), it returns false and changes nothing.
 */
module FileSystem {
  import opened Paths
  import opened Utf8

  type Files = map<Path, Bytes>

  /** The bytes at `p`, if a file is there. */
  function Lookup(files: Files, p: Path): Results.Option<Bytes> {
    if p in files then Results.Some(files[p]) else Results.None
  }

  /** `a` and `b` hold the same files everywhere except, possibly, at `p`. */
  predicate AgreeExcept(a: Files, b: Files, p: Path) {
    a - {p} == b - {p}
  }

  class Disk {
    var files: Files
    ghost var history: seq<Files>

    ghost predicate Valid()
      reads this
    {
      |history| > 0 && history[|history| - 1] == files
    }

    constructor (init: Files)
      ensures Valid() && files == init && history == [init]
    {
      files := init;
      history := [init];
    }

    /** `File::create(p)`: creates the file, or truncates an existing one to zero length. */
    method Create(p: Path, fail: bool) returns (ok: bool)
      requires Valid()
      modifies this
      ensures Valid() && ok == !fail
      ensures files == if ok then old(files)[p := []] else old(files)
      ensures history == if ok then old(history) + [files] else old(history)
    {
      ok := !fail;
      if ok {
        files := files[p := []];
        history := history + [files];
      }
    }

    /** Appends one byte to the open file `p`: the smallest step of `write_all`. */
    method Append(p: Path, b: byte, fail: bool) returns (ok: bool)
      requires Valid() && p in files
      modifies this
      ensures Valid() && ok == !fail
      ensures files == if ok then old(files)[p := old(files)[p] + [b]] else old(files)
      ensures history == if ok then old(history) + [files] else old(history)
    {
      ok := !fail;
      if ok {
        files := files[p := files[p] + [b]];
        history := history + [files];
      }
    }

    /**
     * `fs::rename(from, to)`: in one step `to` takes the content of `from`,
     * replacing whatever was there, and `from` disappears.
     */
    method Rename(from: Path, to: Path, fail: bool) returns (ok: bool)
      requires Valid() && from in files
      modifies this
      ensures Valid() && ok == !fail
      ensures files == if ok then (old(files) - {from})[to := old(files)[from]] else old(files)
      ensures history == if ok then old(history) + [files] else old(history)
    {
      ok := !fail;
      if ok {
        files := (files - {from})[to := files[from]];
        history := history + [files];
      }
    }
  }
}
