/**
 * File-system paths as Rust's `PathBuf` treats them here: a directory and a
 * final file name. Covers `Path::join` of a file name, `file_stem`,
 * `extension` and `with_extension`.
 */
module Paths {
  import opened Results

  /** `dir` lists the directory components (empty: the current directory); `name` is the file name, "" for none. */
  datatype Path = Path(dir: seq<string>, name: string)

  /** The index of the last '.' in `name`, if it has one. */
  function LastDot(name: string): (r: Option<nat>)
    ensures r.Some? ==> r.value < |name| && name[r.value] == '.'
    ensures r.Some? ==> forall i :: r.value < i < |name| ==> name[i] != '.'
    ensures r.None? ==> forall i :: 0 <= i < |name| ==> name[i] != '.'
  {
    if name == [] then None
    else if name[|name| - 1] == '.' then Some(|name| - 1)
    else LastDot(name[..|name| - 1])
  }

  /**
   * Rust's split of a file name at its last dot: a name without a dot, or whose
   * only dot is its first character, has no extension.
   */
  function Extension(name: string): Option<string> {
    match LastDot(name)
    case Some(i) => if i == 0 then None else Some(name[i + 1..])
    case None => None
  }

  function FileStem(name: string): (stem: string)
    ensures name != [] ==> stem != []
  {
    match LastDot(name)
    case Some(i) => if i == 0 then name else name[..i]
    case None => name
  }

  /** `path.with_extension(ext)`: the stem of the file name followed by ".ext". */
  function WithExtension(p: Path, ext: string): (q: Path)
    ensures q.dir == p.dir
  {
    if p.name == [] then p
    else Path(p.dir, FileStem(p.name) + (if ext == [] then [] else "." + ext))
  }

  /** `dir.join(name)` for a plain file name. */
  function Join(dir: seq<string>, name: string): (p: Path)
    ensures p.dir == dir && p.name == name
  {
    Path(dir, name)
  }

  /** In `stem.ext`, with no dot in `ext`, the last dot is the one after `stem`. */
  lemma {:induction false} LastDotOfJoined(stem: string, ext: string)
    requires forall i :: 0 <= i < |ext| ==> ext[i] != '.'
    ensures LastDot(stem + "." + ext) == Some(|stem|)
    decreases |ext|
  {
    var n := stem + "." + ext;
    if ext != [] {
      var m := |ext| - 1;
      assert n[|n| - 1] == ext[m];
      assert n[..|n| - 1] == stem + "." + ext[..m];
      LastDotOfJoined(stem, ext[..m]);
    }
  }

  /** The extension of `stem.ext`, for a non-empty stem and an extension without dots, is `ext`. */
  lemma ExtensionOfJoined(stem: string, ext: string)
    requires stem != [] && forall i :: 0 <= i < |ext| ==> ext[i] != '.'
    ensures Extension(stem + "." + ext) == Some(ext)
  {
    LastDotOfJoined(stem, ext);
    var n := stem + "." + ext;
    assert n[|stem| + 1..] == ext;
  }

  /** The stem of `stem.ext`, for a non-empty stem and an extension without dots, is `stem`. */
  lemma FileStemOfJoined(stem: string, ext: string)
    requires stem != [] && forall i :: 0 <= i < |ext| ==> ext[i] != '.'
    ensures FileStem(stem + "." + ext) == stem
  {
    LastDotOfJoined(stem, ext);
    var n := stem + "." + ext;
    assert n[..|stem|] == stem;
  }

  /** `with_extension(ext2)` on `stem.ext` gives `stem.ext2` in the same directory. */
  lemma WithExtensionOfJoined(p: Path, stem: string, ext: string, ext2: string)
    requires p.name == stem + "." + ext && ext2 != []
    requires stem != [] && forall i :: 0 <= i < |ext| ==> ext[i] != '.'
    ensures WithExtension(p, ext2) == Path(p.dir, stem + "." + ext2)
  {
    FileStemOfJoined(stem, ext);
  }

  /**
   * `with_extension(ext)` gives a path beside `p` (same directory) that differs
   * from `p` unless `p` already carries that extension.
   */
  lemma WithExtensionDiffers(p: Path, ext: string)
    requires p.name != [] && ext != [] && forall i :: 0 <= i < |ext| ==> ext[i] != '.'
    requires Extension(p.name) != Some(ext)
    ensures WithExtension(p, ext) != p && WithExtension(p, ext).dir == p.dir
  {
    var stem := FileStem(p.name);
    ExtensionOfJoined(stem, ext);
    assert WithExtension(p, ext).name == stem + "." + ext;
  }
}
