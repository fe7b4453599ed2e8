/** The host filesystem as a value: a map from clean absolute paths to directories and regular
    files, with the lexical semantics of the `os` calls the core makes (`Stat`, `MkdirAll`,
    `RemoveAll`, `OpenFile`). Permissions, modes, links and I/O failures of the disk itself
    are not modelled. */
module FileSystem {
  import opened Wrappers
  import opened Paths

  type Byte = b: int | 0 <= b < 256

  datatype Node = Dir | File(data: seq<Byte>)

  type FS = map<Path, Node>

  /** The state after an operation that may fail part way: Go's `os` calls do not roll back. */
  datatype Outcome = Outcome(fs: FS, err: Option<string>)

  /** An `io.Reader`: it yields `data`, then end of file, or an error when `broken`. */
  datatype Stream = Stream(data: seq<Byte>, broken: bool)

  const ENOENT := "no such file or directory"
  const ENOTDIR := "not a directory"
  const EISDIR := "is a directory"
  const EBUSY := "device or resource busy"

  /** A directory tree: the root is a directory, every stored path is clean, and every proper
      prefix of a stored path is a stored directory. */
  ghost predicate Valid(fs: FS) {
    && [] in fs && fs[[]] == Dir
    && (forall p :: p in fs ==> IsClean(p))
    && (forall p, i :: p in fs && 0 <= i < |p| ==> p[..i] in fs && fs[p[..i]] == Dir)
  }

  /** What `os.Stat` reports: the node, ENOENT, or ENOTDIR when an ancestor is a regular file. */
  datatype StatResult = Found(node: Node) | NotExist | NotDirectory

  function Stat(fs: FS, p: Path): (st: StatResult)
    decreases |p|
  {
    if p in fs then Found(fs[p])
    else if p == [] then NotExist
    else match Stat(fs, p[..|p| - 1])
      case Found(File(_)) => NotDirectory
      case Found(Dir) => NotExist
      case other => other
  }

  /** `os.Stat` of a name given relative to the working directory; the empty name fails. */
  function StatName(fs: FS, cwd: Path, name: string): (st: StatResult) {
    if name == "" then NotExist else Stat(fs, Abs(cwd, name))
  }

  /** The text of a failed stat. */
  function StatMessage(name: string, s: StatResult): (msg: string) {
    "stat " + name + ": " + (if s == NotDirectory then ENOTDIR else ENOENT)
  }

  /** Some proper ancestor of `p` is a regular file. */
  ghost predicate UnderFile(fs: FS, p: Path) {
    exists i :: 0 <= i < |p| && p[..i] in fs && fs[p[..i]].File?
  }

  /** No element of the chain from the root to `p` is a regular file. */
  ghost predicate NoFileOnPath(fs: FS, p: Path) {
    forall i :: 0 <= i <= |p| && p[..i] in fs ==> fs[p[..i]] == Dir
  }

  /** `p` and all its ancestors. */
  function Prefixes(p: Path): (ps: set<Path>) {
    set i | 0 <= i <= |p| :: p[..i]
  }

  /** A directory at `p` and at every ancestor of it. */
  function PrefixDirs(p: Path): (dirs: FS) {
    map q | q in Prefixes(p) :: Dir
  }

  /** `os.MkdirAll`: nothing to do for an existing directory, ENOTDIR for an existing file,
      otherwise the parent first and then `p`. */
  function MkdirAll(fs: FS, p: Path): (r: Result<FS>)
    decreases |p|
  {
    if p in fs then (if fs[p] == Dir then Ok(fs) else Err("mkdir " + PathString(p) + ": " + ENOTDIR))
    else if p == [] then Err("mkdir /: " + ENOENT)
    else match MkdirAll(fs, p[..|p| - 1])
      case Ok(fs') => Ok(fs'[p := Dir])
      case Err(e) => Err(e)
  }

  /** `os.RemoveAll`: a missing path is fine, a path below a regular file fails, anything else
      is removed with its whole subtree; the root itself cannot be unlinked, so removing it
      empties it and then fails. */
  function RemoveAll(fs: FS, p: Path): (r: Outcome) {
    if Stat(fs, p) == NotDirectory then Outcome(fs, Some("unlinkat " + PathString(p) + ": " + ENOTDIR))
    else
      var kept := map q | q in fs && (q == [] || !IsPrefix(p, q)) :: fs[q];
      if p == [] then Outcome(kept, Some("unlinkat /: " + EBUSY)) else Outcome(kept, None)
  }

  /** `os.OpenFile(p, O_CREATE|O_RDWR[|O_TRUNC])` seen through its effect: the file exists
      afterwards, emptied when truncating and left as it was otherwise. */
  function OpenForWrite(fs: FS, p: Path, truncate: bool): (r: Result<FS>) {
    match Stat(fs, p)
    case Found(Dir) => Err("open " + PathString(p) + ": " + EISDIR)
    case Found(File(_)) => Ok(if truncate then fs[p := File([])] else fs)
    case NotDirectory => Err("open " + PathString(p) + ": " + ENOTDIR)
    case NotExist =>
      if p != [] && p[..|p| - 1] in fs && fs[p[..|p| - 1]] == Dir then Ok(fs[p := File([])])
      else Err("open " + PathString(p) + ": " + ENOENT)
  }

  /** Writing `data` from offset 0 into an open file that is not truncated: bytes beyond
      `|data|` of the old content survive. */
  function WriteFromStart(fs: FS, p: Path, data: seq<Byte>): (after: FS)
    requires p in fs && fs[p].File?
  {
    var prior := fs[p].data;
    fs[p := File(data + if |data| < |prior| then prior[|data|..] else [])]
  }

  // ---------------------------------------------------------------- Stat

  /** Stat finds exactly the stored paths, and reports ENOTDIR exactly below a regular file. */
  lemma {:induction false} StatSpec(fs: FS, p: Path)
    requires Valid(fs)
    ensures Stat(fs, p).Found? <==> p in fs
    ensures p in fs ==> Stat(fs, p) == Found(fs[p])
    ensures Stat(fs, p) == NotDirectory <==> p !in fs && UnderFile(fs, p)
    decreases |p|
  {
    if p !in fs && p != [] {
      var q := p[..|p| - 1];
      assert forall i :: 0 <= i <= |q| ==> p[..i] == q[..i];
      if q in fs {
        if fs[q].File? {
          assert p[..|p| - 1] == q;
        } else {
          forall i | 0 <= i < |p| && p[..i] in fs ensures fs[p[..i]] == Dir {
            if i < |q| { assert q[..i] == p[..i]; }
          }
        }
      } else {
        StatSpec(fs, q);
        assert UnderFile(fs, p) <==> UnderFile(fs, q) by {
          if UnderFile(fs, p) {
            var i :| 0 <= i < |p| && p[..i] in fs && fs[p[..i]].File?;
            assert i < |q| && q[..i] == p[..i];
          }
          if UnderFile(fs, q) {
            var i :| 0 <= i < |q| && q[..i] in fs && fs[q[..i]].File?;
            assert p[..i] == q[..i];
          }
        }
      }
    }
  }

  // ---------------------------------------------------------------- MkdirAll

  lemma PrefixDirsValid(fs: FS, p: Path)
    requires Valid(fs) && IsClean(p) && NoFileOnPath(fs, p)
    ensures Valid(fs + PrefixDirs(p))
  {
    var r := fs + PrefixDirs(p);
    assert p[..0] == [];
    forall k, i | k in r && 0 <= i < |k| ensures k[..i] in r && r[k[..i]] == Dir {
      if k in PrefixDirs(p) {
        var j :| 0 <= j <= |p| && k == p[..j];
        assert k[..i] == p[..i];
      } else {
        assert k[..i] in fs && fs[k[..i]] == Dir;
      }
    }
    forall k | k in r ensures IsClean(k) {
      if k in PrefixDirs(p) {
        var j :| 0 <= j <= |p| && k == p[..j];
        assert forall m :: 0 <= m < |k| ==> k[m] == p[m];
      }
    }
  }

  lemma PrefixesOfChild(p: Path)
    requires p != []
    ensures Prefixes(p) == Prefixes(p[..|p| - 1]) + {p}
  {
    var q := p[..|p| - 1];
    assert p == p[..|p|];
    forall k | k in Prefixes(p) ensures k in Prefixes(q) + {p} {
      var j :| 0 <= j <= |p| && k == p[..j];
      if j < |p| { assert k == q[..j]; } else { assert k == p; }
    }
    forall k | k in Prefixes(q) ensures k in Prefixes(p) {
      var j :| 0 <= j <= |q| && k == q[..j];
      assert k == p[..j];
    }
  }

  /** MkdirAll succeeds exactly when no element of the path is a regular file. */
  lemma {:induction false} MkdirAllSucceeds(fs: FS, p: Path)
    requires Valid(fs)
    ensures MkdirAll(fs, p).Ok? <==> NoFileOnPath(fs, p)
    decreases |p|
  {
    assert p[..|p|] == p;
    if p !in fs && p != [] {
      var q := p[..|p| - 1];
      assert forall i :: 0 <= i <= |q| ==> p[..i] == q[..i];
      MkdirAllSucceeds(fs, q);
    }
  }

  lemma ExtendPrefixDirs(fs: FS, p: Path)
    requires p != []
    ensures (fs + PrefixDirs(p[..|p| - 1]))[p := Dir] == fs + PrefixDirs(p)
  {
    PrefixesOfChild(p);
  }

  /** On an existing directory the added directories are all there already. */
  lemma PrefixDirsPresent(fs: FS, p: Path)
    requires Valid(fs) && p in fs && fs[p] == Dir
    ensures fs + PrefixDirs(p) == fs
  {
    forall k | k in PrefixDirs(p) ensures k in fs && fs[k] == Dir {
      var j :| 0 <= j <= |p| && k == p[..j];
      assert j == |p| ==> k == p;
    }
  }

  lemma {:induction false} MkdirAllValue(fs: FS, p: Path)
    requires Valid(fs) && MkdirAll(fs, p).Ok?
    ensures MkdirAll(fs, p).value == fs + PrefixDirs(p)
    decreases |p|
  {
    if p in fs {
      PrefixDirsPresent(fs, p);
    } else {
      MkdirAllValue(fs, p[..|p| - 1]);
      ExtendPrefixDirs(fs, p);
    }
  }

  /** A successful MkdirAll adds a directory at `p` and at each missing ancestor and leaves
      every other path as it was; the tree stays well formed. */
  lemma MkdirAllSpec(fs: FS, p: Path)
    requires Valid(fs) && IsClean(p)
    ensures MkdirAll(fs, p).Ok? <==> NoFileOnPath(fs, p)
    ensures MkdirAll(fs, p).Ok? ==> MkdirAll(fs, p).value == fs + PrefixDirs(p)
    ensures MkdirAll(fs, p).Ok? ==> Valid(MkdirAll(fs, p).value)
  {
    MkdirAllSucceeds(fs, p);
    if MkdirAll(fs, p).Ok? {
      MkdirAllValue(fs, p);
      PrefixDirsValid(fs, p);
    }
  }

  /** MkdirAll is idempotent: a second call changes nothing. */
  lemma MkdirAllIdempotent(fs: FS, p: Path)
    requires Valid(fs) && IsClean(p) && MkdirAll(fs, p).Ok?
    ensures MkdirAll(MkdirAll(fs, p).value, p) == MkdirAll(fs, p)
  {
    MkdirAllSpec(fs, p);
    assert p in PrefixDirs(p) by { assert p[..|p|] == p; }
  }

  // ---------------------------------------------------------------- RemoveAll

  /** Below a non-root path that is not under a regular file, RemoveAll leaves nothing at or
      beneath the path and keeps every other path. */
  lemma RemoveAllSpec(fs: FS, p: Path)
    requires Valid(fs) && p != [] && Stat(fs, p) != NotDirectory
    ensures RemoveAll(fs, p).err == None
    ensures var r := RemoveAll(fs, p).fs;
      && Valid(r)
      && (forall q :: q in r ==> !IsPrefix(p, q))
      && (forall q :: q in fs && !IsPrefix(p, q) ==> q in r && r[q] == fs[q])
  {
    RemoveAllValid(fs, p);
  }

  /** Whatever RemoveAll reports, what it leaves is a well-formed tree. */
  lemma RemoveAllValid(fs: FS, p: Path)
    requires Valid(fs)
    ensures Valid(RemoveAll(fs, p).fs)
  {
    if Stat(fs, p) != NotDirectory {
      var r := RemoveAll(fs, p).fs;
      forall k, i | k in r && 0 <= i < |k| ensures k[..i] in r && r[k[..i]] == Dir {
        assert k[..i] in fs;
        if k[..i] != [] {
          assert !IsPrefix(p, k[..i]) by {
            if |p| <= i { assert k[..i][..|p|] == k[..|p|]; }
          }
        }
      }
    }
  }

  // ---------------------------------------------------------------- OpenFile

  /** Opening for writing succeeds exactly when `p` is not a directory and its parent is an
      existing directory; it then creates `p` as an empty file if absent and touches nothing else. */
  lemma OpenForWriteSpec(fs: FS, p: Path, truncate: bool)
    requires Valid(fs) && IsClean(p)
    ensures var r := OpenForWrite(fs, p, truncate);
      && (r.Ok? <==> p != [] && p[..|p| - 1] in fs && fs[p[..|p| - 1]] == Dir && !(p in fs && fs[p] == Dir))
      && (r.Ok? ==>
            && Valid(r.value) && p in r.value && r.value[p].File?
            && (forall q :: q != p ==> (q in r.value <==> q in fs) && (q in fs ==> r.value[q] == fs[q]))
            && r.value[p] == (if p in fs && !truncate then fs[p] else File([])))
  {
    StatSpec(fs, p);
    if p != [] {
      var q := p[..|p| - 1];
      StatSpec(fs, q);
      if q in fs && fs[q] == Dir && p !in fs {
        var r := fs[p := File([])];
        forall k, i | k in r && 0 <= i < |k| ensures k[..i] in r && r[k[..i]] == Dir {
          if k == p {
            if i < |q| { assert k[..i] == q[..i]; } else { assert k[..i] == q; }
          }
        }
      }
      if p in fs {
        assert q in fs && fs[q] == Dir by { assert p[..|p| - 1] == q; }
      }
    }
  }

  /** Replacing the content of a regular file keeps the tree well formed. */
  lemma ReplaceContentValid(fs: FS, p: Path, data: seq<Byte>)
    requires Valid(fs) && p in fs && fs[p].File?
    ensures Valid(fs[p := File(data)])
  {
  }
}
