/** The server's path-confined storage (`internal/storage/fileStorage.go`): every operation
    resolves its argument against the base directory with `SecurePath` and then works on the
    host filesystem. */
module Storage {
  import opened Wrappers
  import opened Sequences
  import opened Paths
  import opened Order
  import opened FileSystem

  /** `securePath`: the base directory and the caller's path are concatenated as strings and
      cleaned; the result is then checked with `filepath.Rel`, whose relative path is discarded,
      so the check can only fail when Rel itself fails. */
  function SecurePath(base: Path, path: string): (r: Result<Path>)
    ensures r.Ok? ==> IsClean(r.value)
  {
    var abs := Clean(PathString(base) + path);
    match Rel(base, abs)
    case Err(e) => Err(e)
    case Ok(_) => Ok(abs)
  }

  /** The confinement check rejects nothing: for a clean base every path resolves. */
  lemma SecurePathNeverRejects(base: Path, path: string)
    requires IsClean(base)
    ensures SecurePath(base, path).Ok? && IsClean(SecurePath(base, path).value)
  {
    RelNeverFails(base, Clean(PathString(base) + path));
  }

  /** A path beginning with `/` resolves as its elements applied to the base directory. */
  lemma SecurePathOfRooted(base: Path, rest: string)
    requires IsClean(base)
    ensures SecurePath(base, "/" + rest) == Ok(Resolve(base, Split(rest, '/')))
  {
    var a := PathString(base);
    SecurePathNeverRejects(base, "/" + rest);
    assert SecurePath(base, "/" + rest) == Ok(Clean(a + ("/" + rest)));
    assert a + ("/" + rest) == a + ['/'] + rest;
    SplitAround(a, rest, '/');
    ResolveAppend([], Split(a, '/'), Split(rest, '/'));
    CleanPathString(base);
  }

  /** A path that starts at the base (empty or beginning with `/`) and has no `..` element
      resolves inside the base directory. */
  lemma SecurePathConfined(base: Path, path: string)
    requires IsClean(base)
    requires path == "" || path[0] == '/'
    requires forall i :: 0 <= i < |Split(path, '/')| ==> Split(path, '/')[i] != ".."
    ensures SecurePath(base, path).Ok? && IsPrefix(base, SecurePath(base, path).value)
  {
    if path == "" {
      SecurePathOfEmpty(base);
      assert base[..|base|] == base;
    } else {
      var rest := path[1..];
      NoParentAfterRoot(path);
      SecurePathOfRooted(base, rest);
      ResolveKeepsPrefix(base, Split(rest, '/'));
    }
  }

  /** The empty path names the base directory itself. */
  lemma SecurePathOfEmpty(base: Path)
    requires IsClean(base)
    ensures SecurePath(base, "") == Ok(base)
  {
    SecurePathNeverRejects(base, "");
    CleanPathString(base);
    assert PathString(base) + "" == PathString(base);
  }

  /** The elements of a rooted name are those after its leading `/`, behind one empty
      element. */
  lemma NoParentAfterRoot(path: string)
    requires path != "" && path[0] == '/'
    requires forall i :: 0 <= i < |Split(path, '/')| ==> Split(path, '/')[i] != ".."
    ensures path == "/" + path[1..]
    ensures forall i :: 0 <= i < |Split(path[1..], '/')| ==> Split(path[1..], '/')[i] != ".."
  {
    var rest := path[1..];
    assert path == [] + ['/'] + rest;
    SplitAround([], rest, '/');
    assert forall i :: 0 <= i < |Split(rest, '/')| ==> Split(rest, '/')[i] == Split(path, '/')[i + 1];
  }

  /** Escape upwards: with base `/srv`, the path `/..` resolves to the root, outside the base,
      and is accepted. */
  lemma SecurePathEscapesUpward()
    ensures SecurePath(["srv"], "/..") == Ok([])
    ensures !IsPrefix(["srv"], [])
  {
    var base: Path := ["srv"];
    assert IsClean(base);
    SplitPathString(base);
    assert "/.." == [] + ['/'] + "..";
    SplitWithoutSeparator("..", '/');
    assert PathString(base) + "/.." == PathString(base) + ['/'] + "..";
    SplitAround(PathString(base), "..", '/');
    var segs := Split(PathString(base) + "/..", '/');
    assert segs == ["", "srv", ".."];
    assert Resolve([], segs) == Resolve([], ["srv", ".."]) == Resolve(["srv"], [".."]) == Resolve([], []);
  }

  /** Escape sideways: a path without a leading `/` extends the last element of the base, so
      base `/srv` and path `x` give the sibling `/srvx`. */
  lemma SecurePathEscapesSideways()
    ensures SecurePath(["srv"], "x") == Ok(["srvx"])
    ensures !IsPrefix(["srv"], ["srvx"])
  {
    var base: Path := ["srv"];
    assert PathString(base) + "x" == [] + ['/'] + "srvx";
    CleanSrvx();
    RelNeverFails(base, ["srvx"]);
  }

  /** The rooted name `/srvx` is the single element `srvx`. */
  lemma CleanSrvx()
    ensures Clean([] + ['/'] + "srvx") == ["srvx"]
  {
    SplitAround([], "srvx", '/');
    SplitWithoutSeparator("srvx", '/');
    var segs := Split([] + ['/'] + "srvx", '/');
    assert segs == ["", "srvx"];
    assert Resolve([], segs) == Resolve([], ["srvx"]) == Resolve(["srvx"], []);
  }

  /** Appending the next chunk of the data to a file holding its first `off` bytes. */
  lemma WriteChunk(before: FS, full: Path, fs: FS, data: seq<Byte>, off: nat, chunk: seq<Byte>)
    requires off + |chunk| <= |data| && chunk == data[off..off + |chunk|]
    requires fs == before[full := File(data[..off])]
    ensures full in fs && fs[full].File?
    ensures fs[full := File(fs[full].data + chunk)] == before[full := File(data[..off + |chunk|])]
  {
    assert data[..off] + chunk == data[..off + |chunk|];
  }

  /** The names of the subdirectories of `p`, in name order. */
  ghost predicate SubdirListing(fs: FS, p: Path, names: seq<string>) {
    && StrictlySorted(names, NameLess)
    && (forall n :: n in names <==> p + [n] in fs && fs[p + [n]] == Dir)
  }

  /** A `FileStorage`: a base directory on the host filesystem. */
  class FileStorage {
    const basePath: Path
    var fs: FS

    ghost predicate Valid()
      reads this
    {
      IsClean(basePath) && FileSystem.Valid(fs)
    }

    constructor Create(basePath: Path, fs: FS)
      requires IsClean(basePath) && FileSystem.Valid(fs)
      ensures Valid() && this.basePath == basePath && this.fs == fs
    {
      this.basePath := basePath;
      this.fs := fs;
    }

    /** The resolved path of a caller's path; it always resolves for a valid storage. */
    function Resolved(path: string): (full: Path)
      reads this
      requires Valid()
      ensures IsClean(full) && SecurePath(basePath, path) == Ok(full)
    {
      SecurePathNeverRejects(basePath, path);
      SecurePath(basePath, path).value
    }

    /** `ioutil.ReadDir` reduced to names: every entry of the directory `p`, sorted by name. */
    method ReadDir(p: Path) returns (names: seq<string>)
      ensures StrictlySorted(names, NameLess)
      ensures forall n :: n in names <==> p + [n] in fs
    {
      var children := set k | k in fs.Keys && |k| == |p| + 1 && k[..|p|] == p :: k[|p|];
      forall n ensures n in children <==> p + [n] in fs {
        if p + [n] in fs {
          var k := p + [n];
          assert k[..|p|] == p && k[|p|] == n;
        }
        if n in children {
          var k :| k in fs.Keys && |k| == |p| + 1 && k[..|p|] == p && k[|p|] == n;
          assert k == p + [n];
        }
      }
      NameLessStrictTotal();
      names := SortSet(children, NameLess);
    }

    /** `ListFolders`: the subdirectories of `path` in name order; an empty list when the path
        cannot be stat'ed, and a nil list (with no error) when it names a regular file. */
    method ListFolders(path: string) returns (r: Result<Option<seq<string>>>)
      requires Valid()
      ensures var full := Resolved(path);
        && (full !in fs ==> r == Ok(Some([])))
        && (full in fs && fs[full].File? ==> r == Ok(None))
        && (full in fs && fs[full] == Dir ==> r.Ok? && r.value.Some? && SubdirListing(fs, full, r.value.value))
    {
      var secure := SecurePath(basePath, path);
      if secure.Err? {
        return Err("could not determine secure path: " + secure.msg);
      }
      var full := secure.value;
      StatSpec(fs, full);
      match Stat(fs, full) {
        case Found(File(_)) =>
          // errors.Wrap(nil, ...) is nil: the caller sees neither a list nor an error
          return Ok(None);
        case Found(Dir) =>
          var files := ReadDir(full);
          var directories: seq<string> := [];
          for i := 0 to |files|
            invariant StrictlySorted(directories, NameLess)
            invariant forall n :: n in directories <==> n in files[..i] && fs[full + [n]] == Dir
            invariant forall k, j :: 0 <= k < |directories| && i <= j < |files| ==> NameLess(directories[k], files[j])
          {
            if fs[full + [files[i]]] == Dir {
              directories := directories + [files[i]];
            }
            assert files[..i + 1] == files[..i] + [files[i]];
          }
          assert files[..|files|] == files;
          return Ok(Some(directories));
        case _ =>
          return Ok(Some([]));
      }
    }

    /** `File`: an unimplemented stub that returns neither a reader nor an error. */
    function File(path: string): (r: Result<Option<Stream>>)
      ensures r.Ok? && r.value.None?
    {
      Ok(None)
    }

    /** `Exists`: false only when the path is rejected or stat reports that it does not exist;
        ENOTDIR (a regular file on the way) is some other error and so counts as existing. */
    function Exists(path: string): (b: bool)
      reads this
      requires Valid()
      ensures b <==> Resolved(path) in fs || UnderFile(fs, Resolved(path))
    {
      match SecurePath(basePath, path)
      case Err(_) => false
      case Ok(full) =>
        StatSpec(fs, full);
        Stat(fs, full) != NotExist
    }

    /** `MkDir`: MkdirAll at the resolved path. */
    method MkDir(path: string) returns (err: Option<string>)
      requires Valid()
      modifies this
      ensures Valid()
      ensures var full := Resolved(path);
        match MkdirAll(old(fs), full)
        case Ok(after) => err == None && fs == after
        case Err(e) => err == Some("failed creating directory: " + e) && fs == old(fs)
    {
      var secure := SecurePath(basePath, path);
      if secure.Err? {
        return Some("could not determine secure path: " + secure.msg);
      }
      MkdirAllSpec(fs, secure.value);
      match MkdirAll(fs, secure.value) {
        case Err(e) =>
          err := Some("failed creating directory: " + e);
        case Ok(after) =>
          fs := after;
          err := None;
      }
    }

    /** `CreateFile`: creates or truncates the file, then copies the stream into it with
        `CopyInto`. */
    method CreateFile(path: string, file: Stream) returns (err: Option<string>)
      requires Valid()
      modifies this
      ensures Valid()
      ensures var full := Resolved(path);
        && (OpenForWrite(old(fs), full, true).Err? ==> err.Some? && fs == old(fs))
        && (OpenForWrite(old(fs), full, true).Ok? ==>
              fs == old(fs)[full := FileSystem.File(file.data)] && (err.Some? <==> file.broken))
    {
      var secure := SecurePath(basePath, path);
      if secure.Err? {
        return Some("could not determine secure path: " + secure.msg);
      }
      var full := secure.value;
      OpenForWriteSpec(fs, full, true);
      var handle := OpenForWrite(fs, full, true);
      if handle.Err? {
        return Some("failed creating file: " + handle.msg);
      }
      ghost var before := fs;
      fs := handle.value;
      assert fs == before[full := FileSystem.File([])];
      err := CopyInto(full, file);
      assert fs == before[full := FileSystem.File([])][full := FileSystem.File(file.data)];
    }

    /** The copy loop of `CreateFile`: the stream is read through a 1024-byte buffer and each
        chunk appended to the empty file `full` until end of file. A read error stops the copy
        and is reported, the bytes read so far staying in the file. */
    method CopyInto(full: Path, file: Stream) returns (err: Option<string>)
      requires Valid() && full in fs && fs[full] == FileSystem.File([])
      modifies this
      ensures Valid()
      ensures fs == old(fs)[full := FileSystem.File(file.data)]
      ensures err.Some? <==> file.broken
    {
      var before := fs;
      var written := before;
      assert file.data[..0] == [];
      assert written == before[full := FileSystem.File(file.data[..0])];
      var buf := new Byte[1024];
      var off := 0;
      while true
        invariant 0 <= off <= |file.data|
        invariant written == before[full := FileSystem.File(file.data[..off])]
        invariant FileSystem.Valid(written)
        decreases |file.data| - off
      {
        // read a chunk
        var n := if |file.data| - off < buf.Length then |file.data| - off else buf.Length;
        if n == 0 && file.broken {
          assert file.data[..off] == file.data;
          fs := written;
          return Some("failed to read from stream");
        }
        if n == 0 {
          break;
        }
        forall i | 0 <= i < n {
          buf[i] := file.data[off + i];
        }
        // write a chunk
        var chunk := buf[..n];
        assert chunk == file.data[off..off + n];
        WriteChunk(before, full, written, file.data, off, chunk);
        ReplaceContentValid(written, full, file.data[..off + n]);
        written := written[full := FileSystem.File(written[full].data + chunk)];
        off := off + n;
      }
      assert file.data[..off] == file.data;
      fs := written;
      err := None;
    }

    /** `ReadFile`: a reader over the stored bytes; a missing path is reported with the
        caller's own spelling of it. Opening a directory succeeds but reading from it fails. */
    function ReadFile(path: string): (r: Result<Stream>)
      reads this
      requires Valid()
      ensures var full := Resolved(path);
        && (r == Err("'" + path + "' does not exist") <==> full !in fs && !UnderFile(fs, full))
        && (r.Ok? <==> full in fs)
        && (r.Ok? && !r.value.broken <==> full in fs && fs[full].File?)
        && (r.Ok? && !r.value.broken ==> fs[full] == FileSystem.File(r.value.data))
    {
      match SecurePath(basePath, path)
      case Err(e) => Err("could not determine secure path: " + e)
      case Ok(full) =>
        StatSpec(fs, full);
        match Stat(fs, full)
        case NotExist => Err("'" + path + "' does not exist")
        case NotDirectory =>
          var e := "failed to open file: open " + PathString(full) + ": " + ENOTDIR;
          assert e[0] != ("'" + path + "' does not exist")[0];
          Err(e)
        case Found(File(data)) => Ok(Stream(data, false))
        case Found(Dir) => Ok(Stream([], true))
    }
  }

  /** `NewFileStorage`: the base directory made absolute against the working directory, and
      created with its ancestors when stat fails. */
  method NewFileStorage(fs: FS, cwd: Path, basePath: string) returns (r: Result<FileStorage>)
    requires FileSystem.Valid(fs) && IsClean(cwd)
    ensures var abs := Abs(cwd, basePath);
      && (r.Ok? ==> fresh(r.value) && r.value.Valid() && r.value.basePath == abs)
      && (abs in fs ==> r.Ok? && r.value.fs == fs)
      && (abs !in fs ==> match MkdirAll(fs, abs)
            case Ok(after) => r.Ok? && r.value.fs == after
            case Err(e) => r == Err("failed creating directory: " + e))
  {
    var abs := Abs(cwd, basePath);
    assert IsClean(abs);
    StatSpec(fs, abs);
    var created := fs;
    if !Stat(fs, abs).Found? {
      MkdirAllSpec(fs, abs);
      match MkdirAll(fs, abs) {
        case Err(e) =>
          return Err("failed creating directory: " + e);
        case Ok(after) =>
          created := after;
      }
    }
    var s := new FileStorage.Create(abs, created);
    r := Ok(s);
  }
}
