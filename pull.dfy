/** The client's `pull`: each dependency's archive is downloaded and unpacked below
    `<idl_directory>/<name>/<type>`, which is first removed and recreated. The host filesystem
    is threaded through as a value; the HTTP GET is a parameter. */
module Pull {
  import opened Wrappers
  import opened Sequences
  import opened Paths
  import opened FileSystem
  import opened Archive
  import opened Config

  /** `filepath.Join(pth, name)`: the entry name resolved lexically against the destination,
      with no check that the result stays inside it. */
  function Target(pth: Path, name: string): (t: Path)
    ensures IsClean(pth) ==> IsClean(t)
  {
    Resolve(pth, Split(name, '/'))
  }

  /** `filepath.Dir` of a clean absolute path. */
  function Parent(p: Path): (q: Path)
    ensures p != [] ==> p == q + [p[|p| - 1]]
    ensures p == [] ==> q == []
  {
    if p == [] then [] else p[..|p| - 1]
  }

  /** One header of the extraction loop. A directory is created, with its ancestors, only when
      stat fails on it; a regular file gets its parent directories, is opened with
      O_CREATE|O_RDWR and no truncation, and the content is written from offset 0; any other
      type is skipped. An error stops with the changes made so far. */
  function ApplyEntry(fs: FS, pth: Path, h: Header, content: seq<Byte>): (r: Outcome)
    requires Valid(fs) && IsClean(pth)
    ensures Valid(r.fs)
  {
    var target := Target(pth, h.name);
    match h.typeflag
    case TypeDir =>
      if Stat(fs, target).Found? then Outcome(fs, None)
      else
        MkdirAllSpec(fs, target);
        (match MkdirAll(fs, target)
         case Err(e) => Outcome(fs, Some(e))
         case Ok(made) => Outcome(made, None))
    case TypeReg =>
      MkdirAllSpec(fs, Parent(target));
      (match MkdirAll(fs, Parent(target))
       case Err(e) => Outcome(fs, Some(e))
       case Ok(made) =>
         OpenForWriteSpec(made, target, false);
         (match OpenForWrite(made, target, false)
          case Err(e) => Outcome(made, Some(e))
          case Ok(handle) =>
            ReplaceContentValid(handle, target, content + if |content| < |handle[target].data| then handle[target].data[|content|..] else []);
            Outcome(WriteFromStart(handle, target, content), None)))
    case TypeOther(_) => Outcome(fs, None)
  }

  /** The extraction loop over the records: ends without error at end of file, stops at the
      first error (of the reader or of an entry), skips nil headers. */
  function Extract(fs: FS, pth: Path, records: seq<Record>, end: End): (r: Outcome)
    requires Valid(fs) && IsClean(pth)
    ensures Valid(r.fs)
    decreases |records|
  {
    if records == [] then Outcome(fs, if end.Eof? then None else Some(end.msg))
    else match records[0]
      case NilHeader => Extract(fs, pth, records[1..], end)
      case Entry(h, content) =>
        var o := ApplyEntry(fs, pth, h, content);
        if o.err.Some? then o else Extract(o.fs, pth, records[1..], end)
  }

  /** `path.Join(idl_directory, name, type)`, located against the working directory. */
  function DependencyPath(cwd: Path, c: Configuration, d: Dependency): (pth: Path)
    requires IsClean(cwd)
    ensures IsClean(pth)
  {
    var segs := Split(d.name, '/') + Split(d.idlType, '/');
    assert NoSlash(segs) by {
      forall i | 0 <= i < |segs| ensures '/' !in segs[i] {
        if i >= |Split(d.name, '/')| {
          assert segs[i] == Split(d.idlType, '/')[i - |Split(d.name, '/')|];
        }
      }
    }
    Resolve(Abs(cwd, c.idlDirectory), segs)
  }

  /** The dependency path as the code spells it, `path.Join(idl_directory, name, type)`; it is
      what `os.RemoveAll` receives. */
  function DependencyString(c: Configuration, d: Dependency): (s: string)
    ensures s == "" <==> c.idlDirectory == "" && d.name == "" && d.idlType == ""
  {
    var elems := [c.idlDirectory, d.name, d.idlType];
    assert elems[0] == c.idlDirectory && elems[1] == d.name && elems[2] == d.idlType;
    PathJoin(elems)
  }

  /** `os.RemoveAll` refuses a path whose last element is `.`, as rmdir does; of the cleaned
      strings `path.Join` returns, only `.` itself is one. */
  const RemoveDotMessage := "RemoveAll .: invalid argument"

  /** `unPackDependency` as a whole: the idl directory must exist; the dependency's directory
      is removed and recreated; then the archive is extracted into it. */
  function Unpack(fs: FS, cwd: Path, c: Configuration, d: Dependency, body: Body): (r: Outcome)
    requires Valid(fs) && IsClean(cwd)
    ensures Valid(r.fs)
  {
    var idl := StatName(fs, cwd, c.idlDirectory);
    if !idl.Found? then Outcome(fs, Some("failed to find idl_directory: " + StatMessage(c.idlDirectory, idl)))
    else
      var pth := DependencyPath(cwd, c, d);
      if DependencyString(c, d) == "." then Outcome(fs, Some("failed to clean path: " + RemoveDotMessage))
      else
        RemoveAllValid(fs, pth);
        var cleared := RemoveAll(fs, pth);
        if cleared.err.Some? then Outcome(cleared.fs, Some("failed to clean path: " + cleared.err.value))
        else
          MkdirAllSpec(cleared.fs, pth);
          (match MkdirAll(cleared.fs, pth)
           case Err(e) => Outcome(cleared.fs, Some("failed to create directories: " + e))
           case Ok(made) => Extract(made, pth, body.records, body.end))
  }

  /** `unPackDependency`: the preparation, then the `tr.Next()` loop. */
  method UnpackDependency(fs: FS, cwd: Path, c: Configuration, d: Dependency, body: Body) returns (r: Outcome)
    requires Valid(fs) && IsClean(cwd)
    ensures r == Unpack(fs, cwd, c, d, body)
  {
    var idl := StatName(fs, cwd, c.idlDirectory);
    if !idl.Found? {
      return Outcome(fs, Some("failed to find idl_directory: " + StatMessage(c.idlDirectory, idl)));
    }
    var pth := DependencyPath(cwd, c, d);
    if DependencyString(c, d) == "." {
      return Outcome(fs, Some("failed to clean path: " + RemoveDotMessage));
    }
    RemoveAllValid(fs, pth);
    var cleared := RemoveAll(fs, pth);
    if cleared.err.Some? {
      return Outcome(cleared.fs, Some("failed to clean path: " + cleared.err.value));
    }
    MkdirAllSpec(cleared.fs, pth);
    var made := MkdirAll(cleared.fs, pth);
    if made.Err? {
      return Outcome(cleared.fs, Some("failed to create directories: " + made.msg));
    }
    var cur := made.value;
    var i := 0;
    while i < |body.records|
      invariant 0 <= i <= |body.records| && Valid(cur)
      invariant Extract(cur, pth, body.records[i..], body.end) == Extract(made.value, pth, body.records, body.end)
    {
      ExtractStep(cur, pth, body.records, i, body.end);
      match body.records[i] {
        case NilHeader =>
        case Entry(h, content) =>
          var o := ApplyEntry(cur, pth, h, content);
          if o.err.Some? {
            return o;
          }
          cur := o.fs;
      }
      i := i + 1;
    }
    r := Outcome(cur, if body.end.Eof? then None else Some(body.end.msg));
  }

  /** One dependency of the pull loop, read off `PullEach`. */
  lemma PullStep(fs: FS, cwd: Path, c: Configuration, get: string -> Result<Response>,
                 deps: seq<Dependency>, i: nat)
    requires Valid(fs) && IsClean(cwd) && i < |deps|
    ensures var got := get(DependencyUrl(c, deps[i]));
      PullEach(fs, cwd, c, get, deps[i..])
        == if got.Err? then Outcome(fs, Some("failed getting dependency: " + got.msg))
           else if got.value.status != 200 then
             Outcome(fs, Some("status code " + DecimalString(got.value.status) + " is not OK"))
           else
             var o := Unpack(fs, cwd, c, deps[i], got.value.body);
             if o.err.Some? then o else PullEach(o.fs, cwd, c, get, deps[i + 1..])
  {
    assert deps[i..][0] == deps[i] && deps[i..][1..] == deps[i + 1..];
  }

  /** One record of the extraction loop, read off `Extract`. */
  lemma ExtractStep(fs: FS, pth: Path, records: seq<Record>, i: nat, end: End)
    requires Valid(fs) && IsClean(pth) && i < |records|
    ensures records[i].NilHeader? ==>
      Extract(fs, pth, records[i..], end) == Extract(fs, pth, records[i + 1..], end)
    ensures records[i].Entry? ==>
      var o := ApplyEntry(fs, pth, records[i].header, records[i].content);
      Extract(fs, pth, records[i..], end) == if o.err.Some? then o else Extract(o.fs, pth, records[i + 1..], end)
  {
    assert records[i..][0] == records[i] && records[i..][1..] == records[i + 1..];
  }

  /** A response of the dependency download. */
  datatype Response = Response(status: int, body: Body)

  /** The download URL of a dependency's archive. */
  function DependencyUrl(c: Configuration, d: Dependency): (url: string)
    ensures |ResolveRepository(c, d)| + |"/data.tar.gz"| <= |url|
    ensures url[..|ResolveRepository(c, d)|] == ResolveRepository(c, d)
    ensures url[|url| - |"/data.tar.gz"|..] == "/data.tar.gz"
  {
    ResolveRepository(c, d) + "/v1/projects/" + d.name + "/types/" + d.idlType
      + "/versions/" + d.version + "/data.tar.gz"
  }

  /** The decimal form of an integer, as `%d` prints it. */
  function DecimalString(n: int): (s: string)
    ensures |s| >= 1
    decreases if n < 0 then 1 - n else n
  {
    if n < 0 then "-" + DecimalString(-n)
    else if n < 10 then ["0123456789"[n]]
    else DecimalString(n / 10) + ["0123456789"[n % 10]]
  }

  /** The dependencies fetched and unpacked in order; the first failure stops the loop and
      keeps what earlier dependencies unpacked. */
  function PullEach(fs: FS, cwd: Path, c: Configuration, get: string -> Result<Response>,
                    deps: seq<Dependency>): (r: Outcome)
    requires Valid(fs) && IsClean(cwd)
    ensures Valid(r.fs)
    decreases |deps|
  {
    if deps == [] then Outcome(fs, None)
    else match get(DependencyUrl(c, deps[0]))
      case Err(e) => Outcome(fs, Some("failed getting dependency: " + e))
      case Ok(resp) =>
        if resp.status != 200 then Outcome(fs, Some("status code " + DecimalString(resp.status) + " is not OK"))
        else
          var o := Unpack(fs, cwd, c, deps[0], resp.body);
          if o.err.Some? then o else PullEach(o.fs, cwd, c, get, deps[1..])
  }

  /** `Pull`: nothing to do is an error, then the configuration must validate (its outcome is
      given, `Validate` is not part of this model), then every dependency in order. */
  method Pull(fs: FS, cwd: Path, c: Configuration, validation: Option<string>,
              get: string -> Result<Response>) returns (r: Outcome)
    requires Valid(fs) && IsClean(cwd)
    ensures |c.dependencies| == 0 ==> r == Outcome(fs, Some("nothing to pull"))
    ensures |c.dependencies| > 0 && validation.Some? ==> r == Outcome(fs, validation)
    ensures |c.dependencies| > 0 && validation.None? ==> r == PullEach(fs, cwd, c, get, c.dependencies)
  {
    if |c.dependencies| < 1 {
      return Outcome(fs, Some("nothing to pull"));
    }
    if validation.Some? {
      return Outcome(fs, validation);
    }
    var cur := fs;
    for i := 0 to |c.dependencies|
      invariant Valid(cur)
      invariant PullEach(cur, cwd, c, get, c.dependencies[i..]) == PullEach(fs, cwd, c, get, c.dependencies)
    {
      var d := c.dependencies[i];
      PullStep(cur, cwd, c, get, c.dependencies, i);
      var resp := get(DependencyUrl(c, d));
      if resp.Err? {
        return Outcome(cur, Some("failed getting dependency: " + resp.msg));
      }
      if resp.value.status != 200 {
        return Outcome(cur, Some("status code " + DecimalString(resp.value.status) + " is not OK"));
      }
      var o := UnpackDependency(cur, cwd, c, d, resp.value.body);
      if o.err.Some? {
        return o;
      }
      cur := o.fs;
    }
    r := Outcome(cur, None);
  }

  // ---------------------------------------------------------------- properties

  /** An extraction without error read the archive up to a clean end of file. */
  lemma {:induction false} ExtractCleanEnd(fs: FS, pth: Path, records: seq<Record>, end: End)
    requires Valid(fs) && IsClean(pth)
    ensures Extract(fs, pth, records, end).err.None? ==> end.Eof?
    decreases |records|
  {
    if records != [] {
      match records[0]
      case NilHeader => ExtractCleanEnd(fs, pth, records[1..], end);
      case Entry(h, content) =>
        var o := ApplyEntry(fs, pth, h, content);
        if o.err.None? {
          ExtractCleanEnd(o.fs, pth, records[1..], end);
        }
    }
  }

  /** An unpacking without error found the IDL directory and read the whole archive. */
  lemma UnpackSucceeded(fs: FS, cwd: Path, c: Configuration, d: Dependency, body: Body)
    requires Valid(fs) && IsClean(cwd)
    ensures Unpack(fs, cwd, c, d, body).err.None? ==> StatName(fs, cwd, c.idlDirectory).Found? && body.end.Eof?
  {
    var pth := DependencyPath(cwd, c, d);
    RemoveAllValid(fs, pth);
    var cleared := RemoveAll(fs, pth);
    MkdirAllSpec(cleared.fs, pth);
    if StatName(fs, cwd, c.idlDirectory).Found? && cleared.err.None? && MkdirAll(cleared.fs, pth).Ok? {
      ExtractCleanEnd(MkdirAll(cleared.fs, pth).value, pth, body.records, body.end);
    }
  }

  /** A pull without error received status 200 for every dependency. */
  lemma {:induction false} PullEachFetchedAll(fs: FS, cwd: Path, c: Configuration, get: string -> Result<Response>,
                                              deps: seq<Dependency>)
    requires Valid(fs) && IsClean(cwd)
    ensures PullEach(fs, cwd, c, get, deps).err.None? ==> forall i :: 0 <= i < |deps| ==>
      get(DependencyUrl(c, deps[i])).Ok? && get(DependencyUrl(c, deps[i])).value.status == 200
    decreases |deps|
  {
    if deps != [] && PullEach(fs, cwd, c, get, deps).err.None? {
      var got := get(DependencyUrl(c, deps[0]));
      assert got.Ok? && got.value.status == 200;
      var o := Unpack(fs, cwd, c, deps[0], got.value.body);
      assert o.err.None? && PullEach(fs, cwd, c, get, deps) == PullEach(o.fs, cwd, c, get, deps[1..]);
      PullEachFetchedAll(o.fs, cwd, c, get, deps[1..]);
      forall i | 1 <= i < |deps|
        ensures deps[i] == deps[1..][i - 1]
      {
      }
    }
  }

  /** Pulling `a + b` is pulling `a` and, only if that succeeded, pulling `b` from the state
      it left: the loop stops at the first failure and keeps what earlier dependencies
      unpacked. */
  lemma {:induction false} PullEachAppend(fs: FS, cwd: Path, c: Configuration, get: string -> Result<Response>,
                                          a: seq<Dependency>, b: seq<Dependency>)
    requires Valid(fs) && IsClean(cwd)
    ensures var o := PullEach(fs, cwd, c, get, a);
      PullEach(fs, cwd, c, get, a + b) == if o.err.Some? then o else PullEach(o.fs, cwd, c, get, b)
    decreases |a|
  {
    if a == [] {
      assert a + b == b;
    } else {
      assert (a + b)[0] == a[0] && (a + b)[1..] == a[1..] + b;
      var resp := get(DependencyUrl(c, a[0]));
      if resp.Ok? && resp.value.status == 200 {
        var o := Unpack(fs, cwd, c, a[0], resp.value.body);
        if o.err.None? {
          PullEachAppend(o.fs, cwd, c, get, a[1..], b);
        }
      }
    }
  }

  /** A first dependency answered with a status other than 200 ends the pull with that
      status and no change. */
  lemma PullBadStatusFirst(fs: FS, cwd: Path, c: Configuration, get: string -> Result<Response>,
                           deps: seq<Dependency>)
    requires Valid(fs) && IsClean(cwd) && deps != []
    requires get(DependencyUrl(c, deps[0])).Ok? && get(DependencyUrl(c, deps[0])).value.status != 200
    ensures PullEach(fs, cwd, c, get, deps)
         == Outcome(fs, Some("status code " + DecimalString(get(DependencyUrl(c, deps[0])).value.status) + " is not OK"))
  {
  }

  /** A dependency answered with a status other than 200 ends the pull with that status,
      after the dependencies before it were unpacked and before any after it is fetched. */
  lemma PullStopsAtBadStatus(fs: FS, cwd: Path, c: Configuration, get: string -> Result<Response>,
                             a: seq<Dependency>, d: Dependency, rest: seq<Dependency>)
    requires Valid(fs) && IsClean(cwd)
    requires PullEach(fs, cwd, c, get, a).err == None
    requires get(DependencyUrl(c, d)).Ok? && get(DependencyUrl(c, d)).value.status != 200
    ensures PullEach(fs, cwd, c, get, a + ([d] + rest))
         == Outcome(PullEach(fs, cwd, c, get, a).fs,
                    Some("status code " + DecimalString(get(DependencyUrl(c, d)).value.status) + " is not OK"))
  {
    var tail := [d] + rest;
    assert tail[0] == d;
    var o := PullEach(fs, cwd, c, get, a);
    PullEachAppend(fs, cwd, c, get, a, tail);
    assert PullEach(fs, cwd, c, get, a + tail) == PullEach(o.fs, cwd, c, get, tail);
    PullBadStatusFirst(o.fs, cwd, c, get, tail);
  }

  /** The dependency directory emptied and recreated, with its missing ancestors. */
  function ResetDir(fs: FS, pth: Path): (after: FS) {
    RemoveAll(fs, pth).fs + PrefixDirs(pth)
  }

  /** Only the directory `pth` itself is at or below `pth`. */
  ghost predicate Cleared(fs: FS, pth: Path) {
    && pth in fs && fs[pth] == Dir
    && forall k :: k in fs && IsPrefix(pth, k) ==> k == pth
  }

  /** Without the idl directory nothing is touched, nor when the dependency path is spelled
      `.`, which `os.RemoveAll` refuses. With the idl directory, and with a dependency directory
      that is neither the root nor below a regular file, extraction starts from a state where
      that directory is empty, so no file of an earlier pull survives there, and every path
      that is neither at nor below it nor one of its ancestors is kept. */
  lemma UnpackResets(fs: FS, cwd: Path, c: Configuration, d: Dependency, body: Body)
    requires Valid(fs) && IsClean(cwd)
    ensures var idl := StatName(fs, cwd, c.idlDirectory);
      !idl.Found? ==> Unpack(fs, cwd, c, d, body)
                      == Outcome(fs, Some("failed to find idl_directory: " + StatMessage(c.idlDirectory, idl)))
    ensures StatName(fs, cwd, c.idlDirectory).Found? && DependencyString(c, d) == "." ==>
      Unpack(fs, cwd, c, d, body) == Outcome(fs, Some("failed to clean path: " + RemoveDotMessage))
    ensures var pth := DependencyPath(cwd, c, d);
      && StatName(fs, cwd, c.idlDirectory).Found? && DependencyString(c, d) != "."
      && pth != [] && Stat(fs, pth) != NotDirectory ==>
        && Valid(ResetDir(fs, pth))
        && Unpack(fs, cwd, c, d, body) == Extract(ResetDir(fs, pth), pth, body.records, body.end)
        && Cleared(ResetDir(fs, pth), pth)
        && (forall k :: IsPrefix(k, pth) ==> k in ResetDir(fs, pth) && ResetDir(fs, pth)[k] == Dir)
        && (forall k :: !IsPrefix(pth, k) && !IsPrefix(k, pth) ==>
              (k in ResetDir(fs, pth) <==> k in fs) && (k in fs ==> ResetDir(fs, pth)[k] == fs[k]))
  {
    var pth := DependencyPath(cwd, c, d);
    if StatName(fs, cwd, c.idlDirectory).Found? && DependencyString(c, d) != "." && pth != [] && Stat(fs, pth) != NotDirectory {
      RemoveAllSpec(fs, pth);
      var r := RemoveAll(fs, pth).fs;
      StatSpec(fs, pth);
      assert NoFileOnPath(r, pth) by {
        assert pth !in r by {
          assert IsPrefix(pth, pth);
        }
        forall i | 0 <= i < |pth| && pth[..i] in r ensures r[pth[..i]] == Dir {
          assert pth[..i] in fs && !IsPrefix(pth, pth[..i]);
          if pth in fs {
            assert fs[pth[..i]] == Dir;
          } else {
            assert !UnderFile(fs, pth);
          }
        }
      }
      MkdirAllSpec(r, pth);
      assert pth in PrefixDirs(pth) by { assert pth[..|pth|] == pth; }
      forall k | IsPrefix(k, pth) ensures k in PrefixDirs(pth) {
        assert k == pth[..|k|];
      }
      forall k | k in PrefixDirs(pth) ensures IsPrefix(k, pth) {
        var i :| 0 <= i <= |pth| && k == pth[..i];
      }
      forall k | k in ResetDir(fs, pth) && IsPrefix(pth, k) ensures k == pth {
        if k !in r {
          assert k in PrefixDirs(pth) && IsPrefix(k, pth);
        }
      }
    }
  }

  /** With idl directory `.`, name `a` and type `..`, the dependency path is the working
      directory itself. The code's RemoveAll refuses the spelling `.`, so the pull fails and
      the working directory keeps its files. */
  lemma UnpackRefusesDot()
    ensures var fs := map[[] := Dir, ["home"] := Dir, ["home", "idl.yaml"] := File([])];
      var c := Configuration("r", "n", ".", [], []);
      var d := Dependency("a", "1", "..", "");
      && Valid(fs)
      && DependencyPath(["home"], c, d) == ["home"]
      && Unpack(fs, ["home"], c, d, Body([], Eof))
         == Outcome(fs, Some("failed to clean path: " + RemoveDotMessage))
  {
    var fs := map[[] := Dir, ["home"] := Dir, ["home", "idl.yaml"] := File([])];
    var c := Configuration("r", "n", ".", [], []);
    var d := Dependency("a", "1", "..", "");
    HomeValid();
    DotDependency();
    SplitJoin(["."], '/');
    assert Abs(["home"], ".") == ["home"];
    StatSpec(fs, ["home"]);
    assert StatName(fs, ["home"], ".") == Found(Dir);
    UnpackResets(fs, ["home"], c, d, Body([], Eof));
  }

  /** The working directory `/home` holding `idl.yaml` is a well-formed tree. */
  lemma HomeValid()
    ensures Valid(map[[] := Dir, ["home"] := Dir, ["home", "idl.yaml"] := File([])])
  {
    var fs := map[[] := Dir, ["home"] := Dir, ["home", "idl.yaml"] := File([])];
    forall p, i | p in fs && 0 <= i < |p| ensures p[..i] in fs && fs[p[..i]] == Dir {
      if p == ["home", "idl.yaml"] && i == 1 {
        assert p[..i] == ["home"];
      }
    }
  }

  /** `path.Join(".", "a", "..")` is `.`, and it names the working directory. */
  lemma DotDependency()
    ensures var c := Configuration("r", "n", ".", [], []);
      var d := Dependency("a", "1", "..", "");
      DependencyString(c, d) == "." && DependencyPath(["home"], c, d) == ["home"]
  {
    SplitJoin(["."], '/');
    SplitJoin(["a"], '/');
    SplitJoin([".."], '/');
    assert Resolve(["home"], ["a", ".."]) == ["home"];
    DotJoin();
  }

  /** `path.Join(".", "a", "..")` cleans to `.`. */
  lemma DotJoin()
    ensures PathJoin([".", "a", ".."]) == "."
  {
    var parts := [".", "a", ".."];
    assert Join(parts, '/') == "." + ['/'] + ("a" + ['/'] + "..");
    SplitJoin(parts, '/');
    assert ResolveRel([], parts) == [];
  }

  /** A directory entry changes nothing when its target exists, even as a regular file;
      otherwise it creates the target with its missing ancestors. */
  lemma DirEntrySpec(fs: FS, pth: Path, name: string, content: seq<Byte>)
    requires Valid(fs) && IsClean(pth)
    ensures var t := Target(pth, name);
      var r := ApplyEntry(fs, pth, Header(name, TypeDir), content);
      && (t in fs ==> r == Outcome(fs, None))
      && (t !in fs && NoFileOnPath(fs, t) ==> r == Outcome(fs + PrefixDirs(t), None))
  {
    var t := Target(pth, name);
    StatSpec(fs, t);
    MkdirAllSpec(fs, t);
  }

  /** A regular entry whose target is an existing file: the file is opened without
      truncation, so bytes of the old content beyond the new content survive. */
  lemma RegEntryKeepsTail(fs: FS, pth: Path, name: string, content: seq<Byte>)
    requires Valid(fs) && IsClean(pth)
    requires Target(pth, name) in fs && fs[Target(pth, name)].File?
    ensures var t := Target(pth, name);
      var prior := fs[t].data;
      ApplyEntry(fs, pth, Header(name, TypeReg), content)
        == Outcome(fs[t := File(content + if |content| < |prior| then prior[|content|..] else [])], None)
  {
    var t := Target(pth, name);
    assert t != [];
    assert Parent(t) == t[..|t| - 1];
    assert Parent(t) in fs && fs[Parent(t)] == Dir;
    StatSpec(fs, t);
  }

  /** A regular entry whose target is absent: the file is created with exactly the entry's
      content, after the parent directories are made. */
  lemma RegEntryCreates(fs: FS, pth: Path, name: string, content: seq<Byte>)
    requires Valid(fs) && IsClean(pth)
    requires Target(pth, name) != [] && Target(pth, name) !in fs
    requires NoFileOnPath(fs, Parent(Target(pth, name)))
    ensures var t := Target(pth, name);
      ApplyEntry(fs, pth, Header(name, TypeReg), content)
        == Outcome((fs + PrefixDirs(Parent(t)))[t := File(content)], None)
  {
    var t := Target(pth, name);
    OpenBelowMade(fs, t);
    assert content + [] == content;
  }

  /** Making the parent directories of an absent clean path, then opening it, gives an empty
      file there. */
  lemma OpenBelowMade(fs: FS, t: Path)
    requires Valid(fs) && IsClean(t) && t != [] && t !in fs && NoFileOnPath(fs, Parent(t))
    ensures var made := fs + PrefixDirs(Parent(t));
      && MkdirAll(fs, Parent(t)) == Ok(made)
      && OpenForWrite(made, t, false) == Ok(made[t := File([])])
  {
    var q := Parent(t);
    MkdirAllSpec(fs, q);
    var made := fs + PrefixDirs(q);
    assert q in PrefixDirs(q) by { assert q[..|q|] == q; }
    assert t !in PrefixDirs(q) by {
      forall k | k in PrefixDirs(q) ensures |k| <= |q| { }
    }
    assert MkdirAll(fs, q) == Ok(made);
    assert t[..|t| - 1] == q;
    OpenForWriteSpec(made, t, false);
    StatSpec(made, t);
  }

  /** Entry names are not confined: `../../../x` unpacked for a dependency at
      `/idl/dep/proto` lands at `/x`. */
  lemma EntryNameEscapes()
    ensures Target(["idl", "dep", "proto"], "../../../x") == ["x"]
    ensures !IsPrefix(["idl", "dep", "proto"], ["x"])
  {
    SplitClimb();
    ClimbThree();
  }

  /** The elements of `../../../x`. */
  lemma SplitClimb()
    ensures Split("../../../x", '/') == ["..", "..", "..", "x"]
  {
    var names := ["..", "..", "..", "x"];
    assert Join(names, '/') == ".." + ['/'] + (".." + ['/'] + (".." + ['/'] + "x"));
    assert "../../../x" == Join(names, '/');
    SplitJoin(names, '/');
  }

  /** Three `..` elements climb from `/idl/dep/proto` to the root. */
  lemma ClimbThree()
    ensures Resolve(["idl", "dep", "proto"], ["..", "..", "..", "x"]) == ["x"]
  {
    assert Step(["idl", "dep", "proto"], "..") == ["idl", "dep"];
    assert Step(["idl", "dep"], "..") == ["idl"];
    assert Step(["idl"], "..") == [];
    assert Resolve([], ["x"]) == ["x"];
    assert Resolve(["idl"], ["..", "x"]) == ["x"];
    assert Resolve(["idl", "dep"], ["..", "..", "x"]) == ["x"];
  }
}
