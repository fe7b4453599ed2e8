/** What `push` packs and `pull` unpacks fit together: the records written for a provided
    directory, served back by the registry and unpacked for a dependency, rebuild that directory
    below the dependency's path. The registry stores and returns the archive bytes unchanged;
    the gzip and tar encodings in between are taken to round-trip and are not modelled. */
module RoundTrip {
  import opened Wrappers
  import opened Sequences
  import opened Paths
  import opened FileSystem
  import opened Archive
  import opened Pull
  import opened Push

  // ---------------------------------------------------------------- entry names

  /** The usual ways of writing a provided root: relative (`docs/protos`), relative with a
      leading `./`, or absolute, always with clean elements. */
  predicate Spelled(root: string, cs: seq<string>) {
    && IsClean(cs) && cs != []
    && (root == Join(cs, '/') || root == "./" + Join(cs, '/') || root == PathString(cs))
  }

  /** A join starts with its first part. */
  lemma JoinStartsWithFirst(ps: seq<string>, sep: char)
    requires |ps| >= 1
    ensures |ps[0]| <= |Join(ps, sep)| && Join(ps, sep)[..|ps[0]|] == ps[0]
  {
  }

  /** The elements of a relative clean path, written out, clean back to themselves. */
  lemma CleanRelative(ps: seq<string>)
    requires IsClean(ps) && ps != []
    ensures Split(Join(ps, '/'), '/') == ps
    ensures Join(ps, '/')[0] != '/' && Join(ps, '/')[0] == ps[0][0]
    ensures ResolveRel([], ps) == ps
  {
    SplitJoin(ps, '/');
    JoinStartsWithFirst(ps, '/');
    assert Join(ps, '/')[0] == Join(ps, '/')[..|ps[0]|][0];
    ResolveRelClean([], ps);
  }

  /** A relative clean path's string form is clean already. */
  lemma CleanStringRelative(ps: seq<string>)
    requires IsClean(ps) && ps != []
    ensures CleanString(Join(ps, '/')) == Join(ps, '/')
  {
    CleanRelative(ps);
  }

  /** A relative root written with clean elements does not start with `./`. */
  lemma NoDotSlash(cs: seq<string>)
    requires IsClean(cs) && cs != []
    ensures TrimPrefix(Join(cs, '/'), "./") == Join(cs, '/')
  {
    var s := Join(cs, '/');
    JoinStartsWithFirst(cs, '/');
    assert IsSegment(cs[0]);
    assert s[0] == cs[0][0];
    assert |cs[0]| >= 2 ==> s[1] == cs[0][1] && cs[0][1] != '/';
    assert |cs[0]| == 1 ==> cs[0] == [cs[0][0]];
  }

  /** Below a root written in one of the usual ways, the header name is the path below the
      root with a leading slash. */
  lemma EntryNameOfSpelledRoot(root: string, cs: seq<string>, rel: seq<string>)
    requires Spelled(root, cs) && IsClean(rel) && rel != []
    ensures EntryName(root, rel) == "/" + Join(rel, '/')
  {
    if root == PathString(cs) {
      EntryNameOfAbsoluteRoot(cs, rel);
    } else if root == Join(cs, '/') {
      EntryNameOfRelativeRoot(cs, rel);
    } else {
      EntryNameOfDotRoot(cs, rel);
    }
  }

  lemma EntryNameOfAbsoluteRoot(cs: seq<string>, rel: seq<string>)
    requires IsClean(cs) && cs != [] && IsClean(rel) && rel != []
    ensures EntryName(PathString(cs), rel) == "/" + Join(rel, '/')
  {
    var root := PathString(cs);
    FileStringBelowAbsolute(cs, rel);
    AbsoluteNoDotSlash(root);
    CutPrefix(root, "/" + Join(rel, '/'));
  }

  lemma FileStringBelowAbsolute(cs: seq<string>, rel: seq<string>)
    requires IsClean(cs) && cs != [] && IsClean(rel) && rel != []
    ensures FileString(PathString(cs), rel) == PathString(cs) + ("/" + Join(rel, '/'))
  {
    AbsoluteJoin(cs, rel);
    CleanStringAbsolute(cs + rel);
  }

  /** The name of an absolute path extended by relative elements, and its cleanness. */
  lemma AbsoluteJoin(cs: seq<string>, rel: seq<string>)
    requires IsClean(cs) && cs != [] && IsClean(rel) && rel != []
    ensures PathString(cs) + "/" + Join(rel, '/') == PathString(cs + rel)
    ensures PathString(cs) + ("/" + Join(rel, '/')) == PathString(cs + rel)
    ensures IsClean(cs + rel)
  {
    var a, b := Join(cs, '/'), Join(rel, '/');
    JoinAppend(cs, rel, '/');
    assert PathString(cs) + "/" + b == "/" + (a + "/" + b);
    forall i | 0 <= i < |cs + rel|
      ensures IsSegment((cs + rel)[i])
    {
      if i >= |cs| {
        assert (cs + rel)[i] == rel[i - |cs|];
      }
    }
  }

  /** An absolute clean path's string form is clean already. */
  lemma CleanStringAbsolute(ps: seq<string>)
    requires IsClean(ps)
    ensures CleanString(PathString(ps)) == PathString(ps)
  {
    CleanPathString(ps);
  }

  /** A rooted name does not start with `./`. */
  lemma AbsoluteNoDotSlash(root: string)
    requires |root| > 0 && root[0] == '/'
    ensures TrimPrefix(root, "./") == root
  {
  }

  /** Cutting a prefix off leaves the rest. */
  lemma CutPrefix(a: string, b: string)
    ensures TrimPrefix(a + b, a) == b
  {
    assert (a + b)[..|a|] == a && (a + b)[|a|..] == b;
  }

  /** The cleaned name below a relative root is the join of all the elements. */
  lemma JoinedBelowRelative(cs: seq<string>, rel: seq<string>)
    requires IsClean(cs) && cs != [] && IsClean(rel) && rel != []
    ensures CleanString(Join(cs, '/') + "/" + Join(rel, '/')) == Join(cs, '/') + ("/" + Join(rel, '/'))
  {
    JoinWithSlash(cs, rel);
    CleanStringRelative(cs + rel);
  }

  /** The join of two non-empty element lists, written with the separating slash. */
  lemma JoinWithSlash(cs: seq<string>, rel: seq<string>)
    requires cs != [] && rel != []
    ensures Join(cs, '/') + "/" + Join(rel, '/') == Join(cs + rel, '/')
    ensures "./" + Join(cs, '/') + "/" + Join(rel, '/') == "./" + Join(cs + rel, '/')
    ensures Join(cs + rel, '/') == Join(cs, '/') + ("/" + Join(rel, '/'))
  {
    JoinAppend(cs, rel, '/');
  }

  lemma EntryNameOfRelativeRoot(cs: seq<string>, rel: seq<string>)
    requires IsClean(cs) && cs != [] && IsClean(rel) && rel != []
    ensures EntryName(Join(cs, '/'), rel) == "/" + Join(rel, '/')
  {
    JoinedBelowRelative(cs, rel);
    NoDotSlash(cs);
    CutPrefix(Join(cs, '/'), "/" + Join(rel, '/'));
  }

  /** A leading `./` vanishes when cleaning a relative name. */
  lemma CleanDotSlash(ps: seq<string>)
    requires IsClean(ps) && ps != []
    ensures CleanString("./" + Join(ps, '/')) == Join(ps, '/')
  {
    var whole := Join(ps, '/');
    var s := "./" + whole;
    CleanRelative(ps);
    assert s == "." + ['/'] + whole;
    SplitAround(".", whole, '/');
    SplitWithoutSeparator(".", '/');
    assert Split(s, '/') == ["."] + ps;
    assert ResolveRel([], ["."] + ps) == ResolveRel([], ps) by {
      assert (["."] + ps)[1..] == ps;
    }
    assert s[0] == '.';
  }

  lemma EntryNameOfDotRoot(cs: seq<string>, rel: seq<string>)
    requires IsClean(cs) && cs != [] && IsClean(rel) && rel != []
    ensures EntryName("./" + Join(cs, '/'), rel) == "/" + Join(rel, '/')
  {
    FileStringBelowDot(cs, rel);
    CutPrefix("./", Join(cs, '/'));
    CutPrefix(Join(cs, '/'), "/" + Join(rel, '/'));
  }

  lemma FileStringBelowDot(cs: seq<string>, rel: seq<string>)
    requires IsClean(cs) && cs != [] && IsClean(rel) && rel != []
    ensures FileString("./" + Join(cs, '/'), rel) == Join(cs, '/') + ("/" + Join(rel, '/'))
  {
    JoinWithSlash(cs, rel);
    CleanDotSlash(cs + rel);
  }

  /** Such a header name is unpacked at the dependency path followed by the same elements. */
  lemma TargetOfEntryName(pth: Path, rel: seq<string>)
    requires IsClean(rel) && rel != []
    ensures Target(pth, "/" + Join(rel, '/')) == pth + rel
  {
    SplitPathString(rel);
    assert Resolve(pth, [""] + rel) == Resolve(pth, rel);
    ResolveClean(pth, rel);
  }

  // ---------------------------------------------------------------- unpacking

  /** Every stored path at or below `pth` holds what `src` holds at the same place below
      `rootLoc`. */
  ghost predicate Mirrors(out: FS, pth: Path, src: FS, rootLoc: Path) {
    forall k :: k in out && IsPrefix(pth, k) ==>
      rootLoc + k[|pth|..] in src && out[k] == src[rootLoc + k[|pth|..]]
  }

  /** `pth` and all its ancestors are directories. */
  ghost predicate DirsUpTo(out: FS, pth: Path) {
    forall k :: IsPrefix(k, pth) ==> k in out && out[k] == Dir
  }

  /** `after` keeps every path of `before`, changes none outside `pth`, and adds only paths
      below `pth` that lead to `t`. */
  ghost predicate GrowsTowards(before: FS, after: FS, pth: Path, t: Path) {
    && (forall k :: k in before ==> k in after)
    && (forall k :: k in before && !IsPrefix(pth, k) ==> after[k] == before[k])
    && (forall k :: k in after && k !in before ==> IsPrefix(pth, k) && IsPrefix(k, t))
  }

  /** Ancestors of a stored directory of `src` below `rootLoc` are stored directories. */
  lemma SourceAncestorDir(src: FS, rootLoc: Path, r: seq<string>, j: nat)
    requires Valid(src) && rootLoc + r in src && src[rootLoc + r] == Dir && j <= |r|
    ensures rootLoc + r[..j] in src && src[rootLoc + r[..j]] == Dir
  {
    if j == |r| {
      assert r[..j] == r;
    } else {
      assert rootLoc + r[..j] == (rootLoc + r)[..|rootLoc| + j];
    }
  }

  /** No regular file lies on the way to a mirrored directory. */
  lemma NoFileOnMirroredPath(out: FS, pth: Path, src: FS, rootLoc: Path, r: seq<string>)
    requires Valid(src) && DirsUpTo(out, pth) && Mirrors(out, pth, src, rootLoc)
    requires rootLoc + r in src && src[rootLoc + r] == Dir
    ensures NoFileOnPath(out, pth + r)
  {
    var t := pth + r;
    forall i | 0 <= i <= |t| && t[..i] in out ensures out[t[..i]] == Dir {
      if i <= |pth| {
        assert t[..i] == pth[..i] && IsPrefix(pth[..i], pth);
      } else {
        var j := i - |pth|;
        assert t[..i] == pth + r[..j];
        assert IsPrefix(pth, t[..i]) && t[..i][|pth|..] == r[..j];
        SourceAncestorDir(src, rootLoc, r, j);
      }
    }
  }

  /** The directories MkdirAll adds on the way to `pth + r` when `pth` exists: below `pth`,
      leading to `pth + r`. */
  lemma PrefixDirsBelow(out: FS, pth: Path, r: seq<string>)
    requires DirsUpTo(out, pth)
    ensures forall k :: k in PrefixDirs(pth + r) && k !in out ==>
      IsPrefix(pth, k) && IsPrefix(k, pth + r) && k == pth + r[..|k| - |pth|]
  {
    var t := pth + r;
    forall k | k in PrefixDirs(t) && k !in out
      ensures IsPrefix(pth, k) && IsPrefix(k, t) && k == pth + r[..|k| - |pth|]
    {
      var i :| 0 <= i <= |t| && k == t[..i];
      ShortPrefixStored(out, pth, r, i);
      assert k == pth + r[..i - |pth|];
    }
  }

  /** A prefix of `pth + r` no longer than `pth` is an ancestor of `pth`, hence stored. */
  lemma ShortPrefixStored(out: FS, pth: Path, r: seq<string>, i: nat)
    requires DirsUpTo(out, pth) && i <= |pth + r|
    ensures i <= |pth| ==> (pth + r)[..i] in out
  {
    if i <= |pth| {
      assert IsPrefix((pth + r)[..i], pth);
    }
  }

  /** Adding directories along a path without regular files changes no stored node. */
  lemma PrefixDirsKeep(out: FS, t: Path)
    requires NoFileOnPath(out, t)
    ensures forall k :: k in out ==> (out + PrefixDirs(t))[k] == out[k]
  {
    forall k | k in out && k in PrefixDirs(t) ensures out[k] == Dir {
      var i :| 0 <= i <= |t| && k == t[..i];
    }
  }

  /** The directories added on the way to a mirrored directory are mirrored. */
  lemma PrefixDirsMirror(out: FS, pth: Path, src: FS, rootLoc: Path, r: seq<string>)
    requires Valid(src) && DirsUpTo(out, pth) && Mirrors(out, pth, src, rootLoc)
    requires rootLoc + r in src && src[rootLoc + r] == Dir
    ensures Mirrors(out + PrefixDirs(pth + r), pth, src, rootLoc)
  {
    var m := out + PrefixDirs(pth + r);
    NoFileOnMirroredPath(out, pth, src, rootLoc, r);
    PrefixDirsKeep(out, pth + r);
    PrefixDirsBelow(out, pth, r);
    forall k | k in m && IsPrefix(pth, k) ensures rootLoc + k[|pth|..] in src && m[k] == src[rootLoc + k[|pth|..]] {
      if k in out {
        assert m[k] == out[k];
      } else {
        assert k in PrefixDirs(pth + r) && m[k] == Dir;
        var j := |k| - |pth|;
        assert k[|pth|..] == r[..j];
        SourceAncestorDir(src, rootLoc, r, j);
      }
    }
  }

  /** Making a directory that exists in `src` creates directories that exist there too. */
  lemma MkdirMirror(out: FS, pth: Path, src: FS, rootLoc: Path, r: seq<string>)
    requires Valid(out) && Valid(src) && IsClean(pth) && IsClean(r)
    requires DirsUpTo(out, pth) && Mirrors(out, pth, src, rootLoc)
    requires rootLoc + r in src && src[rootLoc + r] == Dir
    ensures MkdirAll(out, pth + r) == Ok(out + PrefixDirs(pth + r))
    ensures var m := out + PrefixDirs(pth + r);
      && Valid(m) && DirsUpTo(m, pth) && Mirrors(m, pth, src, rootLoc)
      && pth + r in m && m[pth + r] == Dir && GrowsTowards(out, m, pth, pth + r)
  {
    var t := pth + r;
    assert IsClean(t);
    NoFileOnMirroredPath(out, pth, src, rootLoc, r);
    MkdirAllSpec(out, t);
    assert t in PrefixDirs(t) by { assert t[..|t|] == t; }
    PrefixDirsKeep(out, t);
    PrefixDirsBelow(out, pth, r);
    PrefixDirsMirror(out, pth, src, rootLoc, r);
  }

  /** Growing towards `q` and then towards `t` below `q`'s extension is growing towards `t`. */
  lemma GrowsTransitive(a: FS, b: FS, c: FS, pth: Path, q: Path, t: Path)
    requires GrowsTowards(a, b, pth, q) && GrowsTowards(b, c, pth, t) && IsPrefix(q, t)
    ensures GrowsTowards(a, c, pth, t)
  {
    forall k | k in c && k !in a ensures IsPrefix(pth, k) && IsPrefix(k, t) {
      if k in b {
        assert IsPrefix(k, q);
        assert t[..|k|] == q[..|k|];
      }
    }
  }

  /** A directory entry for a directory of `src` leaves the tree mirrored, with the directory. */
  lemma DirEntryMirror(out: FS, pth: Path, src: FS, rootLoc: Path, name: string, rel: seq<string>)
    requires Valid(out) && Valid(src) && IsClean(pth) && IsClean(rel)
    requires DirsUpTo(out, pth) && Mirrors(out, pth, src, rootLoc)
    requires rootLoc + rel in src && src[rootLoc + rel] == Dir && Target(pth, name) == pth + rel
    ensures var o := ApplyEntry(out, pth, Header(name, TypeDir), []);
      && o.err == None && DirsUpTo(o.fs, pth) && Mirrors(o.fs, pth, src, rootLoc)
      && pth + rel in o.fs && GrowsTowards(out, o.fs, pth, pth + rel)
  {
    StatSpec(out, pth + rel);
    if pth + rel !in out {
      MkdirMirror(out, pth, src, rootLoc, rel);
    }
  }

  /** Opening a mirrored file path without truncation and writing the source bytes from the
      start stores exactly those bytes. */
  lemma OpenWriteMirror(m: FS, pth: Path, src: FS, rootLoc: Path, rel: seq<string>, data: seq<Byte>)
    requires Valid(m) && IsClean(pth + rel) && rel != [] && Mirrors(m, pth, src, rootLoc)
    requires (pth + rel)[..|pth + rel| - 1] in m && m[(pth + rel)[..|pth + rel| - 1]] == Dir
    requires rootLoc + rel in src && src[rootLoc + rel] == File(data)
    ensures OpenForWrite(m, pth + rel, false).Ok?
    ensures var h := OpenForWrite(m, pth + rel, false).value;
      pth + rel in h && h[pth + rel].File? && WriteFromStart(h, pth + rel, data) == m[pth + rel := File(data)]
  {
    var t := pth + rel;
    assert t in m ==> IsPrefix(pth, t) && t[|pth|..] == rel && m[t] == File(data);
    OpenForWriteSpec(m, t, false);
    var h := OpenForWrite(m, t, false).value;
    assert h[t] == File(data) || h[t] == File([]);
    assert data + [] == data;
    assert h[t := File(data)] == m[t := File(data)];
  }

  /** Storing the source bytes at a mirrored path keeps the mirror. */
  lemma SetFileMirror(m: FS, pth: Path, src: FS, rootLoc: Path, rel: seq<string>, data: seq<Byte>)
    requires DirsUpTo(m, pth) && Mirrors(m, pth, src, rootLoc) && rel != []
    requires rootLoc + rel in src && src[rootLoc + rel] == File(data)
    ensures var f := m[pth + rel := File(data)];
      DirsUpTo(f, pth) && Mirrors(f, pth, src, rootLoc) && GrowsTowards(m, f, pth, pth + rel)
  {
    var t := pth + rel;
    assert !IsPrefix(t, pth);
    assert IsPrefix(pth, t) && t[|pth|..] == rel;
  }

  /** A regular entry for a file of `src` leaves the tree mirrored, with the file holding
      exactly its bytes: a file already there can only hold the same bytes, so no old tail is
      left behind. */
  lemma RegEntryMirror(out: FS, pth: Path, src: FS, rootLoc: Path, name: string, rel: seq<string>, data: seq<Byte>)
    requires Valid(out) && Valid(src) && IsClean(pth) && IsClean(rel) && rel != []
    requires DirsUpTo(out, pth) && Mirrors(out, pth, src, rootLoc)
    requires rootLoc + rel in src && src[rootLoc + rel] == File(data) && Target(pth, name) == pth + rel
    ensures var o := ApplyEntry(out, pth, Header(name, TypeReg), data);
      && o.err == None && DirsUpTo(o.fs, pth) && Mirrors(o.fs, pth, src, rootLoc)
      && pth + rel in o.fs && GrowsTowards(out, o.fs, pth, pth + rel)
  {
    var t := pth + rel;
    var up := rel[..|rel| - 1];
    var q := pth + up;
    assert Parent(t) == q && t[..|t| - 1] == q;
    assert IsClean(up) && IsClean(t);
    assert rootLoc + up in src && src[rootLoc + up] == Dir by {
      assert rootLoc + up == (rootLoc + rel)[..|rootLoc| + |up|];
    }
    MkdirMirror(out, pth, src, rootLoc, up);
    var m := out + PrefixDirs(q);
    OpenWriteMirror(m, pth, src, rootLoc, rel, data);
    var f := m[t := File(data)];
    assert ApplyEntry(out, pth, Header(name, TypeReg), data) == Outcome(f, None);
    SetFileMirror(m, pth, src, rootLoc, rel, data);
    assert IsPrefix(q, t);
    GrowsTransitive(out, m, f, pth, q, t);
  }

  /** Each path to unpack is stored below the root location, is not the root, and its header
      name resolves to the same elements below `pth`. */
  ghost predicate Placeable(src: FS, rootLoc: Path, root: string, pth: Path, rels: seq<seq<string>>) {
    && Below(src, rootLoc, rels)
    && forall i :: 0 <= i < |rels| ==>
         IsClean(rels[i]) && rels[i] != [] && Target(pth, EntryName(root, rels[i])) == pth + rels[i]
  }

  /** What can be placed stays placeable without its first path. */
  lemma PlaceableTail(src: FS, rootLoc: Path, root: string, pth: Path, rels: seq<seq<string>>)
    requires rels != [] && Placeable(src, rootLoc, root, pth, rels)
    ensures Placeable(src, rootLoc, root, pth, rels[1..])
  {
    assert forall i :: 0 <= i < |rels| - 1 ==> rels[1..][i] == rels[i + 1];
  }

  /** One entry, whatever its kind, keeps the mirror and stores its path. */
  lemma EntryMirror(out: FS, pth: Path, src: FS, rootLoc: Path, root: string, rel: seq<string>)
    requires Valid(out) && Valid(src) && IsClean(pth) && IsClean(rel) && rel != []
    requires DirsUpTo(out, pth) && Mirrors(out, pth, src, rootLoc)
    requires rootLoc + rel in src && Target(pth, EntryName(root, rel)) == pth + rel
    ensures var e := EntryFor(src, rootLoc, root, rel);
      var o := ApplyEntry(out, pth, e.header, e.content);
      && o.err == None && DirsUpTo(o.fs, pth) && Mirrors(o.fs, pth, src, rootLoc)
      && pth + rel in o.fs && GrowsTowards(out, o.fs, pth, pth + rel)
  {
    match src[rootLoc + rel]
    case Dir => DirEntryMirror(out, pth, src, rootLoc, EntryName(root, rel), rel);
    case File(data) => RegEntryMirror(out, pth, src, rootLoc, EntryName(root, rel), rel, data);
  }

  /** Unpacking the records of several paths into a mirrored tree keeps it mirrored, stores
      every path, keeps every stored path, changes nothing outside `pth`, and adds only paths
      that lead to one of the unpacked ones. */
  lemma {:induction false} ExtractMirror(out: FS, pth: Path, src: FS, rootLoc: Path, root: string,
                                         rels: seq<seq<string>>)
    requires Valid(out) && Valid(src) && IsClean(pth)
    requires DirsUpTo(out, pth) && Mirrors(out, pth, src, rootLoc)
    requires Placeable(src, rootLoc, root, pth, rels)
    ensures var o := Extract(out, pth, Entries(src, rootLoc, root, rels), Eof);
      && o.err == None && DirsUpTo(o.fs, pth) && Mirrors(o.fs, pth, src, rootLoc)
      && (forall i :: 0 <= i < |rels| ==> pth + rels[i] in o.fs)
      && (forall k :: k in out ==> k in o.fs)
      && (forall k :: k in out && !IsPrefix(pth, k) ==> o.fs[k] == out[k])
      && (forall k :: k in o.fs && k !in out ==>
            IsPrefix(pth, k) && exists i :: 0 <= i < |rels| && IsPrefix(k, pth + rels[i]))
    decreases |rels|
  {
    if rels != [] {
      var es := Entries(src, rootLoc, root, rels);
      assert es[1..] == Entries(src, rootLoc, root, rels[1..]);
      var rel := rels[0];
      EntryMirror(out, pth, src, rootLoc, root, rel);
      var o1 := ApplyEntry(out, pth, es[0].header, es[0].content);
      PlaceableTail(src, rootLoc, root, pth, rels);
      ExtractMirror(o1.fs, pth, src, rootLoc, root, rels[1..]);
      var o := Extract(o1.fs, pth, Entries(src, rootLoc, root, rels[1..]), Eof);
      assert Extract(out, pth, es, Eof) == o;
      forall i | 0 <= i < |rels| ensures pth + rels[i] in o.fs {
        if i > 0 { assert rels[i] == rels[1..][i - 1]; }
      }
      forall k | k in o.fs && k !in out
        ensures IsPrefix(pth, k) && exists i :: 0 <= i < |rels| && IsPrefix(k, pth + rels[i])
      {
        if k in o1.fs {
          assert IsPrefix(k, pth + rels[0]);
        } else {
          var j :| 0 <= j < |rels| - 1 && IsPrefix(k, pth + rels[1..][j]);
          assert rels[1..][j] == rels[j + 1];
          assert IsPrefix(k, pth + rels[j + 1]);
        }
      }
    }
  }

  // ---------------------------------------------------------------- the round trip

  /** The paths the walk below a well-formed tree yields are clean. */
  lemma WalkClean(src: FS, rootLoc: Path, rel: seq<string>)
    requires Valid(src) && rel in RelPaths(src, rootLoc)
    ensures IsClean(rel) && rootLoc + rel in src
  {
    var k :| k in src && IsPrefix(rootLoc, k) && rel == k[|rootLoc|..];
    assert rootLoc + rel == k;
  }

  /** The records packed below a root written in one of the usual ways, unpacked into an
      emptied directory `pth`: no error; every kept path comes back with the same node (a
      directory, or a file with the same bytes); everything at or below `pth` is a copy of the
      source; nothing there is stale, since every path below `pth` leads to a kept path; and
      nothing outside `pth` changes. */
  lemma PackedTreeUnpacks(src: FS, cwd: Path, root: string, cs: seq<string>, pm: Matcher,
                          dest: FS, pth: Path)
    requires Valid(src) && Valid(dest) && IsClean(cwd) && IsClean(pth) && Spelled(root, cs)
    requires Abs(cwd, root) in src && src[Abs(cwd, root)] == Dir
    requires DirsUpTo(dest, pth) && Cleared(dest, pth)
    requires Packed(src, Abs(cwd, root), root, pm).Ok?
    ensures var rootLoc := Abs(cwd, root);
      var kept := Kept(pm, Walk(src, rootLoc));
      var o := Extract(dest, pth, Packed(src, rootLoc, root, pm).value, Eof);
      && o.err == None
      && (forall rel :: rel in kept ==> rootLoc + rel in src && pth + rel in o.fs && o.fs[pth + rel] == src[rootLoc + rel])
      && Mirrors(o.fs, pth, src, rootLoc)
      && (forall k :: k in o.fs && IsPrefix(pth, k) && k != pth ==> exists rel :: rel in kept && IsPrefix(k, pth + rel))
      && (forall k :: !IsPrefix(pth, k) ==> (k in o.fs <==> k in dest) && (k in dest ==> o.fs[k] == dest[k]))
  {
    var rootLoc := Abs(cwd, root);
    var kept := Kept(pm, Walk(src, rootLoc));
    forall i | 0 <= i < |kept|
      ensures IsClean(kept[i]) && kept[i] != [] && Target(pth, EntryName(root, kept[i])) == pth + kept[i]
    {
      assert kept[i] in kept;
      WalkClean(src, rootLoc, kept[i]);
      EntryNameOfSpelledRoot(root, cs, kept[i]);
      TargetOfEntryName(pth, kept[i]);
    }
    assert Mirrors(dest, pth, src, rootLoc) by {
      assert rootLoc + [] == rootLoc;
      forall k | k in dest && IsPrefix(pth, k) ensures k[|pth|..] == [] { }
    }
    ExtractMirror(dest, pth, src, rootLoc, root, kept);
    var o := Extract(dest, pth, Entries(src, rootLoc, root, kept), Eof);
    RestoredExactly(dest, o.fs, pth, src, rootLoc, kept);
  }

  /** What an extraction into a cleared directory left below it, read off the mirror: each
      unpacked path holds its source node, and every other path below leads to one of them. */
  lemma RestoredExactly(dest: FS, out: FS, pth: Path, src: FS, rootLoc: Path, kept: seq<seq<string>>)
    requires Cleared(dest, pth) && Mirrors(out, pth, src, rootLoc)
    requires forall i :: 0 <= i < |kept| ==> pth + kept[i] in out
    requires forall k :: k in out && k !in dest ==>
      IsPrefix(pth, k) && exists i :: 0 <= i < |kept| && IsPrefix(k, pth + kept[i])
    ensures forall rel :: rel in kept ==>
      rootLoc + rel in src && pth + rel in out && out[pth + rel] == src[rootLoc + rel]
    ensures forall k :: k in out && IsPrefix(pth, k) && k != pth ==> exists rel :: rel in kept && IsPrefix(k, pth + rel)
  {
    forall rel | rel in kept ensures rootLoc + rel in src && pth + rel in out && out[pth + rel] == src[rootLoc + rel] {
      var i :| 0 <= i < |kept| && kept[i] == rel;
      assert (pth + rel)[|pth|..] == rel;
    }
    forall k | k in out && IsPrefix(pth, k) && k != pth ensures exists rel :: rel in kept && IsPrefix(k, pth + rel) {
      assert k !in dest;
      var i :| 0 <= i < |kept| && IsPrefix(k, pth + kept[i]);
      assert kept[i] in kept;
    }
  }

  /** Push, then pull: the archive `gzipRoot` packs for a directory, fetched for a dependency
      and unpacked by `unPackDependency` into a dependency path not spelled `.`, rebuilds below
      the dependency path exactly the paths the walk kept, with their contents, leaves nothing
      from an earlier pull there, and keeps every path that is neither at or below the
      dependency path nor one of its ancestors. (A path spelled `.` fails instead; see
      `Pull.UnpackResets`.) */
  lemma PushThenPull(src: FS, cwd: Path, root: string, cs: seq<string>, excludes: seq<string>,
                     newMatcher: seq<string> -> Result<Matcher>, records: seq<Record>,
                     fs: FS, home: Path, c: Config.Configuration, d: Config.Dependency)
    requires Valid(src) && Valid(fs) && IsClean(cwd) && IsClean(home) && Spelled(root, cs)
    requires Abs(cwd, root) in src && src[Abs(cwd, root)] == Dir
    requires Package(src, cwd, root, excludes, newMatcher) == Ok(records)
    requires StatName(fs, home, c.idlDirectory).Found? && DependencyString(c, d) != "."
    requires DependencyPath(home, c, d) != [] && Stat(fs, DependencyPath(home, c, d)) != NotDirectory
    ensures newMatcher(excludes).Ok?
    ensures var rootLoc := Abs(cwd, root);
      var kept := Kept(newMatcher(excludes).value, Walk(src, rootLoc));
      var pth := DependencyPath(home, c, d);
      var o := Unpack(fs, home, c, d, Body(records, Eof));
      && o.err == None
      && (forall rel :: rel in kept ==> rootLoc + rel in src && pth + rel in o.fs && o.fs[pth + rel] == src[rootLoc + rel])
      && Mirrors(o.fs, pth, src, rootLoc)
      && (forall k :: k in o.fs && IsPrefix(pth, k) && k != pth ==> exists rel :: rel in kept && IsPrefix(k, pth + rel))
      && (forall k :: !IsPrefix(pth, k) && !IsPrefix(k, pth) ==> (k in o.fs <==> k in fs) && (k in fs ==> o.fs[k] == fs[k]))
  {
    var pm := newMatcher(excludes).value;
    var pth := DependencyPath(home, c, d);
    assert Packed(src, Abs(cwd, root), root, pm) == Ok(records);
    UnpackResets(fs, home, c, d, Body(records, Eof));
    PackedTreeUnpacks(src, cwd, root, cs, pm, ResetDir(fs, pth), pth);
  }
}
