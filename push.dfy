/** The client's `push`: for every provided directory the ignore patterns are read, the
    directory is walked and packed into an archive, and the archive is posted to the registry.
    The host filesystem is a value; the pattern matcher and the HTTP POST are parameters. */
module Push {
  import opened Wrappers
  import opened Sequences
  import opened Order
  import opened Paths
  import opened FileSystem
  import opened Archive
  import opened Config

  // ---------------------------------------------------------------- text

  /** `unicode.IsSpace`: the Latin-1 spaces and the other characters with the White_Space
      property. */
  predicate IsSpace(c: char) {
    || c == '\t' || c == '\n' || c == '\U{000B}' || c == '\U{000C}' || c == '\r' || c == ' '
    || c == '\U{0085}' || c == '\U{00A0}' || c == '\U{1680}'
    || ('\U{2000}' <= c <= '\U{200A}')
    || c == '\U{2028}' || c == '\U{2029}' || c == '\U{202F}' || c == '\U{205F}' || c == '\U{3000}'
  }

  /** The longest suffix of `s` that does not start with a space. */
  function TrimLeft(s: string): (r: string)
    ensures |r| <= |s| && r == s[|s| - |r|..]
    ensures forall i :: 0 <= i < |s| - |r| ==> IsSpace(s[i])
    ensures r != [] ==> !IsSpace(r[0])
    decreases |s|
  {
    if s != [] && IsSpace(s[0]) then TrimLeft(s[1..]) else s
  }

  /** The longest prefix of `s` that does not end with a space. */
  function TrimRight(s: string): (r: string)
    ensures |r| <= |s| && r == s[..|r|]
    ensures forall i :: |r| <= i < |s| ==> IsSpace(s[i])
    ensures r != [] ==> !IsSpace(r[|r| - 1])
    decreases |s|
  {
    if s != [] && IsSpace(s[|s| - 1]) then TrimRight(s[..|s| - 1]) else s
  }

  /** `strings.TrimSpace`. */
  function TrimSpace(s: string): (r: string)
    ensures r != [] ==> !IsSpace(r[0]) && !IsSpace(r[|r| - 1])
  {
    TrimRight(TrimLeft(s))
  }

  /** `TrimSpace` cuts off spaces only: what it keeps is a stretch of `s`, and everything
      before and after that stretch is a space. */
  lemma TrimSpaceInfix(s: string)
    ensures var r, k := TrimSpace(s), |s| - |TrimLeft(s)|;
      && k + |r| <= |s| && r == s[k..k + |r|]
      && (forall i :: 0 <= i < k ==> IsSpace(s[i]))
      && (forall i :: k + |r| <= i < |s| ==> IsSpace(s[i]))
  {
    var t := TrimLeft(s);
    var r := TrimRight(t);
    PrefixOfSuffix(s, t, r);
  }

  /** A prefix `r` of a suffix `t` of `s` is a stretch of `s`; past that stretch, `s` goes
      on as `t` does. */
  lemma PrefixOfSuffix(s: string, t: string, r: string)
    requires |t| <= |s| && t == s[|s| - |t|..] && |r| <= |t| && r == t[..|r|]
    ensures var k := |s| - |t|;
      && r == s[k..k + |r|]
      && forall i :: k + |r| <= i < |s| ==> s[i] == t[i - k]
  {
  }

  /** `strings.Replace(s, "\r\n", "\n", -1)`: occurrences are replaced left to right without
      overlapping. Only carriage returns are removed, so a text without one is unchanged. */
  function ReplaceCRLF(s: string): (r: string)
    ensures |r| <= |s|
    ensures '\r' !in s ==> r == s
  {
    PlainFrom(s, 0);
    assert s[0..] == s;
    ReplaceFrom(s, 0)
  }

  /** The replacement of the text from index `i` on: the scan either sees `\r\n` at `i` and
      moves past both, or keeps the character at `i`. */
  function ReplaceFrom(s: string, i: nat): (r: string)
    requires i <= |s|
    ensures |r| <= |s| - i
    decreases |s| - i
  {
    if i == |s| then []
    else if i + 1 < |s| && s[i] == '\r' && s[i + 1] == '\n' then "\n" + ReplaceFrom(s, i + 2)
    else [s[i]] + ReplaceFrom(s, i + 1)
  }

  /** Without carriage returns the scan copies the text. */
  lemma {:induction false} PlainFrom(s: string, i: nat)
    requires i <= |s|
    ensures '\r' !in s ==> ReplaceFrom(s, i) == s[i..]
    decreases |s| - i
  {
    if i < |s| && '\r' !in s {
      PlainFrom(s, i + 1);
      assert s[i..] == [s[i]] + s[i + 1..];
    }
  }

  /** The scan of a text behind a prefix does not depend on the prefix. */
  lemma {:induction false} ShiftFrom(p: string, q: string, j: nat)
    requires j <= |q|
    ensures ReplaceFrom(p + q, |p| + j) == ReplaceFrom(q, j)
    decreases |q| - j
  {
    if j < |q| {
      var s := p + q;
      assert s[|p| + j] == q[j];
      if j + 1 < |q| {
        assert s[|p| + j + 1] == q[j + 1];
        ShiftFrom(p, q, j + 2);
      }
      ShiftFrom(p, q, j + 1);
    }
  }

  /** A `\r\n` after index `i` of `a` is replaced, and the scan of `a` from `i` is unaffected by
      it: the scan never pairs the last character of `a` with the `\r`. */
  lemma {:induction false} AroundFrom(a: string, b: string, i: nat)
    requires i <= |a|
    ensures ReplaceFrom(a + "\r\n" + b, i) == ReplaceFrom(a, i) + "\n" + ReplaceFrom(b, 0)
    decreases |a| - i
  {
    if i == |a| {
      AroundAtEnd(a, b);
    } else if i + 1 < |a| && a[i] == '\r' && a[i + 1] == '\n' {
      AroundFrom(a, b, i + 2);
      AroundPairStep(a, b, i);
    } else {
      AroundFrom(a, b, i + 1);
      AroundKeepStep(a, b, i);
    }
  }

  /** The scan reaches the inserted `\r\n` itself. */
  lemma AroundAtEnd(a: string, b: string)
    ensures ReplaceFrom(a + "\r\n" + b, |a|) == ReplaceFrom(a, |a|) + "\n" + ReplaceFrom(b, 0)
  {
    var s := a + "\r\n" + b;
    assert s[|a|] == '\r' && s[|a| + 1] == '\n';
    ShiftFrom(a + "\r\n", b, 0);
  }

  /** The scan meets a `\r\n` of `a` before the inserted one. */
  lemma AroundPairStep(a: string, b: string, i: nat)
    requires i + 1 < |a| && a[i] == '\r' && a[i + 1] == '\n'
    requires ReplaceFrom(a + "\r\n" + b, i + 2) == ReplaceFrom(a, i + 2) + "\n" + ReplaceFrom(b, 0)
    ensures ReplaceFrom(a + "\r\n" + b, i) == ReplaceFrom(a, i) + "\n" + ReplaceFrom(b, 0)
  {
    var s := a + "\r\n" + b;
    assert s[i] == '\r' && s[i + 1] == '\n';
    var x, y := ReplaceFrom(a, i + 2), ReplaceFrom(b, 0);
    assert "\n" + (x + "\n" + y) == ("\n" + x) + "\n" + y;
  }

  /** The scan keeps a character of `a`. */
  lemma AroundKeepStep(a: string, b: string, i: nat)
    requires i < |a| && !(i + 1 < |a| && a[i] == '\r' && a[i + 1] == '\n')
    requires ReplaceFrom(a + "\r\n" + b, i + 1) == ReplaceFrom(a, i + 1) + "\n" + ReplaceFrom(b, 0)
    ensures ReplaceFrom(a + "\r\n" + b, i) == ReplaceFrom(a, i) + "\n" + ReplaceFrom(b, 0)
  {
    var s := a + "\r\n" + b;
    assert s[i] == a[i];
    assert s[i + 1] == if i + 1 < |a| then a[i + 1] else '\r';
    var x, y := ReplaceFrom(a, i + 1), ReplaceFrom(b, 0);
    assert [a[i]] + (x + "\n" + y) == ([a[i]] + x) + "\n" + y;
  }

  /** A `\r\n` is replaced wherever it stands: the two sides are replaced independently. */
  lemma ReplaceCRLFAround(a: string, b: string)
    ensures ReplaceCRLF(a + "\r\n" + b) == ReplaceCRLF(a) + "\n" + ReplaceCRLF(b)
  {
    AroundFrom(a, b, 0);
  }

  /** Lines separated by `\r\n`, as an `idl_ignore` value written on Windows spells them. */
  function JoinCRLF(ps: seq<string>): (v: string)
    requires |ps| >= 1
    ensures ps[0] != "" ==> v != [] && v[0] == ps[0][0]
    ensures ps[|ps| - 1] != "" ==> v != [] && v[|v| - 1] == ps[|ps| - 1][|ps[|ps| - 1]| - 1]
    decreases |ps|
  {
    if |ps| == 1 then ps[0] else ps[0] + "\r\n" + JoinCRLF(ps[1..])
  }

  /** Replacing the `\r\n` separators of lines without carriage returns gives the lines joined
      with `\n`. */
  lemma {:induction false} ReplaceJoinCRLF(ps: seq<string>)
    requires |ps| >= 1 && forall i :: 0 <= i < |ps| ==> '\r' !in ps[i]
    ensures ReplaceCRLF(JoinCRLF(ps)) == Join(ps, '\n')
    decreases |ps|
  {
    if |ps| > 1 {
      ReplaceCRLFAround(ps[0], JoinCRLF(ps[1..]));
      ReplaceJoinCRLF(ps[1..]);
    }
  }

  /** The line terminator of `bufio.ScanLines` is an optional `\r` before the `\n`. */
  function DropCR(s: string): (t: string) {
    if s != [] && s[|s| - 1] == '\r' then s[..|s| - 1] else s
  }

  /** The tokens `bufio.ScanLines` yields: the text split at `\n`, without the empty piece after
      a final newline, each with a trailing `\r` removed. */
  function Lines(text: string): (ls: seq<string>) {
    Tokens(Split(text, '\n'))
  }

  /** The lines of the pieces between newlines. */
  function Tokens(parts: seq<string>): (ls: seq<string>)
    requires |parts| >= 1
  {
    var kept := if parts[|parts| - 1] == "" then parts[..|parts| - 1] else parts;
    seq(|kept|, i requires 0 <= i < |kept| => DropCR(kept[i]))
  }

  /** A file's bytes as a Go string: one character per byte. */
  function Text(data: seq<Byte>): (t: string)
    ensures |t| == |data| && forall i :: 0 <= i < |data| ==> t[i] as int == data[i]
  {
    seq(|data|, i requires 0 <= i < |data| => data[i] as char)
  }

  /** The patterns written inline in `idl_ignore`: the trimmed value split at line breaks. */
  function InlinePatterns(v: string): (ps: seq<string>)
    ensures |ps| >= 1
  {
    Split(ReplaceCRLF(TrimSpace(v)), '\n')
  }

  // ---------------------------------------------------------------- the ignore file

  /** `readIdlIgnoreFile`: the lines of a regular file; a directory opens but yields no line;
      any other name fails to open. */
  function IgnoreFileLines(fs: FS, cwd: Path, name: string): (lines: Option<seq<string>>) {
    match StatName(fs, cwd, name)
    case Found(File(data)) => Some(Lines(Text(data)))
    case Found(Dir) => Some([])
    case _ => None
  }

  /** `getExcludes`: without a value the default `.idlignore` file; a value of several lines is
      the pattern list itself; a single line names the file to read, untrimmed. A file that
      cannot be read gives no patterns. */
  function Excludes(fs: FS, cwd: Path, v: string): (r: seq<string>)
    ensures v != "" && '\n' in ReplaceCRLF(TrimSpace(v)) ==> r == InlinePatterns(v)
    ensures v != "" && '\n' !in ReplaceCRLF(TrimSpace(v)) ==>
      r == if IgnoreFileLines(fs, cwd, v).Some? then IgnoreFileLines(fs, cwd, v).value else []
    ensures v == "" ==>
      r == if IgnoreFileLines(fs, cwd, ".idlignore").Some? then IgnoreFileLines(fs, cwd, ".idlignore").value else []
  {
    SplitSeveral(ReplaceCRLF(TrimSpace(v)), '\n');
    var read := IgnoreFileLines(fs, cwd, if v == "" then ".idlignore" else v);
    if v != "" && |InlinePatterns(v)| > 1 then InlinePatterns(v)
    else if read.Some? then read.value
    else []
  }

  /** `readIdlIgnoreFile`: opening the name, then scanning the bytes of a regular file. */
  method ReadIdlIgnoreFile(fs: FS, cwd: Path, name: string) returns (r: Option<seq<string>>)
    ensures r == IgnoreFileLines(fs, cwd, name)
  {
    var st := StatName(fs, cwd, name);
    if !st.Found? {
      return None;
    }
    if st.node.Dir? {
      return Some([]);
    }
    var lines := ScanLines(Text(st.node.data));
    return Some(lines);
  }

  /** The `scanner.Scan()` loop: reading the text one character at a time and appending a line
      at each newline, then the unterminated last line if it is not empty. */
  method ScanLines(text: string) returns (lines: seq<string>)
    ensures lines == Lines(text)
  {
    lines := [];
    ghost var raw: seq<string> := [];
    var cur := "";
    var i := 0;
    while i < |text|
      invariant 0 <= i <= |text|
      invariant Split(text[..i], '\n') == raw + [cur]
      invariant |lines| == |raw| && forall j :: 0 <= j < |raw| ==> lines[j] == DropCR(raw[j])
    {
      ScanStep(text, i, raw, cur);
      if text[i] == '\n' {
        lines := lines + [DropCR(cur)];
        raw := raw + [cur];
        cur := "";
      } else {
        cur := cur + [text[i]];
      }
      i := i + 1;
    }
    assert text[..i] == text;
    TokensOfScan(raw, cur, lines);
    if cur != "" {
      lines := lines + [DropCR(cur)];
    }
  }

  /** One more character either closes the current line or extends it. */
  lemma ScanStep(text: string, i: nat, raw: seq<string>, cur: string)
    requires i < |text| && Split(text[..i], '\n') == raw + [cur]
    ensures text[i] == '\n' ==> Split(text[..i + 1], '\n') == (raw + [cur]) + [""]
    ensures text[i] != '\n' ==> Split(text[..i + 1], '\n') == raw + [cur + [text[i]]]
  {
    SplitSnoc(text[..i], text[i], '\n');
    assert text[..i + 1] == text[..i] + [text[i]];
    if text[i] != '\n' {
      ExtendLast(raw, cur, text[i]);
    }
  }

  /** What the scanner loop has gathered, completed with the last piece, is the tokens. */
  lemma TokensOfScan(raw: seq<string>, cur: string, lines: seq<string>)
    requires |lines| == |raw| && forall j :: 0 <= j < |raw| ==> lines[j] == DropCR(raw[j])
    ensures Tokens(raw + [cur]) == if cur != "" then lines + [DropCR(cur)] else lines
  {
    assert (raw + [cur])[..|raw|] == raw;
  }

  /** `getExcludes`. */
  method GetExcludes(fs: FS, cwd: Path, v: string) returns (r: seq<string>)
    ensures r == Excludes(fs, cwd, v)
  {
    if v == "" {
      var read := ReadIdlIgnoreFile(fs, cwd, ".idlignore");
      return if read.Some? then read.value else [];
    }
    var split := InlinePatterns(v);
    if |split| > 1 {
      return split;
    }
    var read := ReadIdlIgnoreFile(fs, cwd, v);
    return if read.Some? then read.value else [];
  }

  // ---------------------------------------------------------------- text properties

  /** Lines each ended by a newline are read back. */
  lemma LinesOfTerminated(ls: seq<string>)
    requires forall i :: 0 <= i < |ls| ==> '\n' !in ls[i] && DropCR(ls[i]) == ls[i]
    ensures Lines(Join(ls + [""], '\n')) == ls
  {
    var parts := ls + [""];
    assert forall i :: 0 <= i < |parts| ==> '\n' !in parts[i];
    SplitJoin(parts, '\n');
    TokensOfPlainLines(ls, parts);
  }

  /** Without a final newline the last line is read too, unless it is empty. */
  lemma LinesOfUnterminated(ls: seq<string>)
    requires ls != [] && ls[|ls| - 1] != ""
    requires forall i :: 0 <= i < |ls| ==> '\n' !in ls[i] && DropCR(ls[i]) == ls[i]
    ensures Lines(Join(ls, '\n')) == ls
  {
    SplitJoin(ls, '\n');
    TokensOfPlainLines(ls, ls);
  }

  /** Pieces without a carriage return at their end are their own tokens; a final empty piece
      is dropped. */
  lemma TokensOfPlainLines(ls: seq<string>, parts: seq<string>)
    requires parts == ls + [""] || (parts == ls && ls != [] && ls[|ls| - 1] != "")
    requires forall i :: 0 <= i < |ls| ==> DropCR(ls[i]) == ls[i]
    ensures Tokens(parts) == ls
  {
    assert parts[..|ls|] == ls;
    var t := Tokens(parts);
    assert |t| == |ls|;
    forall i | 0 <= i < |ls| ensures t[i] == ls[i] {
    }
  }

  /** Lines ended by `\r\n` are read back without the carriage return. */
  lemma LinesOfCRLF(ls: seq<string>)
    requires forall i :: 0 <= i < |ls| ==> '\n' !in ls[i] && '\r' !in ls[i]
    ensures Lines(Join(seq(|ls|, i requires 0 <= i < |ls| => ls[i] + "\r") + [""], '\n')) == ls
  {
    var crs := seq(|ls|, i requires 0 <= i < |ls| => ls[i] + "\r");
    forall i | 0 <= i < |crs| ensures '\n' !in crs[i] && DropCR(crs[i]) == ls[i] {
      assert crs[i][..|crs[i]| - 1] == ls[i];
    }
    SplitJoin(crs + [""], '\n');
    assert (crs + [""])[..|crs|] == crs;
  }

  /** A text with no space at either end is its own trimmed form. */
  lemma TrimSpaceUnchanged(s: string)
    requires s != [] && !IsSpace(s[0]) && !IsSpace(s[|s| - 1])
    ensures TrimSpace(s) == s
  {
  }

  /** Several patterns written one per line, with no space around the whole value, are taken
      as they are. */
  lemma InlineRoundTrip(ps: seq<string>)
    requires |ps| >= 2
    requires forall i :: 0 <= i < |ps| ==> '\n' !in ps[i] && '\r' !in ps[i]
    requires ps[0] != "" && !IsSpace(ps[0][0])
    requires ps[|ps| - 1] != "" && !IsSpace(ps[|ps| - 1][|ps[|ps| - 1]| - 1])
    ensures InlinePatterns(Join(ps, '\n')) == ps
    ensures forall fs, cwd :: Excludes(fs, cwd, Join(ps, '\n')) == ps
  {
    var v := Join(ps, '\n');
    JoinFirstLast(ps, '\n');
    TrimSpaceUnchanged(v);
    NoSeparatorInJoin(ps, '\r', '\n');
    SplitJoin(ps, '\n');
  }

  /** The same patterns separated by `\r\n` are read the same way: the carriage returns are
      removed before the value is split. */
  lemma InlineCRLFRoundTrip(ps: seq<string>)
    requires |ps| >= 2
    requires forall i :: 0 <= i < |ps| ==> '\n' !in ps[i] && '\r' !in ps[i]
    requires ps[0] != "" && !IsSpace(ps[0][0])
    requires ps[|ps| - 1] != "" && !IsSpace(ps[|ps| - 1][|ps[|ps| - 1]| - 1])
    ensures InlinePatterns(JoinCRLF(ps)) == ps
    ensures forall fs, cwd :: Excludes(fs, cwd, JoinCRLF(ps)) == ps
  {
    var v := JoinCRLF(ps);
    TrimSpaceUnchanged(v);
    ReplaceJoinCRLF(ps);
    SplitJoin(ps, '\n');
  }

  /** The inline patterns of the configuration fixture. */
  lemma FixturePatterns()
    ensures forall fs, cwd :: Excludes(fs, cwd, Fixture.provided[1].idlIgnore) == [".noise", ".tmp", "*~"]
  {
    var ps := [".noise", ".tmp", "*~"];
    assert Join(ps, '\n') == ".noise" + ['\n'] + (".tmp" + ['\n'] + "*~");
    assert Fixture.provided[1].idlIgnore == Join(ps, '\n');
    InlineRoundTrip(ps);
  }

  /** The first and last characters of a join of non-empty outer parts. */
  lemma JoinFirstLast(ps: seq<string>, sep: char)
    requires |ps| >= 1 && ps[0] != "" && ps[|ps| - 1] != ""
    ensures var v := Join(ps, sep);
      v != [] && v[0] == ps[0][0] && v[|v| - 1] == ps[|ps| - 1][|ps[|ps| - 1]| - 1]
  {
    if |ps| > 1 {
      JoinAppend(ps[..1], ps[1..], sep);
      JoinAppend(ps[..|ps| - 1], ps[|ps| - 1..], sep);
      assert ps[..1] + ps[1..] == ps && ps[..|ps| - 1] + ps[|ps| - 1..] == ps;
    }
  }

  /** A character in no part and different from the separator is not in the join. */
  lemma {:induction false} NoSeparatorInJoin(ps: seq<string>, c: char, sep: char)
    requires c != sep && forall i :: 0 <= i < |ps| ==> c !in ps[i]
    ensures c !in Join(ps, sep)
    decreases |ps|
  {
    if |ps| > 1 {
      NoSeparatorInJoin(ps[1..], c, sep);
    }
  }

  // ---------------------------------------------------------------- the archive

  /** A compiled exclusion pattern set: does a relative path match, or the pattern error. */
  type Matcher = string -> Result<bool>

  /** `strings.TrimPrefix`. */
  function TrimPrefix(s: string, prefix: string): (r: string)
    ensures |r| <= |s|
  {
    if |prefix| <= |s| && s[..|prefix|] == prefix then s[|prefix|..] else s
  }

  /** The path the matcher is asked about: `filepath.Rel` of the walked file to the root. */
  function RelFile(rel: seq<string>): (r: string)
    ensures rel == [] ==> r == "."
    ensures rel != [] && NoSlash(rel) ==> Split(r, '/') == rel
  {
    if rel == [] then "."
    else if NoSlash(rel) then SplitJoin(rel, '/'); Join(rel, '/')
    else Join(rel, '/')
  }

  /** The walked file's name as `filepath.Walk` passes it: the root as written, and below it
      the root joined with the elements and cleaned. */
  function FileString(root: string, rel: seq<string>): (name: string)
    ensures rel == [] ==> name == root
    ensures rel != [] ==> name != "" && (|root| > 0 && root[0] == '/' ==> name[0] == '/')
  {
    if rel == [] then root
    else
      var joined := root + "/" + Join(rel, '/');
      CleanStringNonEmpty(joined);
      assert |root| > 0 ==> joined[0] == root[0];
      CleanString(joined)
  }

  /** The header name: the walked name without the root, once a leading `./` is removed from
      the root. */
  function EntryName(root: string, rel: seq<string>): (r: string)
    ensures rel == [] && !(|root| >= 2 && root[..2] == "./") ==> r == ""
  {
    TrimPrefix(FileString(root, rel), TrimPrefix(root, "./"))
  }

  /** What `strings.TrimPrefix` leaves is the end of the text. */
  lemma TrimPrefixSuffix(s: string, prefix: string)
    ensures TrimPrefix(s, prefix) == s[|s| - |TrimPrefix(s, prefix)|..]
  {
  }

  /** The header name is the end of the walked file name. */
  lemma EntryNameSuffix(root: string, rel: seq<string>)
    ensures var f := FileString(root, rel);
      EntryName(root, rel) == f[|f| - |EntryName(root, rel)|..]
  {
    TrimPrefixSuffix(FileString(root, rel), TrimPrefix(root, "./"));
  }

  /** The paths below the root location, relative to it; the root itself is `[]`. */
  function RelPaths(src: FS, rootLoc: Path): (rels: set<seq<string>>) {
    set k | k in src && IsPrefix(rootLoc, k) :: k[|rootLoc|..]
  }

  /** `filepath.Walk`'s order: a directory before its contents, names in byte order. */
  ghost function Walk(src: FS, rootLoc: Path): (w: seq<seq<string>>)
    ensures StrictlySorted(w, PathLess)
    ensures forall rel :: rel in w <==> rel in RelPaths(src, rootLoc)
  {
    PathLessStrictTotal();
    Sorted(RelPaths(src, rootLoc), PathLess)
  }

  /** The record written for one walked path: a directory header, or a regular-file header
      followed by the file's bytes. */
  function EntryFor(src: FS, rootLoc: Path, root: string, rel: seq<string>): (e: Record)
    requires rootLoc + rel in src
    ensures e.Entry? && e.header.name == EntryName(root, rel)
    ensures src[rootLoc + rel] == Dir <==> e.header.typeflag == TypeDir && e.content == []
    ensures src[rootLoc + rel].File? <==> e.header.typeflag == TypeReg
    ensures src[rootLoc + rel].File? ==> e.content == src[rootLoc + rel].data
  {
    match src[rootLoc + rel]
    case Dir => Entry(Header(EntryName(root, rel), TypeDir), [])
    case File(data) => Entry(Header(EntryName(root, rel), TypeReg), data)
  }

  /** Every walked path is stored below the root location. */
  ghost predicate Below(src: FS, rootLoc: Path, walk: seq<seq<string>>) {
    forall i :: 0 <= i < |walk| ==> rootLoc + walk[i] in src
  }

  /** The walk callback over the walked paths: the matcher is asked about every path, the root
      included, and its first error ends the walk; matched paths and the root write nothing,
      but the contents of a matched directory are still walked. */
  function Emit(src: FS, rootLoc: Path, root: string, pm: Matcher, walk: seq<seq<string>>): (r: Result<seq<Record>>)
    requires Below(src, rootLoc, walk)
    ensures r.Ok? ==> |r.value| <= |walk|
    decreases |walk|
  {
    if walk == [] then Ok([])
    else match pm(RelFile(walk[0]))
      case Err(e) => Err(e)
      case Ok(skip) =>
        match Emit(src, rootLoc, root, pm, walk[1..])
        case Err(e) => Err(e)
        case Ok(rest) =>
          if skip || walk[0] == [] then Ok(rest) else Ok([EntryFor(src, rootLoc, root, walk[0])] + rest)
  }

  /** The walked paths that are written: exactly those that are not the root and not
      matched. */
  function Kept(pm: Matcher, walk: seq<seq<string>>): (kept: seq<seq<string>>)
    ensures forall rel :: rel in kept <==> rel in walk && rel != [] && pm(RelFile(rel)) == Ok(false)
    decreases |walk|
  {
    if walk == [] then []
    else
      var rest := Kept(pm, walk[1..]);
      if walk[0] != [] && pm(RelFile(walk[0])) == Ok(false) then [walk[0]] + rest else rest
  }

  /** The records for a list of walked paths. */
  function Entries(src: FS, rootLoc: Path, root: string, rels: seq<seq<string>>): (es: seq<Record>)
    requires Below(src, rootLoc, rels)
    ensures |es| == |rels| && forall i :: 0 <= i < |rels| ==> es[i] == EntryFor(src, rootLoc, root, rels[i])
    decreases |rels|
  {
    if rels == [] then []
    else
      var rest := Entries(src, rootLoc, root, rels[1..]);
      var es := [EntryFor(src, rootLoc, root, rels[0])] + rest;
      assert forall i :: 1 <= i < |rels| ==> rels[i] == rels[1..][i - 1] && es[i] == rest[i - 1];
      es
  }

  /** `gzipRoot` without the compression and the temporary file: the root must stat, the
      patterns must compile, and then the walk writes its records. */
  ghost function Package(src: FS, cwd: Path, root: string, excludes: seq<string>,
                         newMatcher: seq<string> -> Result<Matcher>): (r: Result<seq<Record>>)
    ensures r.Ok? ==> && StatName(src, cwd, root).Found? && newMatcher(excludes).Ok?
                      && r == Packed(src, Abs(cwd, root), root, newMatcher(excludes).value)
  {
    var st := StatName(src, cwd, root);
    if !st.Found? then Err("failed to read provider root '" + root + "': " + StatMessage(root, st))
    else match newMatcher(excludes)
      case Err(e) => Err(e)
      case Ok(pm) =>
        match Packed(src, Abs(cwd, root), root, pm)
        case Err(e) => Err("failed writing files to tar: " + e)
        case Ok(records) => Ok(records)
  }

  /** The records the walk below the root location writes. */
  ghost function Packed(src: FS, rootLoc: Path, root: string, pm: Matcher): (r: Result<seq<Record>>)
    ensures Below(src, rootLoc, Kept(pm, Walk(src, rootLoc)))
    ensures r.Ok? <==> forall rel :: rel in Walk(src, rootLoc) ==> pm(RelFile(rel)).Ok?
    ensures r.Ok? ==> r.value == Entries(src, rootLoc, root, Kept(pm, Walk(src, rootLoc)))
  {
    var walk := Walk(src, rootLoc);
    RelPathsBelow(src, rootLoc, walk);
    EmitKept(src, rootLoc, root, pm, walk);
    Emit(src, rootLoc, root, pm, walk)
  }

  /** The archive holds exactly the kept paths, in walk order, when no matcher call fails. */
  lemma {:induction false} EmitKept(src: FS, rootLoc: Path, root: string, pm: Matcher, walk: seq<seq<string>>)
    requires Below(src, rootLoc, walk)
    ensures Below(src, rootLoc, Kept(pm, walk))
    ensures Emit(src, rootLoc, root, pm, walk).Ok?
        <==> forall i :: 0 <= i < |walk| ==> pm(RelFile(walk[i])).Ok?
    ensures Emit(src, rootLoc, root, pm, walk).Ok?
        ==> Emit(src, rootLoc, root, pm, walk).value == Entries(src, rootLoc, root, Kept(pm, walk))
    decreases |walk|
  {
    if walk != [] {
      var rest := walk[1..];
      EmitKept(src, rootLoc, root, pm, rest);
      assert forall i :: 1 <= i < |walk| ==> walk[i] == rest[i - 1];
      var skip := pm(RelFile(walk[0]));
      var k := Kept(pm, rest);
      if skip.Ok? && !skip.value && walk[0] != [] {
        var kept := [walk[0]] + k;
        assert Kept(pm, walk) == kept;
        assert kept[1..] == k;
        assert forall i :: 1 <= i < |kept| ==> kept[i] == k[i - 1];
        assert Below(src, rootLoc, kept);
        assert Entries(src, rootLoc, root, kept) == [EntryFor(src, rootLoc, root, walk[0])] + Entries(src, rootLoc, root, k);
      } else if skip.Ok? {
        assert Kept(pm, walk) == k;
      }
    }
  }

  /** Paths taken from `RelPaths` are stored below the root location. */
  lemma RelPathsBelow(src: FS, rootLoc: Path, walk: seq<seq<string>>)
    requires forall rel :: rel in walk ==> rel in RelPaths(src, rootLoc)
    ensures Below(src, rootLoc, walk)
  {
    forall i | 0 <= i < |walk| ensures rootLoc + walk[i] in src {
      assert walk[i] in RelPaths(src, rootLoc);
      var k :| k in src && IsPrefix(rootLoc, k) && walk[i] == k[|rootLoc|..];
      assert rootLoc + walk[i] == k;
    }
  }

  /** Records written so far in front of what the rest of the walk produces. */
  function Prepend(done: seq<Record>, rest: Result<seq<Record>>): (r: Result<seq<Record>>) {
    match rest
    case Err(e) => Err(e)
    case Ok(rs) => Ok(done + rs)
  }

  /** `gzipRoot`: the walk callback run over the paths below the root in walk order. */
  method GzipRoot(src: FS, cwd: Path, root: string, excludes: seq<string>,
                  newMatcher: seq<string> -> Result<Matcher>) returns (r: Result<seq<Record>>)
    ensures r == Package(src, cwd, root, excludes, newMatcher)
  {
    var st := StatName(src, cwd, root);
    if !st.Found? {
      return Err("failed to read provider root '" + root + "': " + StatMessage(root, st));
    }
    var compiled := newMatcher(excludes);
    if compiled.Err? {
      return Err(compiled.msg);
    }
    var pm := compiled.value;
    var rootLoc := Abs(cwd, root);
    PathLessStrictTotal();
    var walk := SortSet(RelPaths(src, rootLoc), PathLess);
    SortedUnique(walk, Walk(src, rootLoc), PathLess);
    RelPathsBelow(src, rootLoc, walk);
    var written := WriteWalk(src, rootLoc, root, pm, walk);
    if written.Err? {
      return Err("failed writing files to tar: " + written.msg);
    }
    return written;
  }

  /** The walk callback over the walked paths, in order, collecting the written records. */
  method WriteWalk(src: FS, rootLoc: Path, root: string, pm: Matcher, walk: seq<seq<string>>)
    returns (r: Result<seq<Record>>)
    requires Below(src, rootLoc, walk)
    ensures r == Emit(src, rootLoc, root, pm, walk)
  {
    var records: seq<Record> := [];
    var i := 0;
    assert walk[0..] == walk;
    assert Prepend([], Emit(src, rootLoc, root, pm, walk)) == Emit(src, rootLoc, root, pm, walk) by {
      if Emit(src, rootLoc, root, pm, walk).Ok? {
        assert [] + Emit(src, rootLoc, root, pm, walk).value == Emit(src, rootLoc, root, pm, walk).value;
      }
    }
    while i < |walk|
      invariant 0 <= i <= |walk|
      invariant Emit(src, rootLoc, root, pm, walk) == Prepend(records, Emit(src, rootLoc, root, pm, walk[i..]))
    {
      EmitStep(src, rootLoc, root, pm, walk, i);
      var skip := pm(RelFile(walk[i]));
      if skip.Err? {
        return Err(skip.msg);
      }
      if !skip.value && walk[i] != [] {
        var e := EntryFor(src, rootLoc, root, walk[i]);
        PrependTwice(records, e, Emit(src, rootLoc, root, pm, walk[i + 1..]));
        records := records + [e];
      }
      i := i + 1;
    }
    assert walk[i..] == [];
    assert records + [] == records;
    return Ok(records);
  }

  /** One step of the walk callback, read off `Emit`. */
  lemma EmitStep(src: FS, rootLoc: Path, root: string, pm: Matcher, walk: seq<seq<string>>, i: nat)
    requires Below(src, rootLoc, walk) && i < |walk|
    ensures Below(src, rootLoc, walk[i..]) && Below(src, rootLoc, walk[i + 1..])
    ensures var skip := pm(RelFile(walk[i]));
      && (skip.Err? ==> Emit(src, rootLoc, root, pm, walk[i..]) == Err(skip.msg))
      && (skip.Ok? && (skip.value || walk[i] == []) ==>
            Emit(src, rootLoc, root, pm, walk[i..]) == Emit(src, rootLoc, root, pm, walk[i + 1..]))
      && (skip.Ok? && !skip.value && walk[i] != [] ==>
            && rootLoc + walk[i] in src
            && Emit(src, rootLoc, root, pm, walk[i..])
               == Prepend([EntryFor(src, rootLoc, root, walk[i])], Emit(src, rootLoc, root, pm, walk[i + 1..])))
  {
    assert walk[i..][0] == walk[i] && walk[i..][1..] == walk[i + 1..];
    assert forall j :: 0 <= j < |walk[i..]| ==> walk[i..][j] == walk[i + j];
  }

  /** Records written one after the other. */
  lemma PrependTwice(done: seq<Record>, e: Record, rest: Result<seq<Record>>)
    ensures Prepend(done, Prepend([e], rest)) == Prepend(done + [e], rest)
  {
    if rest.Ok? {
      assert done + ([e] + rest.value) == done + [e] + rest.value;
    }
  }

  /** A provided root that is a regular file is walked but never written: its archive is
      empty. */
  lemma FileRootPacksNothing(src: FS, rootLoc: Path, root: string, pm: Matcher)
    requires Valid(src) && rootLoc in src && src[rootLoc].File?
    ensures RelPaths(src, rootLoc) == {[]}
    ensures Below(src, rootLoc, Walk(src, rootLoc))
    ensures Emit(src, rootLoc, root, pm, Walk(src, rootLoc)).Ok?
        ==> Emit(src, rootLoc, root, pm, Walk(src, rootLoc)).value == []
  {
    forall rel | rel in RelPaths(src, rootLoc) ensures rel == [] {
      var k :| k in src && IsPrefix(rootLoc, k) && rel == k[|rootLoc|..];
      assert |k| == |rootLoc|;
    }
    assert rootLoc + [] == rootLoc && rootLoc[|rootLoc|..] == [];
    assert [] in RelPaths(src, rootLoc);
    var walk := Walk(src, rootLoc);
    RelPathsBelow(src, rootLoc, walk);
    assert walk == [[]] by {
      PathLessStrictTotal();
      SortedUnique(walk, [[]], PathLess);
    }
    EmitKept(src, rootLoc, root, pm, walk);
  }

  // ---------------------------------------------------------------- push

  /** The upload URL of one provided directory. */
  function ProviderUrl(c: Configuration, p: Provide, version: string): (url: string)
    ensures |c.repository| + |version| <= |url|
    ensures url[..|c.repository|] == c.repository && url[|url| - |version|..] == version
  {
    c.repository + "/v1/projects/" + c.name + "/types/" + p.idlType + "/versions/" + version
  }

  /** Provided directory `p` was packed and its upload accepted with 201. */
  ghost predicate Uploaded(src: FS, cwd: Path, c: Configuration, version: string,
                           newMatcher: seq<string> -> Result<Matcher>,
                           post: (string, seq<Record>) -> Result<int>, p: Provide)
  {
    var packed := Package(src, cwd, p.root, Excludes(src, cwd, p.idlIgnore), newMatcher);
    packed.Ok? && post(ProviderUrl(c, p, version), packed.value) == Ok(201)
  }

  /** One pass of the push loop: pack the directory, post it, and require 201 Created. */
  ghost function PushOne(src: FS, cwd: Path, c: Configuration, version: string,
                         newMatcher: seq<string> -> Result<Matcher>,
                         post: (string, seq<Record>) -> Result<int>, p: Provide): (err: Option<string>)
    ensures err.None? <==> Uploaded(src, cwd, c, version, newMatcher, post, p)
  {
    match Package(src, cwd, p.root, Excludes(src, cwd, p.idlIgnore), newMatcher)
    case Err(e) => Some(e)
    case Ok(records) =>
      match post(ProviderUrl(c, p, version), records)
      case Err(e) => Some("failed posting module to registry: " + e)
      case Ok(status) => if status != 201 then Some("upload failed") else None
  }

  /** The providers packed and posted in order; the first failure ends the push. */
  ghost function PushEach(src: FS, cwd: Path, c: Configuration, version: string,
                          newMatcher: seq<string> -> Result<Matcher>,
                          post: (string, seq<Record>) -> Result<int>, provs: seq<Provide>): (err: Option<string>)
    ensures err.Some? ==> exists i :: 0 <= i < |provs| && PushOne(src, cwd, c, version, newMatcher, post, provs[i]) == err
    decreases |provs|
  {
    if provs == [] then None
    else
      var err := PushOne(src, cwd, c, version, newMatcher, post, provs[0]);
      if err.Some? then err
      else
        var rest := PushEach(src, cwd, c, version, newMatcher, post, provs[1..]);
        assert forall i :: 0 <= i < |provs| - 1 ==> provs[1..][i] == provs[i + 1];
        rest
  }

  /** `Push`: nothing to push is an error; otherwise every provided directory in order. */
  method Push(src: FS, cwd: Path, c: Configuration, version: string,
              newMatcher: seq<string> -> Result<Matcher>,
              post: (string, seq<Record>) -> Result<int>) returns (err: Option<string>)
    ensures |c.provided| == 0 ==> err == Some("nothing to push")
    ensures |c.provided| > 0 ==> err == PushEach(src, cwd, c, version, newMatcher, post, c.provided)
  {
    if |c.provided| < 1 {
      return Some("nothing to push");
    }
    for i := 0 to |c.provided|
      invariant PushEach(src, cwd, c, version, newMatcher, post, c.provided[i..])
             == PushEach(src, cwd, c, version, newMatcher, post, c.provided)
    {
      var p := c.provided[i];
      assert c.provided[i..][0] == p && c.provided[i..][1..] == c.provided[i + 1..];
      var excludes := GetExcludes(src, cwd, p.idlIgnore);
      var packed := GzipRoot(src, cwd, p.root, excludes, newMatcher);
      if packed.Err? {
        return Some(packed.msg);
      }
      var resp := post(ProviderUrl(c, p, version), packed.value);
      if resp.Err? {
        return Some("failed posting module to registry: " + resp.msg);
      }
      if resp.value != 201 {
        return Some("upload failed");
      }
    }
    assert c.provided[|c.provided|..] == [];
    return None;
  }

  /** A push without error packed every provided directory and had each upload accepted
      with 201. */
  lemma {:induction false} PushEachPacksAll(src: FS, cwd: Path, c: Configuration, version: string,
                                            newMatcher: seq<string> -> Result<Matcher>,
                                            post: (string, seq<Record>) -> Result<int>, provs: seq<Provide>)
    ensures PushEach(src, cwd, c, version, newMatcher, post, provs).None? ==>
      forall i :: 0 <= i < |provs| ==> Uploaded(src, cwd, c, version, newMatcher, post, provs[i])
    decreases |provs|
  {
    if provs != [] && PushEach(src, cwd, c, version, newMatcher, post, provs).None? {
      var first := PushOne(src, cwd, c, version, newMatcher, post, provs[0]);
      assert first.None? && PushEach(src, cwd, c, version, newMatcher, post, provs[1..]).None?;
      PushEachPacksAll(src, cwd, c, version, newMatcher, post, provs[1..]);
      forall i | 0 <= i < |provs|
        ensures Uploaded(src, cwd, c, version, newMatcher, post, provs[i])
      {
        if i > 0 {
          assert provs[i] == provs[1..][i - 1];
        }
      }
    }
  }

  /** Pushing `a + b` pushes `a` and, only if every upload of it succeeded, then `b`. */
  lemma {:induction false} PushEachAppend(src: FS, cwd: Path, c: Configuration, version: string,
                                          newMatcher: seq<string> -> Result<Matcher>,
                                          post: (string, seq<Record>) -> Result<int>,
                                          a: seq<Provide>, b: seq<Provide>)
    ensures var first := PushEach(src, cwd, c, version, newMatcher, post, a);
      PushEach(src, cwd, c, version, newMatcher, post, a + b)
        == if first.Some? then first else PushEach(src, cwd, c, version, newMatcher, post, b)
    decreases |a|
  {
    if a == [] {
      assert a + b == b;
    } else {
      assert (a + b)[0] == a[0] && (a + b)[1..] == a[1..] + b;
      PushEachAppend(src, cwd, c, version, newMatcher, post, a[1..], b);
    }
  }
}
