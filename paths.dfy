/** Slash-separated paths, cleaned lexically as Go's `filepath.Clean` does for rooted paths
    (Pike, "Lexical File Names in Plan 9"): empty and `.` elements vanish, `..` removes the
    element before it, and `..` at the root stays at the root. A cleaned absolute path is
    represented by its sequence of elements. */
module Paths {
  import opened Wrappers
  import opened Sequences

  /** The elements of an absolute path; `[]` is the root `/`. */
  type Path = seq<string>

  /** An element that survives cleaning. */
  predicate IsSegment(s: string) {
    s != "" && s != "." && s != ".." && '/' !in s
  }

  predicate IsClean(p: Path) {
    forall i :: 0 <= i < |p| ==> IsSegment(p[i])
  }

  /** `a` names `b` or one of its ancestors. */
  predicate IsPrefix(a: Path, b: Path) {
    |a| <= |b| && b[..|a|] == a
  }

  /** No element is free of `/` is the shape of what `Split(_, '/')` returns. */
  predicate NoSlash(segs: seq<string>) {
    forall i :: 0 <= i < |segs| ==> '/' !in segs[i]
  }

  /** Pike's rule for one element. */
  function Step(stack: Path, seg: string): (next: Path) {
    if seg == "" || seg == "." then stack
    else if seg == ".." then (if stack == [] then [] else stack[..|stack| - 1])
    else stack + [seg]
  }

  /** Applies Pike's rules to `segs`, starting at the already clean `stack`. */
  function Resolve(stack: Path, segs: seq<string>): (r: Path)
    ensures IsClean(stack) && NoSlash(segs) ==> IsClean(r)
    decreases |segs|
  {
    if segs == [] then stack
    else Resolve(Step(stack, segs[0]), segs[1..])
  }

  /** `filepath.Clean` of a rooted path string. */
  function Clean(s: string): (p: Path) {
    Resolve([], Split(s, '/'))
  }

  /** Pike's rule for one element of a relative path: `..` cancels a preceding ordinary
      element and is kept when there is none. */
  function StepRel(stack: seq<string>, seg: string): (next: seq<string>) {
    if seg == "" || seg == "." then stack
    else if seg == ".." then
      (if stack != [] && stack[|stack| - 1] != ".." then stack[..|stack| - 1] else stack + [".."])
    else stack + [seg]
  }

  function ResolveRel(stack: seq<string>, segs: seq<string>): (r: seq<string>)
    decreases |segs|
  {
    if segs == [] then stack else ResolveRel(StepRel(stack, segs[0]), segs[1..])
  }

  /** `filepath.Clean` on any path string: rooted paths as above, relative ones keep their
      leading `..` elements, and nothing at all becomes `.`. */
  function CleanString(s: string): (c: string) {
    if |s| > 0 && s[0] == '/' then PathString(Clean(s))
    else
      var r := ResolveRel([], Split(s, '/'));
      if r == [] then "." else Join(r, '/')
  }

  /** `path.Join`: the elements from the first non-empty one on, joined by `/` and cleaned;
      nothing at all when every element is empty. */
  function PathJoin(elems: seq<string>): (s: string)
    ensures s == "" <==> forall i :: 0 <= i < |elems| ==> elems[i] == ""
    decreases |elems|
  {
    if elems == [] then ""
    else if elems[0] != "" then CleanStringNonEmpty(Join(elems, '/')); CleanString(Join(elems, '/'))
    else
      assert forall i :: 1 <= i < |elems| ==> elems[i] == elems[1..][i - 1];
      PathJoin(elems[1..])
  }

  /** `filepath.Abs`: a rooted string is cleaned, any other is joined to the working directory. */
  function Abs(cwd: Path, s: string): (p: Path) {
    Resolve(if |s| > 0 && s[0] == '/' then [] else cwd, Split(s, '/'))
  }

  /** The string form of a clean absolute path. */
  function PathString(p: Path): (s: string) {
    "/" + Join(p, '/')
  }

  /** `n` parent references. */
  function Dots(n: nat): (r: seq<string>)
    ensures |r| == n && forall i :: 0 <= i < n ==> r[i] == ".."
  {
    seq(n, _ => "..")
  }

  /** Length of the longest common prefix. */
  function CommonPrefix(a: Path, b: Path): (n: nat)
    ensures n <= |a| && n <= |b| && a[..n] == b[..n]
    ensures n < |a| && n < |b| ==> a[n] != b[n]
    decreases |a|
  {
    if a == [] || b == [] || a[0] != b[0] then 0
    else 1 + CommonPrefix(a[1..], b[1..])
  }

  /** `filepath.Rel(base, targ)` for two absolute cleaned paths: the elements of a path that,
      joined to `base`, names `targ`. Go fails only when one path is rooted and the other is
      not, or when the part of `base` beyond the common prefix starts with `..`. */
  function Rel(base: Path, targ: Path): (r: Result<seq<string>>) {
    if targ == base then Ok(["."])
    else
      var n := CommonPrefix(base, targ);
      if n < |base| && base[n] == ".." then
        Err("Rel: can't make " + PathString(targ) + " relative to " + PathString(base))
      else Ok(Dots(|base| - n) + targ[n..])
  }

  // ---------------------------------------------------------------- cleaning

  /** Relative cleaning never produces an empty element. */
  lemma {:induction false} ResolveRelNonEmpty(stack: seq<string>, segs: seq<string>)
    requires forall i :: 0 <= i < |stack| ==> stack[i] != ""
    ensures forall i :: 0 <= i < |ResolveRel(stack, segs)| ==> ResolveRel(stack, segs)[i] != ""
    decreases |segs|
  {
    if segs != [] {
      var next := StepRel(stack, segs[0]);
      assert forall i :: 0 <= i < |next| ==> next[i] != "" by {
        if segs[0] != "" && segs[0] != "." && !(segs[0] == ".." && stack != [] && stack[|stack| - 1] != "..") {
          assert forall i :: 0 <= i < |stack| ==> next[i] == stack[i];
        }
      }
      ResolveRelNonEmpty(next, segs[1..]);
    }
  }

  /** A cleaned path string is never empty: the empty path becomes `.`. */
  lemma CleanStringNonEmpty(s: string)
    ensures CleanString(s) != ""
  {
    if !(|s| > 0 && s[0] == '/') {
      var r := ResolveRel([], Split(s, '/'));
      ResolveRelNonEmpty([], Split(s, '/'));
      if r != [] {
        assert Join(r, '/')[..|r[0]|] == r[0];
      }
    }
  }

  /** Cleaning is a left fold: the elements may be processed in two pieces. */
  lemma {:induction false} ResolveAppend(stack: Path, a: seq<string>, b: seq<string>)
    ensures Resolve(stack, a + b) == Resolve(Resolve(stack, a), b)
    decreases |a|
  {
    if a != [] {
      assert (a + b)[0] == a[0] && (a + b)[1..] == a[1..] + b;
      ResolveAppend(Step(stack, a[0]), a[1..], b);
    } else {
      assert a + b == b;
    }
  }

  /** Clean elements are appended unchanged. */
  lemma {:induction false} ResolveClean(stack: Path, segs: seq<string>)
    requires IsClean(segs)
    ensures Resolve(stack, segs) == stack + segs
    decreases |segs|
  {
    if segs != [] {
      ResolveClean(stack + [segs[0]], segs[1..]);
      assert stack + [segs[0]] + segs[1..] == stack + segs;
    }
  }

  /** Clean elements are appended unchanged to a relative path too. */
  lemma {:induction false} ResolveRelClean(stack: seq<string>, segs: seq<string>)
    requires IsClean(segs)
    ensures ResolveRel(stack, segs) == stack + segs
    decreases |segs|
  {
    if segs != [] {
      ResolveRelClean(stack + [segs[0]], segs[1..]);
      assert stack + [segs[0]] + segs[1..] == stack + segs;
    }
  }

  /** Without `..` elements, cleaning never climbs above its starting point. */
  lemma {:induction false} ResolveKeepsPrefix(stack: Path, segs: seq<string>)
    requires forall i :: 0 <= i < |segs| ==> segs[i] != ".."
    ensures IsPrefix(stack, Resolve(stack, segs))
    decreases |segs|
  {
    if segs != [] {
      var next := Step(stack, segs[0]);
      ResolveKeepsPrefix(next, segs[1..]);
      assert IsPrefix(stack, next);
      var r := Resolve(next, segs[1..]);
      assert r[..|next|] == next;
      assert r[..|stack|] == r[..|next|][..|stack|];
    }
  }

  /** `..` right after the elements it cancels undoes them. */
  lemma {:induction false} ResolveDots(stack: Path, x: seq<string>, rest: seq<string>)
    ensures Resolve(stack + x, Dots(|x|) + rest) == Resolve(stack, rest)
    decreases |x|
  {
    if x == [] {
      assert stack + x == stack && Dots(0) + rest == rest;
    } else {
      var d := Dots(|x|) + rest;
      assert d[0] == ".." && d[1..] == Dots(|x| - 1) + rest;
      assert Step(stack + x, "..") == stack + x[..|x| - 1];
      ResolveDots(stack, x[..|x| - 1], rest);
    }
  }

  /** The elements of the string form of a non-root clean path. */
  lemma SplitPathString(p: Path)
    requires IsClean(p) && p != []
    ensures Split(PathString(p), '/') == [""] + p
  {
    SplitJoin(p, '/');
    SplitAround([], Join(p, '/'), '/');
    assert [] + ['/'] + Join(p, '/') == PathString(p);
  }

  /** The string form of a clean path cleans back to it. */
  lemma CleanPathString(p: Path)
    requires IsClean(p)
    ensures Clean(PathString(p)) == p
  {
    if p == [] {
      assert PathString(p) == [] + ['/'] + [];
      SplitAround([], [], '/');
      assert Split(PathString(p), '/') == ["", ""];
      assert Resolve([], ["", ""]) == Resolve([], [""]) == Resolve([], []);
    } else {
      SplitPathString(p);
      ResolveClean([], p);
    }
  }

  // ---------------------------------------------------------------- filepath.Rel

  /** Two absolute paths are always relative to each other: with a clean `base` Rel never fails. */
  lemma RelNeverFails(base: Path, targ: Path)
    requires IsClean(base)
    ensures Rel(base, targ).Ok?
  {
  }

  /** The relative path starts with `..` exactly when `targ` lies outside `base`: the test that
      would have confined a path, had its result been inspected. */
  lemma RelLeavesBase(base: Path, targ: Path)
    requires IsClean(base) && IsClean(targ)
    ensures Rel(base, targ).Ok?
    ensures Rel(base, targ).value != []
    ensures Rel(base, targ).value[0] == ".." <==> !IsPrefix(base, targ)
  {
    if targ != base {
      var n := CommonPrefix(base, targ);
      if IsPrefix(base, targ) {
        assert targ[n..][0] == targ[n];
      } else {
      }
    }
  }

  /** Go's documented law `Join(base, Rel(base, targ)) == targ`. */
  lemma RelRoundTrip(base: Path, targ: Path)
    requires IsClean(base) && IsClean(targ)
    ensures Rel(base, targ).Ok? && Resolve(base, Rel(base, targ).value) == targ
  {
    if targ == base {
      assert Resolve(base, ["."]) == Resolve(base, []);
    } else {
      RelValue(base, targ);
      RelRoundTripApart(base, targ, CommonPrefix(base, targ));
    }
  }

  /** The round trip for two different paths sharing their first `n` elements. */
  lemma RelRoundTripApart(base: Path, targ: Path, n: nat)
    requires IsClean(targ) && n <= |base| && n <= |targ| && base[..n] == targ[..n]
    ensures Resolve(base, Dots(|base[n..]|) + targ[n..]) == targ
  {
    var pre, up, down := base[..n], base[n..], targ[n..];
    assert pre + up == base && pre + down == targ;
    assert IsClean(down);
    ClimbAndDescend(pre, up, down);
  }

  /** For a clean base, Rel climbs out of the uncommon part of the base and descends into
      the uncommon part of the target. */
  lemma RelValue(base: Path, targ: Path)
    requires IsClean(base) && targ != base
    ensures var n := CommonPrefix(base, targ);
      Rel(base, targ) == Ok(Dots(|base[n..]|) + targ[n..])
  {
    var n := CommonPrefix(base, targ);
    assert n < |base| ==> IsSegment(base[n]);
  }

  /** Climbing out of `up` and then descending into clean elements lands below `pre`. */
  lemma ClimbAndDescend(pre: Path, up: seq<string>, down: seq<string>)
    requires IsClean(down)
    ensures Resolve(pre + up, Dots(|up|) + down) == pre + down
  {
    ResolveDots(pre, up, down);
    ResolveClean(pre, down);
  }
}
