/** Splitting and joining sequences on a one-element separator, as Go's `strings.Split` and
    `strings.Join` do for strings; shared by path handling, ignore-pattern lists and line scanning. */
module Sequences {

  /** The maximal runs of `s` between occurrences of `sep`. Like `strings.Split`, the result is
      never empty: splitting the empty sequence gives one empty part. */
  function Split<T(==)>(s: seq<T>, sep: T): (parts: seq<seq<T>>)
    ensures |parts| >= 1
    ensures forall i :: 0 <= i < |parts| ==> sep !in parts[i]
    decreases |s|
  {
    if s == [] then [[]]
    else
      var rest := Split(s[1..], sep);
      if s[0] == sep then [[]] + rest
      else [[s[0]] + rest[0]] + rest[1..]
  }

  /** There is more than one part exactly when the separator occurs. */
  lemma {:induction false} SplitSeveral<T>(s: seq<T>, sep: T)
    ensures |Split(s, sep)| > 1 <==> sep in s
    decreases |s|
  {
    if s != [] {
      SplitSeveral(s[1..], sep);
      assert sep in s <==> s[0] == sep || sep in s[1..];
    }
  }

  /** The parts glued together with `sep` between neighbours (`strings.Join`). */
  function Join<T>(parts: seq<seq<T>>, sep: T): (s: seq<T>)
    decreases |parts|
  {
    if parts == [] then []
    else if |parts| == 1 then parts[0]
    else parts[0] + [sep] + Join(parts[1..], sep)
  }

  /** Splitting at one separator splits the two sides independently. */
  lemma {:induction false} SplitAround<T>(a: seq<T>, b: seq<T>, sep: T)
    ensures Split(a + [sep] + b, sep) == Split(a, sep) + Split(b, sep)
    decreases |a|
  {
    if a == [] {
      assert a + [sep] + b == [sep] + b;
      assert ([sep] + b)[1..] == b;
    } else {
      assert (a + [sep] + b)[1..] == a[1..] + [sep] + b;
      SplitAround(a[1..], b, sep);
    }
  }

  /** A sequence without the separator is a single part. */
  lemma {:induction false} SplitWithoutSeparator<T>(s: seq<T>, sep: T)
    requires sep !in s
    ensures Split(s, sep) == [s]
    decreases |s|
  {
    if s != [] {
      SplitWithoutSeparator(s[1..], sep);
      assert [s[0]] + s[1..] == s;
    }
  }

  /** Joining what was split gives back the original sequence. */
  lemma {:induction false} JoinSplit<T>(s: seq<T>, sep: T)
    ensures Join(Split(s, sep), sep) == s
    decreases |s|
  {
    if s != [] {
      var rest := Split(s[1..], sep);
      JoinSplit(s[1..], sep);
      if s[0] == sep {
        assert Split(s, sep) == [[]] + rest;
        assert ([[]] + rest)[1..] == rest;
      } else {
        var parts := Split(s, sep);
        assert parts == [[s[0]] + rest[0]] + rest[1..];
        if |rest| == 1 {
          assert Join(parts, sep) == [s[0]] + rest[0];
        } else {
          assert parts[1..] == rest[1..];
          assert Join(parts, sep) == [s[0]] + rest[0] + [sep] + Join(rest[1..], sep);
        }
      }
    }
  }

  /** Splitting what was joined gives back the parts, provided no part holds the separator. */
  lemma {:induction false} SplitJoin<T>(parts: seq<seq<T>>, sep: T)
    requires |parts| >= 1
    requires forall i :: 0 <= i < |parts| ==> sep !in parts[i]
    ensures Split(Join(parts, sep), sep) == parts
    decreases |parts|
  {
    SplitWithoutSeparator(parts[0], sep);
    if |parts| > 1 {
      SplitJoin(parts[1..], sep);
      SplitAround(parts[0], Join(parts[1..], sep), sep);
      assert [parts[0]] + parts[1..] == parts;
    }
  }

  /** Joining two non-empty lists of parts puts one separator between their joins. */
  lemma {:induction false} JoinAppend<T>(a: seq<seq<T>>, b: seq<seq<T>>, sep: T)
    requires |a| >= 1 && |b| >= 1
    ensures Join(a + b, sep) == Join(a, sep) + [sep] + Join(b, sep)
    decreases |a|
  {
    assert (a + b)[0] == a[0];
    if |a| == 1 {
      assert (a + b)[1..] == b;
    } else {
      assert (a + b)[1..] == a[1..] + b;
      JoinAppend(a[1..], b, sep);
    }
  }

  /** `parts` with `x` appended to its last part. */
  function Extend<T>(parts: seq<seq<T>>, x: T): (r: seq<seq<T>>)
    requires |parts| >= 1
    ensures |r| == |parts| && r[..|r| - 1] == parts[..|parts| - 1]
    ensures r[|r| - 1] == parts[|parts| - 1] + [x]
  {
    parts[..|parts| - 1] + [parts[|parts| - 1] + [x]]
  }

  /** Extending a list given as its init and last part. */
  lemma ExtendLast<T>(init: seq<seq<T>>, last: seq<T>, x: T)
    ensures Extend(init + [last], x) == init + [last + [x]]
  {
    var e := Extend(init + [last], x);
    assert e == e[..|e| - 1] + [e[|e| - 1]];
    assert (init + [last])[..|init|] == init;
  }

  /** Appending one element to the input either opens a new empty part (the separator) or
      extends the last part. */
  lemma {:induction false} SplitSnoc<T>(s: seq<T>, x: T, sep: T)
    ensures Split(s + [x], sep) == if x == sep then Split(s, sep) + [[]] else Extend(Split(s, sep), x)
    decreases |s|
  {
    if x == sep {
      assert s + [x] == s + [sep] + [];
      SplitAround(s, [], sep);
    } else if s == [] {
      assert [] + [x] == [x];
      SplitWithoutSeparator([x], sep);
    } else {
      assert (s + [x])[0] == s[0] && (s + [x])[1..] == s[1..] + [x];
      SplitSnoc(s[1..], x, sep);
      var inner := Split(s[1..], sep);
      if s[0] == sep {
        ExtendAfterEmpty(inner, x);
      } else {
        ExtendFirst(s[0], inner, x);
      }
    }
  }

  lemma ExtendAfterEmpty<T>(inner: seq<seq<T>>, x: T)
    requires |inner| >= 1
    ensures Extend([[]] + inner, x) == [[]] + Extend(inner, x)
  {
    var e, f := Extend([[]] + inner, x), [[]] + Extend(inner, x);
    assert |e| == |f|;
    forall i | 0 <= i < |e| ensures e[i] == f[i] {
      if i < |e| - 1 {
        assert e[i] == e[..|e| - 1][i];
      }
    }
  }

  lemma ExtendFirst<T>(h: T, inner: seq<seq<T>>, x: T)
    requires |inner| >= 1
    ensures var g := Extend(inner, x);
      Extend([[h] + inner[0]] + inner[1..], x) == [[h] + g[0]] + g[1..]
  {
    var g := Extend(inner, x);
    var e, f := Extend([[h] + inner[0]] + inner[1..], x), [[h] + g[0]] + g[1..];
    assert |e| == |f|;
    forall i | 0 <= i < |e| ensures e[i] == f[i] {
      if i < |e| - 1 {
        assert e[i] == e[..|e| - 1][i];
        if i > 0 {
          assert g[i] == g[..|g| - 1][i];
        }
      } else if i > 0 {
        assert g[i] == inner[i] + [x];
      }
    }
  }
}
