/** Lexicographic orders and sorting of finite sets. Go lists directory entries sorted by name
    (`ioutil.ReadDir`, and `filepath.Walk` through `readDirNames`); byte order of UTF-8 strings
    coincides with code-point order of characters, which is the order used here. */
module Order {

  /** `lt` is a strict total order. */
  ghost predicate StrictTotal<T(!new)>(lt: (T, T) -> bool) {
    && (forall x :: !lt(x, x))
    && (forall x, y, z :: lt(x, y) && lt(y, z) ==> lt(x, z))
    && (forall x, y :: x != y ==> lt(x, y) || lt(y, x))
  }

  /** Every element of `s` is before every later one. */
  ghost predicate StrictlySorted<T>(s: seq<T>, lt: (T, T) -> bool) {
    forall i, j :: 0 <= i < j < |s| ==> lt(s[i], s[j])
  }

  /** Lexicographic extension of `lt` to sequences; a proper prefix comes first. */
  predicate LexLess<T(==)>(a: seq<T>, b: seq<T>, lt: (T, T) -> bool)
    decreases |a|
  {
    if a == [] then b != []
    else if b == [] then false
    else if a[0] == b[0] then LexLess(a[1..], b[1..], lt)
    else lt(a[0], b[0])
  }

  predicate CharLess(a: char, b: char) { a < b }

  /** Go's `<` on strings: the order of directory entry names. */
  predicate NameLess(a: string, b: string) { LexLess(a, b, CharLess) }

  /** The order in which `filepath.Walk` visits paths: depth first, a directory before its
      contents, siblings by name. On segment sequences this is the lexicographic order. */
  predicate PathLess(a: seq<string>, b: seq<string>) { LexLess(a, b, NameLess) }

  lemma {:induction false} LexIrreflexive<T(!new)>(a: seq<T>, lt: (T, T) -> bool)
    ensures !LexLess(a, a, lt)
    decreases |a|
  {
    if a != [] { LexIrreflexive(a[1..], lt); }
  }

  lemma {:induction false} LexTransitive<T(!new)>(a: seq<T>, b: seq<T>, c: seq<T>, lt: (T, T) -> bool)
    requires StrictTotal(lt)
    requires LexLess(a, b, lt) && LexLess(b, c, lt)
    ensures LexLess(a, c, lt)
    decreases |a|
  {
    if a != [] && a[0] == b[0] && b[0] == c[0] {
      LexTransitive(a[1..], b[1..], c[1..], lt);
    } else if a != [] && a[0] != b[0] && b[0] != c[0] {
      assert lt(a[0], b[0]) && lt(b[0], c[0]);
      assert lt(a[0], c[0]);
    }
  }

  lemma {:induction false} LexConnected<T(!new)>(a: seq<T>, b: seq<T>, lt: (T, T) -> bool)
    requires StrictTotal(lt)
    requires a != b
    ensures LexLess(a, b, lt) || LexLess(b, a, lt)
    decreases |a|
  {
    if a != [] && b != [] && a[0] == b[0] {
      assert a == [a[0]] + a[1..] && b == [b[0]] + b[1..];
      LexConnected(a[1..], b[1..], lt);
    }
  }

  lemma CharLessStrictTotal()
    ensures StrictTotal(CharLess)
  {
  }

  lemma NameLessStrictTotal()
    ensures StrictTotal(NameLess)
  {
    CharLessStrictTotal();
    forall a: string ensures !NameLess(a, a) { LexIrreflexive(a, CharLess); }
    forall a: string, b: string, c: string | NameLess(a, b) && NameLess(b, c)
      ensures NameLess(a, c)
    {
      LexTransitive(a, b, c, CharLess);
    }
    forall a: string, b: string | a != b ensures NameLess(a, b) || NameLess(b, a) {
      LexConnected(a, b, CharLess);
    }
  }

  lemma PathLessStrictTotal()
    ensures StrictTotal(PathLess)
  {
    NameLessStrictTotal();
    forall a: seq<string> ensures !PathLess(a, a) { LexIrreflexive(a, NameLess); }
    forall a: seq<string>, b: seq<string>, c: seq<string> | PathLess(a, b) && PathLess(b, c)
      ensures PathLess(a, c)
    {
      LexTransitive(a, b, c, NameLess);
    }
    forall a: seq<string>, b: seq<string> | a != b ensures PathLess(a, b) || PathLess(b, a) {
      LexConnected(a, b, NameLess);
    }
  }

  /** A finite non-empty set has a least element under a strict total order. */
  lemma {:induction false} LeastExists<T(!new)>(s: set<T>, lt: (T, T) -> bool)
    requires StrictTotal(lt) && s != {}
    ensures exists m :: m in s && forall y :: y in s && y != m ==> lt(m, y)
    decreases |s|
  {
    var x :| x in s;
    if s != {x} {
      var rest := s - {x};
      LeastExists(rest, lt);
      var m :| m in rest && forall y :: y in rest && y != m ==> lt(m, y);
      if lt(m, x) {
        assert forall y :: y in s && y != m ==> lt(m, y);
      } else {
        assert lt(x, m);
        assert forall y :: y in s && y != x ==> lt(x, y);
      }
    }
  }

  /** The elements of `s` in increasing order (repeated selection of the least one). */
  method SortSet<T(!new, ==)>(s: set<T>, lt: (T, T) -> bool) returns (r: seq<T>)
    requires StrictTotal(lt)
    ensures StrictlySorted(r, lt)
    ensures forall x :: x in r <==> x in s
  {
    var left := s;
    r := [];
    while left != {}
      invariant left <= s
      invariant forall x :: x in r <==> x in s && x !in left
      invariant StrictlySorted(r, lt)
      invariant forall i, y :: 0 <= i < |r| && y in left ==> lt(r[i], y)
      decreases |left|
    {
      LeastExists(left, lt);
      var m :| m in left && forall y :: y in left && y != m ==> lt(m, y);
      r := r + [m];
      left := left - {m};
    }
  }

  /** The elements of a finite set in increasing order. */
  ghost function Sorted<T(!new)>(s: set<T>, lt: (T, T) -> bool): (r: seq<T>)
    requires StrictTotal(lt)
    ensures StrictlySorted(r, lt)
    ensures forall x :: x in r <==> x in s
    decreases |s|
  {
    if s == {} then []
    else
      LeastExists(s, lt);
      var m :| m in s && forall y :: y in s && y != m ==> lt(m, y);
      var rest := Sorted(s - {m}, lt);
      [m] + rest
  }

  /** A strictly sorted sequence is determined by its elements. */
  lemma {:induction false} SortedUnique<T(!new)>(a: seq<T>, b: seq<T>, lt: (T, T) -> bool)
    requires StrictTotal(lt)
    requires StrictlySorted(a, lt) && StrictlySorted(b, lt)
    requires forall x :: x in a <==> x in b
    ensures a == b
    decreases |a|
  {
    assert a != [] ==> a[0] in a;
    assert b != [] ==> b[0] in b;
    if a != [] && b != [] {
      assert b[0] in a && a[0] in b;
      assert a[0] == b[0];
      forall x ensures x in a[1..] <==> x in b[1..] {
        if x in a[1..] {
          var i :| 0 <= i < |a| - 1 && a[1..][i] == x;
          assert lt(a[0], x);
          assert x in b;
          var j :| 0 <= j < |b| && b[j] == x;
          assert j != 0;
          assert b[1..][j - 1] == x;
        }
        if x in b[1..] {
          var j :| 0 <= j < |b| - 1 && b[1..][j] == x;
          assert lt(b[0], x);
          assert x in a;
          var i :| 0 <= i < |a| && a[i] == x;
          assert i != 0;
          assert a[1..][i - 1] == x;
        }
      }
      SortedUnique(a[1..], b[1..], lt);
      assert a == [a[0]] + a[1..] && b == [b[0]] + b[1..];
    }
  }
}
