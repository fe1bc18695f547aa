/**
 * String order and sorting. Ruby's `String#<=>` compares UTF-8 bytes and
 * Python's `str` comparison compares code points; both are the
 * lexicographic order on characters with a proper prefix first.
 */
module Ordering {

  /** Lexicographic `a <= b` on characters. */
  predicate StrLe(a: string, b: string)
    decreases |a|
  {
    if a == [] then true
    else if b == [] then false
    else if a[0] != b[0] then a[0] < b[0]
    else StrLe(a[1..], b[1..])
  }

  lemma {:induction false} StrLeReflexive(a: string)
    ensures StrLe(a, a)
    decreases |a|
  {
    if a != [] { StrLeReflexive(a[1..]); }
  }

  lemma {:induction false} StrLeTotal(a: string, b: string)
    ensures StrLe(a, b) || StrLe(b, a)
    decreases |a|
  {
    if a != [] && b != [] && a[0] == b[0] { StrLeTotal(a[1..], b[1..]); }
  }

  lemma {:induction false} StrLeTransitive(a: string, b: string, c: string)
    requires StrLe(a, b) && StrLe(b, c)
    ensures StrLe(a, c)
    decreases |a|
  {
    if a != [] && b != [] && c != [] && a[0] == b[0] && b[0] == c[0] {
      StrLeTransitive(a[1..], b[1..], c[1..]);
    }
  }

  lemma {:induction false} StrLeAntisymmetric(a: string, b: string)
    requires StrLe(a, b) && StrLe(b, a)
    ensures a == b
    decreases |a|
  {
    if a != [] {
      StrLeAntisymmetric(a[1..], b[1..]);
      assert a == [a[0]] + a[1..] && b == [b[0]] + b[1..];
    }
  }

  /** The keys never decrease along the sequence. */
  predicate SortedBy<T>(xs: seq<T>, key: T -> string)
  {
    forall i, j :: 0 <= i < j < |xs| ==> StrLe(key(xs[i]), key(xs[j]))
  }

  predicate NoDups<T(==)>(xs: seq<T>)
  {
    forall i, j :: 0 <= i < j < |xs| ==> xs[i] != xs[j]
  }

  /** Inserts `x` before the first element whose key is not below it. */
  function Insert<T>(x: T, xs: seq<T>, key: T -> string): (r: seq<T>)
    requires SortedBy(xs, key)
    ensures SortedBy(r, key)
    ensures multiset(r) == multiset(xs) + multiset{x}
  {
    if xs == [] then [x]
    else if StrLe(key(x), key(xs[0])) then
      InsertFront(x, xs, key);
      [x] + xs
    else
      StrLeTotal(key(x), key(xs[0]));
      var rest := Insert(x, xs[1..], key);
      InsertBehind(x, xs, key, rest);
      [xs[0]] + rest
  }

  lemma SortedTail<T>(xs: seq<T>, key: T -> string)
    requires xs != [] && SortedBy(xs, key)
    ensures SortedBy(xs[1..], key)
  {
    forall i, j | 0 <= i < j < |xs| - 1 ensures StrLe(key(xs[1..][i]), key(xs[1..][j])) {
      assert xs[1..][i] == xs[i + 1] && xs[1..][j] == xs[j + 1];
    }
  }

  /** The two ways `Insert` can go on a non-empty sequence. */
  lemma InsertCases<T>(x: T, xs: seq<T>, key: T -> string)
    requires xs != [] && SortedBy(xs, key)
    ensures StrLe(key(x), key(xs[0])) ==> Insert(x, xs, key) == [x] + xs
    ensures !StrLe(key(x), key(xs[0])) ==> Insert(x, xs, key) == [xs[0]] + Insert(x, xs[1..], key)
  {
  }

  lemma InsertFront<T>(x: T, xs: seq<T>, key: T -> string)
    requires xs != [] && SortedBy(xs, key) && StrLe(key(x), key(xs[0]))
    ensures SortedBy([x] + xs, key)
  {
    forall j | 0 <= j < |xs| ensures StrLe(key(x), key(xs[j])) {
      if j > 0 { StrLeTransitive(key(x), key(xs[0]), key(xs[j])); }
    }
    var r := [x] + xs;
    forall i, j | 0 <= i < j < |r| ensures StrLe(key(r[i]), key(r[j])) {
      if i > 0 { assert r[i] == xs[i - 1] && r[j] == xs[j - 1]; }
      else { assert r[j] == xs[j - 1]; }
    }
  }

  lemma InsertBehind<T>(x: T, xs: seq<T>, key: T -> string, rest: seq<T>)
    requires xs != [] && SortedBy(xs, key) && StrLe(key(xs[0]), key(x))
    requires SortedBy(rest, key)
    requires multiset(rest) == multiset(xs[1..]) + multiset{x}
    ensures SortedBy([xs[0]] + rest, key)
    ensures multiset([xs[0]] + rest) == multiset(xs) + multiset{x}
  {
    assert xs == [xs[0]] + xs[1..];
    forall j | 0 <= j < |rest| ensures StrLe(key(xs[0]), key(rest[j])) {
      var y := rest[j];
      assert y in multiset(rest);
      if y != x {
        assert y in multiset(xs[1..]);
        var k :| 0 <= k < |xs[1..]| && xs[1..][k] == y;
        assert xs[k + 1] == y;
      }
    }
    var r := [xs[0]] + rest;
    forall i, j | 0 <= i < j < |r| ensures StrLe(key(r[i]), key(r[j])) {
      if i > 0 { assert r[i] == rest[i - 1] && r[j] == rest[j - 1]; }
      else { assert r[j] == rest[j - 1]; }
    }
  }

  /**
   * An insertion sort by key. It is one order a key sort may produce; it
   * happens to keep equal keys in their original order.
   */
  function SortBy<T>(xs: seq<T>, key: T -> string): (r: seq<T>)
    ensures SortedBy(r, key)
    ensures multiset(r) == multiset(xs)
    ensures |r| == |xs|
  {
    if xs == [] then []
    else
      assert xs == [xs[0]] + xs[1..];
      var r := Insert(xs[0], SortBy(xs[1..], key), key);
      assert |r| == |multiset(r)|;
      r
  }

  /** The image of every element under `f`, in order. */
  function Project<T>(xs: seq<T>, f: T -> string): seq<string>
  {
    if xs == [] then [] else [f(xs[0])] + Project(xs[1..], f)
  }

  lemma {:induction false} ProjectIndex<T>(xs: seq<T>, f: T -> string)
    ensures |Project(xs, f)| == |xs|
    ensures forall j :: 0 <= j < |xs| ==> Project(xs, f)[j] == f(xs[j])
  {
    if xs != [] { ProjectIndex(xs[1..], f); }
  }

  lemma {:induction false} ProjectAppend<T>(a: seq<T>, b: seq<T>, f: T -> string)
    ensures Project(a + b, f) == Project(a, f) + Project(b, f)
  {
    if a == [] {
      assert a + b == b;
    } else {
      assert (a + b)[1..] == a[1..] + b;
      ProjectAppend(a[1..], b, f);
    }
  }

  /** Permuting the elements permutes their images. */
  lemma {:induction false} ProjectPermutation<T>(a: seq<T>, b: seq<T>, f: T -> string)
    requires multiset(a) == multiset(b)
    ensures multiset(Project(a, f)) == multiset(Project(b, f))
    decreases |a|
  {
    if a != [] {
      assert a[0] in multiset(b);
      var k :| 0 <= k < |b| && b[k] == a[0];
      RemoveAt(a, b, k);
      ProjectPermutation(a[1..], b[..k] + b[k + 1..], f);
      ProjectRemoveAt(a, b, k, f);
    }
  }

  lemma RemoveAt<T>(a: seq<T>, b: seq<T>, k: nat)
    requires a != [] && k < |b| && b[k] == a[0] && multiset(a) == multiset(b)
    ensures multiset(a[1..]) == multiset(b[..k] + b[k + 1..])
  {
    var l, r := b[..k], b[k + 1..];
    assert b == l + ([b[k]] + r);
    assert a == [a[0]] + a[1..];
    calc {
      multiset(a[1..]);
      multiset(a) - multiset{a[0]};
      multiset(l) + multiset(r);
      multiset(l + r);
    }
  }

  lemma ProjectSplit<T>(b: seq<T>, k: nat, f: T -> string)
    requires k < |b|
    ensures Project(b, f) == Project(b[..k], f) + ([f(b[k])] + Project(b[k + 1..], f))
    ensures Project(b[..k] + b[k + 1..], f) == Project(b[..k], f) + Project(b[k + 1..], f)
  {
    var l, r := b[..k], b[k + 1..];
    assert b == l + ([b[k]] + r);
    ProjectAppend(l, [b[k]] + r, f);
    assert ([b[k]] + r)[1..] == r;
    ProjectAppend(l, r, f);
  }

  lemma ProjectRemoveAt<T>(a: seq<T>, b: seq<T>, k: nat, f: T -> string)
    requires a != [] && k < |b| && b[k] == a[0]
    requires multiset(Project(a[1..], f)) == multiset(Project(b[..k] + b[k + 1..], f))
    ensures multiset(Project(a, f)) == multiset(Project(b, f))
  {
    ProjectSplit(b, k, f);
    var pl, y, pr := Project(b[..k], f), f(b[k]), Project(b[k + 1..], f);
    assert multiset(Project(a, f)) == multiset{y} + multiset(pl + pr);
    assert multiset(Project(b, f)) == multiset(pl) + (multiset{y} + multiset(pr));
  }

  /** A permutation of a duplicate-free sequence is duplicate-free. */
  lemma PermutationNoDups<T>(xs: seq<T>, ys: seq<T>)
    requires multiset(xs) == multiset(ys) && NoDups(xs)
    ensures NoDups(ys)
  {
    forall i, j | 0 <= i < j < |ys| ensures ys[i] != ys[j] {
      OccursAtMostOnce(xs, ys[j]);
      assert ys == ys[..j] + [ys[j]] + ys[j + 1..];
      assert ys[..j][i] == ys[i];
      assert multiset(ys)[ys[j]] >= multiset(ys[..j])[ys[j]] + 1;
    }
  }

  lemma {:induction false} OccursAtMostOnce<T>(xs: seq<T>, x: T)
    requires NoDups(xs)
    ensures multiset(xs)[x] <= 1
  {
    if xs != [] {
      assert xs == [xs[0]] + xs[1..];
      OccursAtMostOnce(xs[1..], x);
      if xs[0] == x {
        assert x !in xs[1..];
      }
    }
  }
}
