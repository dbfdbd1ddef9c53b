/**
 * `allNews.sort((a, b) => new Date(b.pubDate) - new Date(a.pubDate))` of
 * scripts/fetch-news.js: a stable sort, newest first, by a date key. The
 * sort runs in place on the array: each element in turn is moved left past
 * the elements already placed that are strictly older than it.
 */
module NewsSort {

  /** Newest first: keys never increase along `xs`. */
  ghost predicate NewestFirst<T>(xs: seq<T>, key: T -> int) {
    forall i, j :: 0 <= i < j < |xs| ==> key(xs[i]) >= key(xs[j])
  }

  /** Puts `x` into `s` after every element at least as new as `x` and before
      the strictly older ones that end `s`. */
  function Insert<T>(x: T, s: seq<T>, key: T -> int): (r: seq<T>)
    ensures |r| == |s| + 1
  {
    if s == [] then [x]
    else if key(s[|s| - 1]) < key(x) then Insert(x, s[..|s| - 1], key) + [s[|s| - 1]]
    else s + [x]
  }

  /** The sorted list that the in-place sort leaves: the elements inserted
      one after the other, first to last. */
  function SortNewest<T>(xs: seq<T>, key: T -> int): (r: seq<T>)
    ensures |r| == |xs|
  {
    if xs == [] then [] else Insert(xs[|xs| - 1], SortNewest(xs[..|xs| - 1], key), key)
  }

  /** The elements of `xs` whose key is `v`, in the order of `xs`. */
  function WithKey<T>(xs: seq<T>, key: T -> int, v: int): seq<T> {
    if xs == [] then []
    else WithKey(xs[..|xs| - 1], key, v) + (if key(xs[|xs| - 1]) == v then [xs[|xs| - 1]] else [])
  }

  lemma {:induction false} InsertElements<T>(x: T, s: seq<T>, key: T -> int)
    ensures multiset(Insert(x, s, key)) == multiset(s) + multiset{x}
    decreases |s|
  {
    if s != [] && key(s[|s| - 1]) < key(x) {
      var init := s[..|s| - 1];
      InsertElements(x, init, key);
      assert s == init + [s[|s| - 1]];
    }
  }

  lemma {:induction false} InsertSorted<T>(x: T, s: seq<T>, key: T -> int)
    requires NewestFirst(s, key)
    ensures NewestFirst(Insert(x, s, key), key)
    decreases |s|
  {
    if s != [] && key(s[|s| - 1]) < key(x) {
      var init := s[..|s| - 1];
      var last := s[|s| - 1];
      InsertSorted(x, init, key);
      InsertElements(x, init, key);
      var p := Insert(x, init, key);
      forall i | 0 <= i < |p| ensures key(p[i]) >= key(last) {
        assert p[i] in multiset(init) + multiset{x};
        if p[i] in multiset(init) {
          var k :| 0 <= k < |init| && init[k] == p[i];
          assert s[k] == init[k];
        }
      }
      assert Insert(x, s, key) == p + [last];
    }
  }

  /** Inserting keeps the order of equal keys: `x` lands after the elements
      of its own key. */
  lemma {:induction false} InsertStable<T>(x: T, s: seq<T>, key: T -> int, v: int)
    ensures WithKey(Insert(x, s, key), key, v) == WithKey(s, key, v) + (if key(x) == v then [x] else [])
    decreases |s|
  {
    if s == [] {
      assert [x][..0] == [];
    } else if key(s[|s| - 1]) < key(x) {
      var init := s[..|s| - 1];
      var last := s[|s| - 1];
      InsertStable(x, init, key, v);
      var p := Insert(x, init, key);
      assert (p + [last])[..|p + [last]| - 1] == p;
    } else {
      assert (s + [x])[..|s + [x]| - 1] == s;
    }
  }

  /** The sorted list is newest first. */
  lemma {:induction false} SortNewestSorted<T>(xs: seq<T>, key: T -> int)
    ensures NewestFirst(SortNewest(xs, key), key)
    decreases |xs|
  {
    if xs != [] {
      SortNewestSorted(xs[..|xs| - 1], key);
      InsertSorted(xs[|xs| - 1], SortNewest(xs[..|xs| - 1], key), key);
    }
  }

  /** The sorted list holds the same elements, as often. */
  lemma {:induction false} SortNewestPermutes<T>(xs: seq<T>, key: T -> int)
    ensures multiset(SortNewest(xs, key)) == multiset(xs)
    decreases |xs|
  {
    if xs != [] {
      var init := xs[..|xs| - 1];
      SortNewestPermutes(init, key);
      InsertElements(xs[|xs| - 1], SortNewest(init, key), key);
      assert xs == init + [xs[|xs| - 1]];
    }
  }

  /** The sort is stable: the elements of each key keep their order. */
  lemma {:induction false} SortNewestStable<T>(xs: seq<T>, key: T -> int, v: int)
    ensures WithKey(SortNewest(xs, key), key, v) == WithKey(xs, key, v)
    decreases |xs|
  {
    if xs != [] {
      var init := xs[..|xs| - 1];
      SortNewestStable(init, key, v);
      InsertStable(xs[|xs| - 1], SortNewest(init, key), key, v);
    }
  }

  /** A list already newest first is left as it is. */
  lemma {:induction false} SortNewestSortedIdentity<T>(xs: seq<T>, key: T -> int)
    requires NewestFirst(xs, key)
    ensures SortNewest(xs, key) == xs
    decreases |xs|
  {
    if xs != [] {
      var init := xs[..|xs| - 1];
      assert NewestFirst(init, key) by {
        forall i, j | 0 <= i < j < |init| ensures key(init[i]) >= key(init[j]) {
          assert init[i] == xs[i] && init[j] == xs[j];
        }
      }
      SortNewestSortedIdentity(init, key);
      if init != [] {
        assert key(xs[|xs| - 2]) >= key(xs[|xs| - 1]);
      }
      assert init + [xs[|xs| - 1]] == xs;
    }
  }

  lemma InsertStep<T>(x: T, s: seq<T>, j: nat, key: T -> int)
    requires 0 < j <= |s| && key(s[j - 1]) < key(x)
    ensures Insert(x, s[..j], key) == Insert(x, s[..j - 1], key) + [s[j - 1]]
  {
    assert s[..j][..j - 1] == s[..j - 1];
  }

  /** One swap step moves the boundary between the inserted part and the
      untouched tail one place left. */
  lemma InsertShift<T>(x: T, s: seq<T>, j: nat, key: T -> int)
    requires 0 < j <= |s| && key(s[j - 1]) < key(x)
    ensures Insert(x, s[..j], key) + s[j..] == Insert(x, s[..j - 1], key) + s[j - 1..]
  {
    InsertStep(x, s, j, key);
    assert s[j - 1..] == [s[j - 1]] + s[j..];
  }

  lemma InsertStop<T>(x: T, s: seq<T>, j: nat, key: T -> int)
    requires j <= |s| && (j == 0 || key(s[j - 1]) >= key(x))
    ensures Insert(x, s[..j], key) == s[..j] + [x]
  {
  }

  /** Swapping `x` with its left neighbour moves it one place left. */
  lemma SwapStep<T>(s: seq<T>, x: T, j: nat, rest: seq<T>)
    requires 0 < j <= |s|
    ensures (s[..j] + [x] + s[j..] + rest)[j - 1 := x][j := s[j - 1]] == s[..j - 1] + [x] + s[j - 1..] + rest
  {
    var l := s[..j] + [x] + s[j..] + rest;
    var r := s[..j - 1] + [x] + s[j - 1..] + rest;
    assert |l[j - 1 := x][j := s[j - 1]]| == |r|;
    forall k | 0 <= k < |r| ensures l[j - 1 := x][j := s[j - 1]][k] == r[k] {
      if k < j - 1 {
      } else if k <= j {
      } else {
        assert l[k] == r[k];
      }
    }
  }

  /** Moves `a[i]` left past the strictly older elements before it, which
      inserts it into the part `a[..i]`. */
  method Sink<T>(a: array<T>, i: nat, key: T -> int)
    requires i < a.Length
    modifies a
    ensures a[..] == Insert(old(a[i]), old(a[..i]), key) + old(a[i + 1..])
  {
    ghost var s := a[..i];
    ghost var rest := a[i + 1..];
    ghost var x := a[i];
    assert s[..i] == s && s[i..] == [];
    assert a[..] == s[..i] + [x] + s[i..] + rest;
    assert Insert(x, s, key) == Insert(x, s[..i], key) + s[i..];
    var j := i;
    while j > 0 && key(a[j - 1]) < key(a[j])
      invariant 0 <= j <= i
      invariant a[..] == s[..j] + [x] + s[j..] + rest
      invariant Insert(x, s, key) == Insert(x, s[..j], key) + s[j..]
    {
      assert a[j - 1] == s[j - 1] && a[j] == x;
      InsertShift(x, s, j, key);
      SwapStep(s, x, j, rest);
      ghost var before := a[..];
      a[j - 1], a[j] := a[j], a[j - 1];
      assert a[..] == before[j - 1 := x][j := s[j - 1]];
      j := j - 1;
    }
    assert j > 0 ==> a[j - 1] == s[j - 1] && a[j] == x;
    InsertStop(x, s, j, key);
  }

  /** Sorts `a` in place, newest first, exactly as `SortNewest` orders it. */
  method SortInPlace<T>(a: array<T>, key: T -> int)
    modifies a
    ensures a[..] == SortNewest(old(a[..]), key)
  {
    ghost var orig := a[..];
    var i := 0;
    while i < a.Length
      invariant 0 <= i <= a.Length
      invariant a[..] == SortNewest(orig[..i], key) + orig[i..]
    {
      assert a[..i] == SortNewest(orig[..i], key) && a[i] == orig[i] && a[i + 1..] == orig[i + 1..];
      Sink(a, i, key);
      assert orig[..i + 1][..i] == orig[..i];
      i := i + 1;
    }
    assert orig[..a.Length] == orig;
  }
}
