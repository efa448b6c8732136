/** Stable sorting by a real-valued key: `Array.prototype.sort` called with a
    comparator `(a, b) => key(a) - key(b)`, which since ES2019 keeps elements
    with equal keys in their original order.  A descending sort is a sort by
    the negated key. */
module Sorting {

  predicate SortedBy<T>(s: seq<T>, key: T -> real) {
    forall i, j :: 0 <= i < j < |s| ==> key(s[i]) <= key(s[j])
  }

  /** The elements of s whose key is v, in their order in s. */
  function KeyClass<T>(s: seq<T>, key: T -> real, v: real): seq<T> {
    if s == [] then []
    else (if key(s[0]) == v then [s[0]] else []) + KeyClass(s[1..], key, v)
  }

  /** Inserts x before the first element whose key is not smaller than x's. */
  function Insert<T>(x: T, s: seq<T>, key: T -> real): (r: seq<T>)
    ensures multiset(r) == multiset(s) + multiset{x} && |r| == |s| + 1
  {
    if s == [] || key(x) <= key(s[0]) then [x] + s
    else
      assert s == [s[0]] + s[1..];
      [s[0]] + Insert(x, s[1..], key)
  }

  /** A sorted sequence stays sorted when an element no larger than all of
      its elements is put in front. */
  lemma SortedCons<T>(y: T, r: seq<T>, key: T -> real)
    requires SortedBy(r, key)
    requires forall k :: 0 <= k < |r| ==> key(y) <= key(r[k])
    ensures SortedBy([y] + r, key)
  {
    var t := [y] + r;
    forall i, j | 0 <= i < j < |t| ensures key(t[i]) <= key(t[j]) {
      assert t[j] == r[j - 1];
      if i > 0 {
        assert t[i] == r[i - 1];
      }
    }
  }

  lemma {:induction false} InsertSorted<T>(x: T, s: seq<T>, key: T -> real)
    requires SortedBy(s, key)
    ensures SortedBy(Insert(x, s, key), key)
  {
    if s == [] || key(x) <= key(s[0]) {
      SortedCons(x, s, key);
    } else {
      var rest := Insert(x, s[1..], key);
      InsertSorted(x, s[1..], key);
      forall k | 0 <= k < |rest| ensures key(s[0]) <= key(rest[k]) {
        var y := rest[k];
        assert y in multiset(rest);
        if y != x {
          assert y in multiset(s[1..]);
          var m :| 0 <= m < |s[1..]| && s[1..][m] == y;
          assert s[m + 1] == y;
        }
      }
      SortedCons(s[0], rest, key);
    }
  }

  /** Insertion sort, stable: x is placed ahead of the equal-keyed elements
      that came after it. */
  function SortBy<T>(s: seq<T>, key: T -> real): (r: seq<T>)
    ensures multiset(r) == multiset(s) && |r| == |s|
    ensures SortedBy(r, key)
  {
    if s == [] then []
    else
      assert s == [s[0]] + s[1..];
      InsertSorted(s[0], SortBy(s[1..], key), key);
      Insert(s[0], SortBy(s[1..], key), key)
  }

  lemma KeyClassCons<T>(y: T, t: seq<T>, key: T -> real, v: real)
    ensures KeyClass([y] + t, key, v) == (if key(y) == v then [y] else []) + KeyClass(t, key, v)
  {
    assert ([y] + t)[0] == y && ([y] + t)[1..] == t;
  }

  /** Putting y in front of two sequences whose key-v classes differ by a
      prefix keeps that difference, provided y does not itself belong to the
      prefix's class. */
  lemma KeyClassConsBoth<T>(y: T, r: seq<T>, t: seq<T>, key: T -> real, v: real, mine: seq<T>)
    requires KeyClass(r, key, v) == mine + KeyClass(t, key, v)
    requires mine == [] || key(y) != v
    ensures KeyClass([y] + r, key, v) == mine + KeyClass([y] + t, key, v)
  {
    KeyClassCons(y, r, key, v);
    KeyClassCons(y, t, key, v);
  }

  lemma {:induction false} InsertKeyClass<T>(x: T, s: seq<T>, key: T -> real, v: real)
    ensures KeyClass(Insert(x, s, key), key, v) == (if key(x) == v then [x] else []) + KeyClass(s, key, v)
  {
    if s == [] || key(x) <= key(s[0]) {
      KeyClassCons(x, s, key, v);
    } else {
      var rest := Insert(x, s[1..], key);
      InsertKeyClass(x, s[1..], key, v);
      KeyClassConsBoth(s[0], rest, s[1..], key, v, if key(x) == v then [x] else []);
      assert s == [s[0]] + s[1..];
    }
  }

  /** Stability: for every key, the elements carrying it come out of the
      sort in the order they went in. */
  lemma {:induction false} SortStable<T>(s: seq<T>, key: T -> real, v: real)
    ensures KeyClass(SortBy(s, key), key, v) == KeyClass(s, key, v)
  {
    if s != [] {
      SortStable(s[1..], key, v);
      InsertKeyClass(s[0], SortBy(s[1..], key), key, v);
    }
  }

  /** No two different elements of s share a key. */
  ghost predicate DistinctKeys<T>(s: seq<T>, key: T -> real) {
    forall i, j :: 0 <= i < |s| && 0 <= j < |s| && key(s[i]) == key(s[j]) ==> s[i] == s[j]
  }

  /** Two sorted arrangements of one multiset start with the same element
      when no two different elements share a key. */
  lemma SameHead<T>(a: seq<T>, b: seq<T>, key: T -> real)
    requires a != [] && b != []
    requires SortedBy(a, key) && SortedBy(b, key)
    requires multiset(a) == multiset(b)
    requires DistinctKeys(a, key)
    ensures a[0] == b[0]
  {
    assert a[0] in multiset(b) && b[0] in multiset(a);
    var j :| 0 <= j < |b| && b[j] == a[0];
    var i :| 0 <= i < |a| && a[i] == b[0];
    assert key(b[0]) <= key(b[j]);
    assert key(a[0]) <= key(a[i]);
  }

  lemma TailSorted<T>(a: seq<T>, key: T -> real)
    requires a != [] && SortedBy(a, key)
    ensures SortedBy(a[1..], key)
  {
    var t := a[1..];
    forall i, j | 0 <= i < j < |t| ensures key(t[i]) <= key(t[j]) {
      assert t[i] == a[i + 1] && t[j] == a[j + 1];
    }
  }

  lemma TailDistinct<T>(a: seq<T>, key: T -> real)
    requires a != [] && DistinctKeys(a, key)
    ensures DistinctKeys(a[1..], key)
  {
    var t := a[1..];
    forall i, j | 0 <= i < |t| && 0 <= j < |t| && key(t[i]) == key(t[j]) ensures t[i] == t[j] {
      assert t[i] == a[i + 1] && t[j] == a[j + 1];
    }
  }

  /** When no two different elements share a key, a sorted arrangement of a
      multiset is unique. */
  lemma {:induction false} SortedUnique<T>(a: seq<T>, b: seq<T>, key: T -> real)
    requires SortedBy(a, key) && SortedBy(b, key)
    requires multiset(a) == multiset(b)
    requires DistinctKeys(a, key)
    ensures a == b
    decreases |a|
  {
    assert |a| == |multiset(a)| == |multiset(b)| == |b|;
    if a != [] {
      SameHead(a, b, key);
      assert a == [a[0]] + a[1..] && b == [b[0]] + b[1..];
      assert multiset(a[1..]) == multiset(a) - multiset{a[0]};
      assert multiset(b[1..]) == multiset(b) - multiset{b[0]};
      TailSorted(a, key);
      TailSorted(b, key);
      TailDistinct(a, key);
      SortedUnique(a[1..], b[1..], key);
    }
  }

  /** Sorting two permutations of each other gives the same sequence when
      no two different elements share a key: the result ignores input order. */
  lemma SortIgnoresOrder<T>(a: seq<T>, b: seq<T>, key: T -> real)
    requires multiset(a) == multiset(b)
    requires DistinctKeys(a, key)
    ensures SortBy(a, key) == SortBy(b, key)
  {
    var sa := SortBy(a, key);
    forall i, j | 0 <= i < |sa| && 0 <= j < |sa| && key(sa[i]) == key(sa[j])
      ensures sa[i] == sa[j]
    {
      assert sa[i] in multiset(a) && sa[j] in multiset(a);
      var p :| 0 <= p < |a| && a[p] == sa[i];
      var q :| 0 <= q < |a| && a[q] == sa[j];
    }
    SortedUnique(sa, SortBy(b, key), key);
  }
}
