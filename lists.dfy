/** Array operations the components use on lists of records: `filter` and
    the stable `sort` of `Array.prototype.sort` with a numeric comparator
    `(a, b) => key(a) - key(b)`. */
module Lists {

  /** Concatenation regrouped. */
  lemma Regroup<T>(a: seq<T>, b: seq<T>, c: seq<T>)
    ensures a + (b + c) == (a + b) + c
  {
  }

  /** `s.filter(p)`. */
  function Filter<T>(s: seq<T>, p: T -> bool): (r: seq<T>)
    ensures |r| <= |s|
    ensures forall k :: 0 <= k < |r| ==> p(r[k])
    decreases |s|
  {
    if s == [] then []
    else if p(s[0]) then [s[0]] + Filter(s[1..], p)
    else Filter(s[1..], p)
  }

  lemma {:induction false} FilterMembers<T>(s: seq<T>, p: T -> bool, x: T)
    ensures x in Filter(s, p) <==> x in s && p(x)
    decreases |s|
  {
    if s != [] {
      FilterMembers(s[1..], p, x);
      assert x in s <==> x == s[0] || x in s[1..];
    }
  }

  /** Filtering a concatenation filters each part, keeping their order. */
  lemma {:induction false} FilterAppend<T>(a: seq<T>, b: seq<T>, p: T -> bool)
    ensures Filter(a + b, p) == Filter(a, p) + Filter(b, p)
    decreases |a|
  {
    if a == [] {
      assert a + b == b;
    } else {
      assert (a + b)[0] == a[0];
      assert (a + b)[1..] == a[1..] + b;
      FilterAppend(a[1..], b, p);
    }
  }

  lemma {:induction false} FilterKeepsAll<T>(s: seq<T>, p: T -> bool)
    requires forall k :: 0 <= k < |s| ==> p(s[k])
    ensures Filter(s, p) == s
    decreases |s|
  {
    if s != [] {
      FilterKeepsAll(s[1..], p);
    }
  }

  lemma {:induction false} FilterDropsAll<T>(s: seq<T>, p: T -> bool)
    requires forall k :: 0 <= k < |s| ==> !p(s[k])
    ensures Filter(s, p) == []
    decreases |s|
  {
    if s != [] {
      FilterDropsAll(s[1..], p);
    }
  }

  // ---------------------------------------------------------------------
  // Stable sort

  predicate SortedBy<T>(s: seq<T>, key: T -> int) {
    forall i, j :: 0 <= i < j < |s| ==> key(s[i]) <= key(s[j])
  }

  /** `x` goes before the first element whose key is not smaller, so it
      stays ahead of the elements with its own key. */
  function Insert<T>(x: T, t: seq<T>, key: T -> int): (r: seq<T>)
    ensures multiset(r) == multiset(t) + multiset{x}
    decreases |t|
  {
    if t == [] || key(x) <= key(t[0]) then [x] + t
    else
      assert t == [t[0]] + t[1..];
      [t[0]] + Insert(x, t[1..], key)
  }

  /** The copy sorted by ascending key; elements with equal keys keep their
      order. */
  function SortBy<T>(s: seq<T>, key: T -> int): (r: seq<T>)
    ensures multiset(r) == multiset(s)
    decreases |s|
  {
    if s == [] then []
    else
      assert s == [s[0]] + s[1..];
      Insert(s[0], SortBy(s[1..], key), key)
  }

  lemma {:induction false} InsertSorted<T>(x: T, t: seq<T>, key: T -> int)
    requires SortedBy(t, key)
    ensures SortedBy(Insert(x, t, key), key)
    ensures Insert(x, t, key) != [] && (Insert(x, t, key)[0] == x || (t != [] && Insert(x, t, key)[0] == t[0]))
    decreases |t|
  {
    if t == [] || key(x) <= key(t[0]) {
      SortedCons(x, t, key);
    } else {
      InsertSorted(x, t[1..], key);
      var rest := Insert(x, t[1..], key);
      assert key(t[0]) <= key(rest[0]);
      SortedCons(t[0], rest, key);
      assert Insert(x, t, key) == [t[0]] + rest;
    }
  }

  /** An element no larger than the head of a sorted list goes in front. */
  lemma SortedCons<T>(y: T, rest: seq<T>, key: T -> int)
    requires SortedBy(rest, key) && (rest == [] || key(y) <= key(rest[0]))
    ensures SortedBy([y] + rest, key)
  {
    var r := [y] + rest;
    forall i, j | 0 <= i < j < |r| ensures key(r[i]) <= key(r[j]) {
      if i == 0 {
        assert r[j] == rest[j - 1];
        assert key(rest[0]) <= key(rest[j - 1]) || j == 1;
      } else {
        assert r[i] == rest[i - 1] && r[j] == rest[j - 1];
      }
    }
  }

  /** The result is sorted by ascending key. */
  lemma {:induction false} SortBySorted<T>(s: seq<T>, key: T -> int)
    ensures SortedBy(SortBy(s, key), key)
    decreases |s|
  {
    if s != [] {
      SortBySorted(s[1..], key);
      InsertSorted(s[0], SortBy(s[1..], key), key);
    }
  }

  /** The test for elements whose key is `v`. */
  function KeyIs<T>(key: T -> int, v: int): T -> bool {
    y => key(y) == v
  }

  /** Inserting `x` adds it in front of the elements with key `v`, if `x`
      has that key, and leaves them alone otherwise. */
  lemma {:induction false} InsertStable<T>(x: T, t: seq<T>, key: T -> int, v: int)
    requires SortedBy(t, key)
    ensures Filter(Insert(x, t, key), KeyIs(key, v)) ==
      (if key(x) == v then [x] else []) + Filter(t, KeyIs(key, v))
    decreases |t|
  {
    var p := KeyIs(key, v);
    if t == [] || key(x) <= key(t[0]) {
      FilterCons(x, t, p);
    } else {
      var rest := Insert(x, t[1..], key);
      InsertStable(x, t[1..], key, v);
      assert Insert(x, t, key) == [t[0]] + rest;
      assert !(p(t[0]) && p(x));
      PastHead(t[0], x, rest, t[1..], p);
      assert [t[0]] + t[1..] == t;
    }
  }

  /** Moving an element past a head that the filter does not keep
      together with it leaves the filtered list unchanged. */
  lemma PastHead<T>(y: T, x: T, rest: seq<T>, tail: seq<T>, p: T -> bool)
    requires !(p(y) && p(x))
    requires Filter(rest, p) == (if p(x) then [x] else []) + Filter(tail, p)
    ensures Filter([y] + rest, p) == (if p(x) then [x] else []) + Filter([y] + tail, p)
  {
    FilterCons(y, rest, p);
    FilterCons(y, tail, p);
    var head: seq<T> := if p(y) then [y] else [];
    var moved: seq<T> := if p(x) then [x] else [];
    assert head == [] || moved == [];
    assert head + (moved + Filter(tail, p)) == moved + (head + Filter(tail, p));
  }

  /** Filtering a list with a known first element. */
  lemma FilterCons<T>(y: T, s: seq<T>, p: T -> bool)
    ensures Filter([y] + s, p) == (if p(y) then [y] else []) + Filter(s, p)
  {
    assert ([y] + s)[0] == y && ([y] + s)[1..] == s;
  }

  /** The sort is stable: the elements with any one key come out in the
      order they went in. */
  lemma {:induction false} SortByStable<T>(s: seq<T>, key: T -> int, v: int)
    ensures Filter(SortBy(s, key), KeyIs(key, v)) == Filter(s, KeyIs(key, v))
    decreases |s|
  {
    if s != [] {
      var p := KeyIs(key, v);
      SortByStable(s[1..], key, v);
      SortBySorted(s[1..], key);
      InsertStable(s[0], SortBy(s[1..], key), key, v);
      FilterAppend([s[0]], s[1..], p);
      assert [s[0]] + s[1..] == s;
    }
  }
}
