/** A stable sort by an integer key. Python's `list.sort(key=...)` is stable:
    elements with equal keys keep their relative order. The model of that
    library call is insertion sort, with its three properties proved:
    the result is ordered by the key, is a permutation of the input, and
    keeps, for every key value, the input's order of the elements carrying it. */
module StableSort {

  /** Ordered by `key`, non-decreasing. */
  ghost predicate SortedBy<T>(s: seq<T>, key: T -> int) {
    forall i, j :: 0 <= i < j < |s| ==> key(s[i]) <= key(s[j])
  }

  /** The elements of `s` whose key is `v`, in the order of `s`. */
  function WithKey<T>(s: seq<T>, key: T -> int, v: int): seq<T> {
    if s == [] then []
    else WithKey(s[..|s| - 1], key, v) + (if key(s[|s| - 1]) == v then [s[|s| - 1]] else [])
  }

  /** Places `x` after every element of `t` whose key is at most `x`'s. */
  function Insert<T>(t: seq<T>, x: T, key: T -> int): (r: seq<T>)
    ensures |r| == |t| + 1
    ensures multiset(r) == multiset(t) + multiset{x}
  {
    if t == [] then [x]
    else if key(t[|t| - 1]) <= key(x) then t + [x]
    else
      assert t == t[..|t| - 1] + [t[|t| - 1]];
      Insert(t[..|t| - 1], x, key) + [t[|t| - 1]]
  }

  /** Insertion sort, taking the elements of `s` from left to right: a
      permutation of `s`. `SortByIsStableSort` proves the rest of the library
      sort's promise. */
  function SortBy<T>(s: seq<T>, key: T -> int): (r: seq<T>)
    ensures |r| == |s|
    ensures multiset(r) == multiset(s)
  {
    if s == [] then []
    else
      assert s == s[..|s| - 1] + [s[|s| - 1]];
      Insert(SortBy(s[..|s| - 1], key), s[|s| - 1], key)
  }

  lemma {:induction false} WithKeyAppend<T>(a: seq<T>, b: seq<T>, key: T -> int, v: int)
    ensures WithKey(a + b, key, v) == WithKey(a, key, v) + WithKey(b, key, v)
    decreases |b|
  {
    if b == [] {
      assert a + b == a;
    } else {
      var b' := b[..|b| - 1];
      assert (a + b)[..|a + b| - 1] == a + b';
      WithKeyAppend(a, b', key, v);
    }
  }

  /** An upper bound on the keys of `t` and of `x` bounds the keys after insertion. */
  lemma InsertBounded<T>(t: seq<T>, x: T, key: T -> int, b: int)
    requires forall y :: y in t ==> key(y) <= b
    requires key(x) <= b
    ensures forall y :: y in Insert(t, x, key) ==> key(y) <= b
  {
    forall y | y in Insert(t, x, key) ensures key(y) <= b {
      assert y in multiset(Insert(t, x, key));
      assert y == x || y in multiset(t);
    }
  }

  lemma {:induction false} InsertSorted<T>(t: seq<T>, x: T, key: T -> int)
    requires SortedBy(t, key)
    ensures SortedBy(Insert(t, x, key), key)
    decreases |t|
  {
    if t != [] && key(t[|t| - 1]) > key(x) {
      var t', last := t[..|t| - 1], t[|t| - 1];
      assert forall y :: y in t' ==> key(y) <= key(last) by {
        forall y | y in t' ensures key(y) <= key(last) {
          var i :| 0 <= i < |t'| && t'[i] == y;
          assert t[i] == y;
        }
      }
      assert SortedBy(t', key) by {
        forall i, j | 0 <= i < j < |t'| ensures key(t'[i]) <= key(t'[j]) {
          assert t'[i] == t[i] && t'[j] == t[j];
        }
      }
      InsertSorted(t', x, key);
      InsertBounded(t', x, key, key(last));
      SortedAppend(Insert(t', x, key), last, key);
    }
  }

  /** Appending an element whose key bounds every key of a sorted list keeps it sorted. */
  lemma SortedAppend<T>(u: seq<T>, last: T, key: T -> int)
    requires SortedBy(u, key)
    requires forall y :: y in u ==> key(y) <= key(last)
    ensures SortedBy(u + [last], key)
  {
    forall i, j | 0 <= i < j < |u + [last]| ensures key((u + [last])[i]) <= key((u + [last])[j]) {
      assert (u + [last])[i] == u[i] && u[i] in u;
      if j < |u| {
        assert (u + [last])[j] == u[j];
      }
    }
  }

  lemma {:induction false} InsertStable<T>(t: seq<T>, x: T, key: T -> int, v: int)
    ensures WithKey(Insert(t, x, key), key, v) == WithKey(t, key, v) + WithKey([x], key, v)
    decreases |t|
  {
    if t == [] {
      assert [x][..0] == [];
    } else if key(t[|t| - 1]) <= key(x) {
      WithKeyAppend(t, [x], key, v);
    } else {
      var t', last := t[..|t| - 1], t[|t| - 1];
      assert t == t' + [last];
      assert [x][..0] == [] && [last][..0] == [];
      InsertStable(t', x, key, v);
      WithKeyAppend(Insert(t', x, key), [last], key, v);
      WithKeyAppend(t', [last], key, v);
    }
  }

  /** The library sort's promise: ordered, a permutation, and stable. */
  lemma {:induction false} SortByIsStableSort<T>(s: seq<T>, key: T -> int)
    ensures SortedBy(SortBy(s, key), key)
    ensures forall v :: WithKey(SortBy(s, key), key, v) == WithKey(s, key, v)
    decreases |s|
  {
    if s != [] {
      var s', x := s[..|s| - 1], s[|s| - 1];
      assert s == s' + [x];
      SortByIsStableSort(s', key);
      InsertSorted(SortBy(s', key), x, key);
      forall v ensures WithKey(SortBy(s, key), key, v) == WithKey(s, key, v) {
        InsertStable(SortBy(s', key), x, key, v);
        WithKeyAppend(s', [x], key, v);
      }
    }
  }
}
