/**
 * A stable sort by an integer key: the behaviour of lodash's `_.sortBy` with one
 * iteratee. The result is ordered by key, is a permutation of the input, and keeps
 * the input order among elements with equal keys; `SortedStableUnique` shows that
 * these three facts determine the result.
 */
module StableSort {
  import opened Collections

  /** Keys never decrease along s. */
  ghost predicate SortedBy<T>(s: seq<T>, key: T -> int)
  {
    forall i, j :: 0 <= i < j < |s| ==> key(s[i]) <= key(s[j])
  }

  /** Whether an element's key is k. */
  function HasKey<T>(key: T -> int, k: int): T -> bool
  {
    x => key(x) == k
  }

  /** The elements of s whose key is k, in their order in s. */
  function WithKey<T(!new)>(s: seq<T>, key: T -> int, k: int): seq<T>
  {
    Filter(s, HasKey(key, k))
  }

  /** Places x in front of the first element of the sorted s whose key is at least x's. */
  function Insert<T>(x: T, s: seq<T>, key: T -> int): (r: seq<T>)
    requires SortedBy(s, key)
    ensures SortedBy(r, key)
    ensures multiset(r) == multiset(s) + multiset{x}
    decreases |s|
  {
    if s == [] then [x]
    else if key(x) <= key(s[0]) then [x] + s
    else
      var rest := Insert(x, s[1..], key);
      assert s == [s[0]] + s[1..];
      assert forall y :: y in rest ==> key(s[0]) <= key(y) by {
        forall y | y in rest ensures key(s[0]) <= key(y) {
          assert y in multiset(rest);
          if y != x {
            assert y in multiset(s[1..]);
            var j :| 0 <= j < |s[1..]| && s[1..][j] == y;
            assert s[1..][j] == s[j + 1];
          }
        }
      }
      SortedConcat([s[0]], rest, key);
      [s[0]] + rest
  }

  /** Sorts s by key, keeping the input order among equal keys. */
  function SortBy<T>(s: seq<T>, key: T -> int): (r: seq<T>)
    ensures SortedBy(r, key)
    ensures multiset(r) == multiset(s)
    decreases |s|
  {
    if s == [] then []
    else
      assert s == [s[0]] + s[1..];
      Insert(s[0], SortBy(s[1..], key), key)
  }

  lemma WithKeyCons<T(!new)>(x: T, s: seq<T>, key: T -> int, k: int)
    ensures WithKey([x] + s, key, k) == (if key(x) == k then [x] else []) + WithKey(s, key, k)
  {
    FilterCons(x, s, HasKey(key, k));
  }

  lemma {:induction false} InsertWithKey<T(!new)>(x: T, s: seq<T>, key: T -> int, k: int)
    requires SortedBy(s, key)
    ensures WithKey(Insert(x, s, key), key, k) == (if key(x) == k then [x] else []) + WithKey(s, key, k)
    decreases |s|
  {
    if s == [] {
      WithKeyCons(x, s, key, k);
    } else if key(x) <= key(s[0]) {
      WithKeyCons(x, s, key, k);
    } else {
      var rest := Insert(x, s[1..], key);
      assert Insert(x, s, key) == [s[0]] + rest;
      WithKeyCons(s[0], rest, key, k);
      InsertWithKey(x, s[1..], key, k);
      assert s == [s[0]] + s[1..];
      WithKeyCons(s[0], s[1..], key, k);
      var tail := WithKey(s[1..], key, k);
      if key(x) == k {
        assert key(s[0]) != k;
        assert WithKey(Insert(x, s, key), key, k) == [x] + tail;
        assert WithKey(s, key, k) == tail;
      } else if key(s[0]) == k {
        assert WithKey(Insert(x, s, key), key, k) == [s[0]] + tail;
        assert WithKey(s, key, k) == [s[0]] + tail;
      } else {
        assert WithKey(Insert(x, s, key), key, k) == tail;
        assert WithKey(s, key, k) == tail;
      }
    }
  }

  /** Stability: the elements with any one key keep their input order. */
  lemma {:induction false} SortByStable<T(!new)>(s: seq<T>, key: T -> int, k: int)
    ensures WithKey(SortBy(s, key), key, k) == WithKey(s, key, k)
    decreases |s|
  {
    if s != [] {
      SortByStable(s[1..], key, k);
      InsertWithKey(s[0], SortBy(s[1..], key), key, k);
    }
  }

  /** A sort of a sequence without repetitions has none either. */
  lemma {:induction false} SortByDistinct<T>(s: seq<T>, key: T -> int)
    requires Distinct(s)
    ensures Distinct(SortBy(s, key))
    decreases |s|
  {
    if s != [] {
      assert s == [s[0]] + s[1..];
      assert Distinct(s[1..]) by {
        forall i, j | 0 <= i < j < |s[1..]| ensures s[1..][i] != s[1..][j] {
          assert s[1..][i] == s[i + 1] && s[1..][j] == s[j + 1];
        }
      }
      SortByDistinct(s[1..], key);
      var t := SortBy(s[1..], key);
      assert s[0] !in multiset(t);
      InsertDistinct(s[0], t, key);
    }
  }

  lemma {:induction false} InsertDistinct<T>(x: T, s: seq<T>, key: T -> int)
    requires SortedBy(s, key) && Distinct(s) && x !in s
    ensures Distinct(Insert(x, s, key))
    decreases |s|
  {
    if s == [] {
    } else if key(x) <= key(s[0]) {
      DistinctConcat([x], s);
    } else {
      assert s == [s[0]] + s[1..];
      assert Distinct(s[1..]) by {
        forall i, j | 0 <= i < j < |s[1..]| ensures s[1..][i] != s[1..][j] {
          assert s[1..][i] == s[i + 1] && s[1..][j] == s[j + 1];
        }
      }
      InsertDistinct(x, s[1..], key);
      var rest := Insert(x, s[1..], key);
      assert s[0] !in multiset(rest);
      DistinctConcat([s[0]], rest);
    }
  }

  /** Two sorted sequences, every key of the first at most every key of the second, concatenate sorted. */
  lemma SortedConcat<T>(a: seq<T>, b: seq<T>, key: T -> int)
    requires SortedBy(a, key) && SortedBy(b, key)
    requires forall x, y :: x in a && y in b ==> key(x) <= key(y)
    ensures SortedBy(a + b, key)
  {
    forall i, j | 0 <= i < j < |a + b| ensures key((a + b)[i]) <= key((a + b)[j]) {
      if j < |a| {
        assert (a + b)[i] == a[i] && (a + b)[j] == a[j];
      } else if i < |a| {
        assert (a + b)[i] == a[i] && a[i] in a;
        assert (a + b)[j] == b[j - |a|] && b[j - |a|] in b;
      } else {
        assert (a + b)[i] == b[i - |a|] && (a + b)[j] == b[j - |a|];
      }
    }
  }

  /** Sequences that agree key by key are empty together. */
  lemma EmptyTogether<T(!new)>(a: seq<T>, b: seq<T>, key: T -> int)
    requires forall k :: WithKey(a, key, k) == WithKey(b, key, k)
    ensures a == [] <==> b == []
  {
    if a != [] {
      assert a[0] in WithKey(a, key, key(a[0]));
      assert WithKey(b, key, key(a[0])) != [];
    }
    if b != [] {
      assert b[0] in WithKey(b, key, key(b[0]));
      assert WithKey(a, key, key(b[0])) != [];
    }
  }

  /** Sorted sequences that agree key by key have the same key in front. */
  lemma HeadKeysAgree<T(!new)>(a: seq<T>, b: seq<T>, key: T -> int)
    requires a != [] && b != []
    requires SortedBy(a, key) && SortedBy(b, key)
    requires forall k :: WithKey(a, key, k) == WithKey(b, key, k)
    ensures key(a[0]) == key(b[0])
  {
    assert a[0] in WithKey(a, key, key(a[0]));
    assert a[0] in WithKey(b, key, key(a[0]));
    var j :| 0 <= j < |b| && b[j] == a[0];
    assert key(b[0]) <= key(a[0]);
    assert b[0] in WithKey(b, key, key(b[0]));
    assert b[0] in WithKey(a, key, key(b[0]));
    var i :| 0 <= i < |a| && a[i] == b[0];
    assert key(a[0]) <= key(b[0]);
  }

  /**
   * A stable sort is unique: two sequences ordered by key that agree, key by key,
   * on the order of their elements are equal.
   */
  lemma {:induction false} SortedStableUnique<T(!new)>(a: seq<T>, b: seq<T>, key: T -> int)
    requires SortedBy(a, key) && SortedBy(b, key)
    requires forall k :: WithKey(a, key, k) == WithKey(b, key, k)
    ensures a == b
    decreases |a| + |b|
  {
    EmptyTogether(a, b, key);
    if a != [] {
      HeadKeysAgree(a, b, key);
      var k0 := key(a[0]);
      assert a == [a[0]] + a[1..];
      assert b == [b[0]] + b[1..];
      assert a[0] == b[0] by {
        WithKeyCons(a[0], a[1..], key, k0);
        WithKeyCons(b[0], b[1..], key, k0);
        assert WithKey(a, key, k0)[0] == a[0];
      }
      forall k ensures WithKey(a[1..], key, k) == WithKey(b[1..], key, k) {
        assert WithKey(a, key, k) == WithKey(b, key, k);
        WithKeyCons(a[0], a[1..], key, k);
        WithKeyCons(b[0], b[1..], key, k);
        if key(a[0]) == k {
          assert WithKey(a, key, k) == [a[0]] + WithKey(a[1..], key, k);
          assert WithKey(b, key, k) == [a[0]] + WithKey(b[1..], key, k);
          assert WithKey(a[1..], key, k) == WithKey(a, key, k)[1..];
          assert WithKey(b[1..], key, k) == WithKey(b, key, k)[1..];
        } else {
          assert WithKey(a, key, k) == WithKey(a[1..], key, k);
          assert WithKey(b, key, k) == WithKey(b[1..], key, k);
        }
      }
      SortedStableUnique(a[1..], b[1..], key);
    }
  }

  /** Any sequence ordered by key that agrees key by key with s is SortBy(s, key). */
  lemma SortByCharacterized<T(!new)>(t: seq<T>, s: seq<T>, key: T -> int)
    requires SortedBy(t, key)
    requires forall k :: WithKey(t, key, k) == WithKey(s, key, k)
    ensures t == SortBy(s, key)
  {
    forall k ensures WithKey(t, key, k) == WithKey(SortBy(s, key), key, k) {
      SortByStable(s, key, k);
    }
    SortedStableUnique(t, SortBy(s, key), key);
  }
}
