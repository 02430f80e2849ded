/**
  A stable sort by an integer key, the behaviour of `Array.prototype.sort`
  (stable since ECMAScript 2019) with a comparator of the form
  `(a, b) => key(a) - key(b)`. The sort itself is an insertion sort; the
  lemmas show it is the only arrangement that is ordered by key and keeps
  the input order among equal keys, so any stable sort agrees with it.
 */
module StableSort {

  ghost predicate SortedBy<T>(s: seq<T>, key: T -> int) {
    forall i, j :: 0 <= i < j < |s| ==> key(s[i]) <= key(s[j])
  }

  /** The elements of `s` whose key is `k`, in their order in `s`. */
  function WithKey<T>(s: seq<T>, key: T -> int, k: int): (r: seq<T>)
    ensures |r| <= |s|
    ensures forall x :: x in r ==> key(x) == k
  {
    if |s| == 0 then []
    else if key(s[0]) == k then [s[0]] + WithKey(s[1..], key, k)
    else WithKey(s[1..], key, k)
  }

  /**
    Puts `x` in front of the first element whose key is not smaller, that
    is after every element that sorts strictly before it.
   */
  function Insert<T>(x: T, s: seq<T>, key: T -> int): (r: seq<T>)
    requires SortedBy(s, key)
    ensures SortedBy(r, key)
    ensures multiset(r) == multiset(s) + multiset{x}
    ensures |r| == |s| + 1
  {
    if |s| == 0 || key(x) <= key(s[0]) then [x] + s
    else
      var t := Insert(x, s[1..], key);
      assert s == [s[0]] + s[1..];
      forall i | 0 <= i < |t|
        ensures key(s[0]) <= key(t[i])
      {
        assert t[i] in multiset(t);
        if t[i] != x {
          assert t[i] in s[1..];
        }
      }
      [s[0]] + t
  }

  function Sort<T>(s: seq<T>, key: T -> int): (r: seq<T>)
    ensures SortedBy(r, key)
    ensures multiset(r) == multiset(s)
    ensures |r| == |s|
  {
    if |s| == 0 then []
    else
      assert s == [s[0]] + s[1..];
      Insert(s[0], Sort(s[1..], key), key)
  }

  /** Two elements come out swapped exactly when the second has the smaller key. */
  lemma SortPair<T>(a: T, b: T, key: T -> int)
    ensures key(b) < key(a) ==> Sort([a, b], key) == [b, a]
    ensures key(a) <= key(b) ==> Sort([a, b], key) == [a, b]
  {
    assert [a, b][1..] == [b];
    assert [b][1..] == [];
  }

  /** An element whose key lies past the first of two sorted elements and not past the second goes between them. */
  lemma InsertBetween<T>(x: T, a: T, b: T, key: T -> int)
    requires key(a) < key(x) <= key(b)
    ensures Insert(x, [a, b], key) == [a, x, b]
  {
    assert [a, b][1..] == [b];
  }

  /** Inserting `x` adds it in front of its own key class and leaves the others alone. */
  lemma {:induction false} InsertWithKey<T>(x: T, s: seq<T>, key: T -> int, k: int)
    requires SortedBy(s, key)
    ensures WithKey(Insert(x, s, key), key, k)
            == if key(x) == k then [x] + WithKey(s, key, k) else WithKey(s, key, k)
  {
    if |s| == 0 || key(x) <= key(s[0]) {
      assert ([x] + s)[1..] == s;
    } else {
      var t := Insert(x, s[1..], key);
      InsertWithKey(x, s[1..], key, k);
      assert ([s[0]] + t)[1..] == t;
    }
  }

  /** Stability: within every key class the sorted order is the input order. */
  lemma {:induction false} SortStable<T>(s: seq<T>, key: T -> int, k: int)
    ensures WithKey(Sort(s, key), key, k) == WithKey(s, key, k)
  {
    if |s| > 0 {
      SortStable(s[1..], key, k);
      InsertWithKey(s[0], Sort(s[1..], key), key, k);
    }
  }

  lemma WithKeyMember<T>(s: seq<T>, key: T -> int, x: T)
    requires x in s
    ensures x in WithKey(s, key, key(x))
  {
    if s[0] != x {
      WithKeyMember(s[1..], key, x);
    }
  }

  /**
    Uniqueness: two sequences ordered by `key` that agree on every key class
    are equal. So a sequence ordered by key whose key classes are those of
    `s` is exactly `Sort(s, key)`.
   */
  lemma {:induction false} SortedUnique<T>(r: seq<T>, t: seq<T>, key: T -> int)
    requires SortedBy(r, key) && SortedBy(t, key)
    requires forall k :: WithKey(r, key, k) == WithKey(t, key, k)
    ensures r == t
  {
    if |r| == 0 || |t| == 0 {
      // an element on one side would have a non-empty key class on the other
      if |r| > 0 {
        WithKeyMember(r, key, r[0]);
      } else if |t| > 0 {
        WithKeyMember(t, key, t[0]);
      }
    } else {
      var kr, kt := key(r[0]), key(t[0]);
      WithKeyMember(r, key, r[0]);
      assert r[0] in WithKey(t, key, kr);
      WithKeySubset(t, key, kr);
      WithKeyMember(t, key, t[0]);
      assert t[0] in WithKey(r, key, kt);
      WithKeySubset(r, key, kt);
      assert kr == kt;
      assert r[0] == t[0] by {
        assert WithKey(r, key, kr)[0] == r[0];
        assert WithKey(t, key, kr)[0] == t[0];
      }
      forall k
        ensures WithKey(r[1..], key, k) == WithKey(t[1..], key, k)
      {
        if k == kr {
          assert WithKey(r, key, k) == [r[0]] + WithKey(r[1..], key, k);
          assert WithKey(t, key, k) == [t[0]] + WithKey(t[1..], key, k);
          assert WithKey(r[1..], key, k) == WithKey(r, key, k)[1..];
          assert WithKey(t[1..], key, k) == WithKey(t, key, k)[1..];
        } else {
          assert WithKey(r, key, k) == WithKey(r[1..], key, k);
          assert WithKey(t, key, k) == WithKey(t[1..], key, k);
        }
      }
      SortedUnique(r[1..], t[1..], key);
      assert r == [r[0]] + r[1..] && t == [t[0]] + t[1..];
    }
  }

  lemma WithKeySubset<T>(s: seq<T>, key: T -> int, k: int)
    requires SortedBy(s, key) && |s| > 0
    ensures forall x :: x in WithKey(s, key, k) ==> x in s
    ensures WithKey(s, key, k) != [] ==> key(s[0]) <= k
  {
    if |s| > 1 && key(s[0]) != k {
      WithKeySubset(s[1..], key, k);
    }
  }

  /** Any arrangement ordered by key that keeps every key class in input order is the sort. */
  lemma SortIsTheStableSort<T>(s: seq<T>, r: seq<T>, key: T -> int)
    requires SortedBy(r, key)
    requires forall k :: WithKey(r, key, k) == WithKey(s, key, k)
    ensures r == Sort(s, key)
  {
    forall k
      ensures WithKey(r, key, k) == WithKey(Sort(s, key), key, k)
    {
      SortStable(s, key, k);
    }
    SortedUnique(r, Sort(s, key), key);
  }
}
