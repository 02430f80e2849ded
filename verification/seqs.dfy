/** Order-preserving filtering and counting over sequences, JavaScript's `filter` and friends. */
module Seqs {

  /** `r` is `s` with some elements removed and the rest in their original order. */
  ghost predicate SubsequenceOf<T>(r: seq<T>, s: seq<T>)
    decreases |s|
  {
    if |r| == 0 then true
    else if |s| == 0 then false
    else (r[0] == s[0] && SubsequenceOf(r[1..], s[1..])) || SubsequenceOf(r, s[1..])
  }

  /** Appending one element to a sequence keeps its subsequences, with or without that element. */
  lemma {:induction false} SubsequenceSnoc<T>(r: seq<T>, s: seq<T>, x: T)
    requires SubsequenceOf(r, s)
    ensures SubsequenceOf(r, s + [x])
    ensures SubsequenceOf(r + [x], s + [x])
    decreases |s|
  {
    if |s| == 0 {
      assert r + [x] == [x] == s + [x];
      assert SubsequenceOf([x][1..], (s + [x])[1..]);
    } else {
      assert (s + [x])[1..] == s[1..] + [x];
      if |r| == 0 {
        SubsequenceSnoc(r, s[1..], x);
        assert r + [x] == [x];
      } else if r[0] == s[0] && SubsequenceOf(r[1..], s[1..]) {
        SubsequenceSnoc(r[1..], s[1..], x);
        assert (r + [x])[1..] == r[1..] + [x];
      } else {
        SubsequenceSnoc(r, s[1..], x);
      }
    }
  }

  /** `s.filter(p).length`: how many elements of `s` satisfy `p`, repeats counted. */
  function Count<T(!new)>(s: seq<T>, p: T -> bool): (n: nat)
    ensures n <= |s|
    ensures n == 0 <==> forall x :: x in s ==> !p(x)
  {
    if |s| == 0 then 0
    else (if p(s[0]) then 1 else 0) + Count(s[1..], p)
  }

  /**
    `s.filter(keep)`: the elements satisfying `keep`, in their order in `s`,
    each as often as it occurs there.
   */
  function Filter<T(!new)>(s: seq<T>, keep: T -> bool): (r: seq<T>)
    ensures SubsequenceOf(r, s)
    ensures forall x :: x in r <==> x in s && keep(x)
    ensures |r| == Count(s, keep)
  {
    if |s| == 0 then []
    else if keep(s[0]) then [s[0]] + Filter(s[1..], keep)
    else Filter(s[1..], keep)
  }

  /** A subsequence made only of kept elements has at most as many elements as the filter. */
  lemma {:induction false} KeptSubsequenceBound<T(!new)>(r: seq<T>, s: seq<T>, keep: T -> bool)
    requires SubsequenceOf(r, s)
    requires forall i :: 0 <= i < |r| ==> keep(r[i])
    ensures |r| <= Count(s, keep)
    decreases |s|
  {
    if |r| > 0 && |s| > 0 {
      if r[0] == s[0] && SubsequenceOf(r[1..], s[1..]) {
        KeptSubsequenceBound(r[1..], s[1..], keep);
      } else {
        KeptSubsequenceBound(r, s[1..], keep);
      }
    }
  }

  /**
    The filter is the only subsequence of kept elements that keeps as many
    elements as satisfy `keep`: its contract determines it.
   */
  lemma {:induction false} FilterUnique<T(!new)>(r: seq<T>, s: seq<T>, keep: T -> bool)
    requires SubsequenceOf(r, s)
    requires forall i :: 0 <= i < |r| ==> keep(r[i])
    requires |r| == Count(s, keep)
    ensures r == Filter(s, keep)
    decreases |s|
  {
    if |s| > 0 && |r| > 0 {
      if r[0] == s[0] && SubsequenceOf(r[1..], s[1..]) {
        FilterUnique(r[1..], s[1..], keep);
        assert r == [r[0]] + r[1..];
      } else {
        KeptSubsequenceBound(r, s[1..], keep);
        FilterUnique(r, s[1..], keep);
      }
    }
  }

  /** Filtering where every element is kept changes nothing. */
  lemma {:induction false} FilterAll<T(!new)>(s: seq<T>, keep: T -> bool)
    requires forall x :: x in s ==> keep(x)
    ensures Filter(s, keep) == s
  {
    if |s| > 0 {
      assert s[0] in s;
      FilterAll(s[1..], keep);
    }
  }

  /** Filtering a concatenation filters each part. */
  lemma {:induction false} FilterConcat<T(!new)>(a: seq<T>, b: seq<T>, keep: T -> bool)
    ensures Filter(a + b, keep) == Filter(a, keep) + Filter(b, keep)
  {
    if |a| == 0 {
      assert a + b == b;
    } else {
      assert (a + b)[1..] == a[1..] + b;
      FilterConcat(a[1..], b, keep);
    }
  }

  /** A filter and the filter by the opposite test split the list between them. */
  lemma {:induction false} FilterPartition<T(!new)>(s: seq<T>, p: T -> bool, q: T -> bool)
    requires forall x :: q(x) == !p(x)
    ensures |Filter(s, p)| + |Filter(s, q)| == |s|
  {
    if |s| > 0 {
      FilterPartition(s[1..], p, q);
    }
  }
}
