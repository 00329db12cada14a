/**
 * `Array.prototype.sort` with a comparator `(a, b) => score(b) - score(a)`:
 * highest score first, elements of equal score kept in their input order.
 */
module Sorting {
  import opened Base

  /** An element paired with the number the comparator reads from it. */
  datatype Scored<T> = Scored(item: T, score: int)

  predicate NonIncreasing<T>(s: seq<Scored<T>>)
  {
    forall i, j :: 0 <= i < j < |s| ==> s[i].score >= s[j].score
  }

  /** Places `x` before the first element whose score is not above its own. */
  function Insert<T>(x: Scored<T>, s: seq<Scored<T>>): (r: seq<Scored<T>>)
    requires NonIncreasing(s)
    ensures NonIncreasing(r)
    ensures multiset(r) == multiset(s) + multiset{x}
    ensures |r| == |s| + 1 && (r[0] == x || (s != [] && r[0] == s[0]))
    decreases |s|
  {
    if s == [] then [x]
    else if s[0].score > x.score then
      var rest := Insert(x, s[1..]);
      ConsNonIncreasing(s[0], rest);
      assert s == [s[0]] + s[1..];
      [s[0]] + rest
    else
      ConsNonIncreasing(x, s);
      [x] + s
  }

  /** An element scoring at least the first of a sorted array may go in front of it. */
  lemma ConsNonIncreasing<T>(x: Scored<T>, s: seq<Scored<T>>)
    requires NonIncreasing(s) && (s != [] ==> x.score >= s[0].score)
    ensures NonIncreasing([x] + s)
  {
    var r := [x] + s;
    forall i, j | 0 <= i < j < |r|
      ensures r[i].score >= r[j].score
    {
      if i == 0 && j > 1 {
        assert r[j] == s[j - 1];
      }
    }
  }

  /** The sorted array: non-increasing scores, the same elements. */
  function SortDesc<T>(s: seq<Scored<T>>): (r: seq<Scored<T>>)
    ensures NonIncreasing(r)
    ensures multiset(r) == multiset(s)
    ensures |r| == |s|
    decreases |s|
  {
    if s == [] then []
    else
      assert s == [s[0]] + s[1..];
      Insert(s[0], SortDesc(s[1..]))
  }

  /** Sorting an array that is already in order leaves it unchanged. */
  lemma {:induction false} SortDescOfSorted<T>(s: seq<Scored<T>>)
    requires NonIncreasing(s)
    ensures SortDesc(s) == s
    decreases |s|
  {
    if s != [] {
      SortDescOfSorted(s[1..]);
      assert s == [s[0]] + s[1..];
    }
  }

  /** The elements without their scores. */
  function Items<T>(s: seq<Scored<T>>): (r: seq<T>)
    ensures |r| == |s|
    ensures forall i :: 0 <= i < |s| ==> r[i] == s[i].item
  {
    seq(|s|, i requires 0 <= i < |s| => s[i].item)
  }

  /** No two elements carry the same item. */
  predicate DistinctItems<T(==)>(s: seq<Scored<T>>)
  {
    forall i, j :: 0 <= i < j < |s| ==> s[i].item != s[j].item
  }

  /** Reordering keeps items distinct. */
  lemma PermutationKeepsDistinctItems<T(!new)>(a: seq<Scored<T>>, b: seq<Scored<T>>)
    requires DistinctItems(a) && multiset(a) == multiset(b)
    ensures DistinctItems(b)
  {
    forall i, j | 0 <= i < j < |b|
      ensures b[i].item != b[j].item
    {
      assert b[i] in multiset(a) && b[j] in multiset(a);
      var p :| 0 <= p < |a| && a[p] == b[i];
      var q :| 0 <= q < |a| && a[q] == b[j];
      NoDupIffSingle(a);
      TwiceCounted(b, i, j);
    }
  }

  /** Two equal elements at different positions count twice. */
  lemma TwiceCounted<T>(b: seq<T>, i: nat, j: nat)
    requires i < j < |b|
    ensures b[i] == b[j] ==> multiset(b)[b[i]] >= 2
  {
    assert b == b[..j] + b[j..];
    assert b[i] in b[..j] && b[j] in b[j..];
  }

  /**
   * The first `n` elements of a sorted array with distinct items: distinct
   * items, and an element left out means `n` were kept, none scoring below it.
   */
  lemma TopOf<T(!new)>(s: seq<Scored<T>>, n: nat)
    requires NonIncreasing(s) && DistinctItems(s)
    ensures NoDup(Items(Take(s, n)))
    ensures forall p :: 0 <= p < |s| && s[p].item !in Items(Take(s, n)) ==>
      |Take(s, n)| == n && forall q :: 0 <= q < n ==> s[q].score >= s[p].score
  {
    var r := Items(Take(s, n));
    forall p | 0 <= p < |s| && s[p].item !in r
      ensures |Take(s, n)| == n && forall q :: 0 <= q < n ==> s[q].score >= s[p].score
    {
    }
  }
}
