/** Small value types and sequence helpers shared by every module of the model. */
module Base {

  datatype Option<T> = None | Some(value: T)

  datatype Result<T, E> = Success(value: T) | Failure(error: E)

  /** `Math.min` on two integers. */
  function Min(a: int, b: int): int
  {
    if a <= b then a else b
  }

  /** No element occurs twice. */
  predicate NoDup<T(==,!new)>(s: seq<T>)
  {
    forall i, j :: 0 <= i < j < |s| ==> s[i] != s[j]
  }

  /** The JavaScript idiom `if (s.indexOf(x) === -1) s.push(x)`. */
  function AppendAbsent<T(==,!new)>(s: seq<T>, x: T): (r: seq<T>)
    ensures x in r
    ensures forall y :: y in r <==> y in s || y == x
    ensures NoDup(s) ==> NoDup(r)
    ensures x in s ==> r == s
    ensures x !in s ==> |r| == |s| + 1 && r[..|s|] == s
  {
    if x in s then s else s + [x]
  }

  /** The elements of `s` in the order of their first occurrence, each once. */
  function Dedup<T(==,!new)>(s: seq<T>): (r: seq<T>)
    ensures NoDup(r)
    ensures forall x :: x in r <==> x in s
    ensures |r| <= |s|
    decreases |s|
  {
    if s == [] then [] else AppendAbsent(Dedup(s[..|s| - 1]), s[|s| - 1])
  }

  lemma DedupSnoc<T(!new)>(s: seq<T>, x: T)
    ensures Dedup(s + [x]) == AppendAbsent(Dedup(s), x)
  {
    assert (s + [x])[..|s|] == s;
  }

  /** A sequence without repetitions is its own first-occurrence list. */
  lemma {:induction false} DedupOfDistinct<T(!new)>(s: seq<T>)
    requires NoDup(s)
    ensures Dedup(s) == s
  {
    if s != [] {
      var p := s[..|s| - 1];
      assert NoDup(p);
      DedupOfDistinct(p);
      assert s == p + [s[|s| - 1]];
      assert s[|s| - 1] !in p;
    }
  }

  /** The first `n` elements, or all of them when there are fewer. */
  function Take<T>(s: seq<T>, n: nat): (r: seq<T>)
    ensures |r| == Min(n, |s|)
    ensures forall i :: 0 <= i < |r| ==> r[i] == s[i]
  {
    if |s| <= n then s else s[..n]
  }

  /** Every element of `s` that is not in `t`, in the order of `s`. */
  function FilterAbsent<T(==,!new)>(s: seq<T>, t: seq<T>): (r: seq<T>)
    ensures forall x :: x in r <==> x in s && x !in t
    ensures |r| <= |s|
    decreases |s|
  {
    if s == [] then []
    else
      var p := FilterAbsent(s[..|s| - 1], t);
      var x := s[|s| - 1];
      if x in t then p else p + [x]
  }

  /** The concatenation of a sequence of sequences. */
  function Flatten<T>(ss: seq<seq<T>>): (r: seq<T>)
    decreases |ss|
  {
    if ss == [] then [] else Flatten(ss[..|ss| - 1]) + ss[|ss| - 1]
  }

  lemma FlattenSnoc<T>(ss: seq<seq<T>>, s: seq<T>)
    ensures Flatten(ss + [s]) == Flatten(ss) + s
  {
    assert (ss + [s])[..|ss|] == ss;
  }

  /** Appending a list without repetitions to a first-occurrence list adds its new elements, in order. */
  lemma {:induction false} DedupAppendDistinct<T(!new)>(s: seq<T>, t: seq<T>)
    requires NoDup(t)
    ensures Dedup(s + t) == Dedup(s) + FilterAbsent(t, s)
    decreases |t|
  {
    if t == [] {
      assert s + t == s;
    } else {
      var q, x := t[..|t| - 1], t[|t| - 1];
      assert NoDup(q) && x !in q;
      DedupAppendDistinct(s, q);
      SplitLast(s, t);
      DedupSnoc(s + q, x);
      AppendFresh(Dedup(s), FilterAbsent(q, s), x, s, q);
    }
  }

  lemma SplitLast<T>(s: seq<T>, t: seq<T>)
    requires t != []
    ensures t == t[..|t| - 1] + [t[|t| - 1]]
    ensures s + t == (s + t[..|t| - 1]) + [t[|t| - 1]]
  {
    assert t == t[..|t| - 1] + [t[|t| - 1]];
  }

  /** One step of DedupAppendDistinct: the new last element `x` of `t`. */
  lemma AppendFresh<T(!new)>(d: seq<T>, f: seq<T>, x: T, s: seq<T>, q: seq<T>)
    requires forall y :: y in d <==> y in s
    requires f == FilterAbsent(q, s)
    requires x !in q
    ensures AppendAbsent(d + f, x) == d + FilterAbsent(q + [x], s)
  {
    FilterAbsentSnoc(q, x, s);
    if x !in s {
      assert x !in d + f;
      assert (d + f) + [x] == d + (f + [x]);
    }
  }

  lemma FilterAbsentSnoc<T(!new)>(q: seq<T>, x: T, s: seq<T>)
    ensures FilterAbsent(q + [x], s) == FilterAbsent(q, s) + (if x in s then [] else [x])
  {
    assert (q + [x])[..|q|] == q;
  }

  /** Removing one occurrence of `x` from both sides of a multiset equality. */
  lemma MultisetCancel<T>(a1: seq<T>, a2: seq<T>, q: seq<T>, x: T)
    requires multiset(a1 + [x] + a2) == multiset(q + [x])
    ensures multiset(a1 + a2) == multiset(q)
  {
    calc {
      multiset(a1 + a2);
      multiset(a1 + [x] + a2) - multiset{x};
      multiset(q + [x]) - multiset{x};
      multiset(q);
    }
  }

  /** A sequence is free of repetitions exactly when each of its elements occurs once. */
  lemma NoDupIffSingle<T(!new)>(s: seq<T>)
    ensures NoDup(s) <==> forall i :: 0 <= i < |s| ==> multiset(s)[s[i]] == 1
  {
    if NoDup(s) {
      forall i | 0 <= i < |s|
        ensures multiset(s)[s[i]] == 1
      {
        assert s == s[..i] + [s[i]] + s[i + 1..];
        assert s[i] !in s[..i] && s[i] !in s[i + 1..];
      }
    } else {
      var a, b :| 0 <= a < b < |s| && s[a] == s[b];
      assert s == s[..b] + s[b..];
      assert s[a] in s[..b] && s[b] in s[b..];
      assert multiset(s)[s[a]] >= 2;
    }
  }
}
