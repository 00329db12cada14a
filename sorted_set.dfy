/**
 * A Redis sorted set whose members all have score 0, as the autocompletion
 * index is stored: the members are kept distinct and in lexicographic order,
 * ZRANK gives a member's position and ZRANGE an inclusive slice of positions.
 */
module SortedSet {
  import opened Base
  import opened Text

  /** Lexicographic order on code points, the order of members sharing a score. */
  predicate Below(a: String, b: String)
    decreases |a|
  {
    if |a| == 0 then |b| > 0
    else if |b| == 0 then false
    else if a[0] != b[0] then a[0] < b[0]
    else Below(a[1..], b[1..])
  }

  lemma {:induction false} BelowIrreflexive(a: String)
    ensures !Below(a, a)
    decreases |a|
  {
    if |a| > 0 {
      BelowIrreflexive(a[1..]);
    }
  }

  lemma {:induction false} BelowTransitive(a: String, b: String, c: String)
    requires Below(a, b) && Below(b, c)
    ensures Below(a, c)
    decreases |a|
  {
    if |a| > 0 && a[0] == b[0] && b[0] == c[0] {
      BelowTransitive(a[1..], b[1..], c[1..]);
    }
  }

  lemma {:induction false} BelowTotal(a: String, b: String)
    ensures a == b || Below(a, b) || Below(b, a)
    decreases |a|
  {
    if |a| > 0 && |b| > 0 && a[0] == b[0] {
      BelowTotal(a[1..], b[1..]);
      if a[1..] == b[1..] {
        assert a == [a[0]] + a[1..] && b == [b[0]] + b[1..];
      }
    }
  }

  /** Below is a strict order: never both ways. */
  lemma BelowAsymmetric(a: String, b: String)
    ensures !(Below(a, b) && Below(b, a))
  {
    if Below(a, b) && Below(b, a) {
      BelowTransitive(a, b, a);
      BelowIrreflexive(a);
    }
  }

  predicate StrictlySorted(s: seq<String>)
  {
    forall i, j :: 0 <= i < j < |s| ==> Below(s[i], s[j])
  }

  lemma SortedDistinct(s: seq<String>)
    requires StrictlySorted(s)
    ensures NoDup(s)
  {
    forall i, j | 0 <= i < j < |s|
      ensures s[i] != s[j]
    {
      BelowIrreflexive(s[i]);
    }
  }

  /** ZADD of one member with score 0. */
  function InsertMember(zset: seq<String>, m: String): (r: seq<String>)
    requires StrictlySorted(zset)
    ensures StrictlySorted(r)
    ensures forall x :: x in r <==> x in zset || x == m
    decreases |zset|
  {
    if zset == [] then [m]
    else if m == zset[0] then zset
    else if Below(m, zset[0]) then
      assert forall j :: 0 < j < |zset| ==> Below(m, zset[j]) by {
        forall j | 0 < j < |zset| {
          BelowTransitive(m, zset[0], zset[j]);
        }
      }
      [m] + zset
    else
      BelowTotal(m, zset[0]);
      var rest := InsertMember(zset[1..], m);
      assert forall x :: x in rest ==> Below(zset[0], x);
      [zset[0]] + rest
  }

  /** The sorted set after ZADDing each of `members` in turn to an empty set. */
  function FromMembers(members: seq<String>): (r: seq<String>)
    ensures StrictlySorted(r)
    ensures forall x :: x in r <==> x in members
    decreases |members|
  {
    if members == [] then []
    else
      var p := members[..|members| - 1];
      assert members == p + [members[|members| - 1]];
      InsertMember(FromMembers(p), members[|members| - 1])
  }

  /** A sorted set is determined by its members alone. */
  lemma {:induction false} SortedUnique(a: seq<String>, b: seq<String>)
    requires StrictlySorted(a) && StrictlySorted(b)
    requires forall x :: x in a <==> x in b
    ensures a == b
    decreases |a|
  {
    if a != [] {
      assert a[0] in b;
    }
    if b != [] {
      assert b[0] in a;
    }
    if a != [] && b != [] {
      var i :| 0 <= i < |a| && a[i] == b[0];
      var j :| 0 <= j < |b| && b[j] == a[0];
      BelowAsymmetric(a[0], b[0]);
      assert a[0] == b[0];
      forall x
        ensures x in a[1..] <==> x in b[1..]
      {
        if x in a[1..] {
          BelowIrreflexive(x);
          assert x in b;
        }
        if x in b[1..] {
          BelowIrreflexive(x);
          assert x in a;
        }
      }
      SortedUnique(a[1..], b[1..]);
      assert a == [a[0]] + a[1..] && b == [b[0]] + b[1..];
    }
  }

  /** ZRANK: the position of a member, or nothing when it is not in the set. */
  function Rank(zset: seq<String>, m: String): (r: Option<nat>)
    ensures r.Some? <==> m in zset
    ensures r.Some? ==> r.value < |zset| && zset[r.value] == m
    decreases |zset|
  {
    if zset == [] then None
    else if zset[0] == m then Some(0)
    else
      match Rank(zset[1..], m)
      case None => None
      case Some(i) => Some(i + 1)
  }

  /** ZRANGE start stop: positions `start` through `stop` inclusive, cut at the end of the set. */
  function Range(zset: seq<String>, start: nat, stop: nat): (r: seq<String>)
    ensures start <= stop && start < |zset| ==> |r| == Min(stop + 1, |zset|) - start
    ensures stop < start || |zset| <= start ==> r == []
    ensures forall i :: 0 <= i < |r| ==> start + i < |zset| && r[i] == zset[start + i]
  {
    if stop < start || |zset| <= start then [] else zset[start..Min(stop + 1, |zset|)]
  }

  /**
   * Starting a range at a member's rank yields that member and then the
   * members that follow it, up to `count` of them: the `count + 1` smallest
   * members not below it.
   */
  lemma RangeFromRank(zset: seq<String>, m: String, count: nat)
    requires StrictlySorted(zset) && m in zset
    ensures var r := Range(zset, Rank(zset, m).value, Rank(zset, m).value + count);
      && 1 <= |r| <= count + 1
      && r[0] == m
      && (forall i :: 0 < i < |r| ==> Below(m, r[i]))
      && (forall x :: x in zset && !Below(x, m) && x !in r ==> |r| == count + 1 && forall y :: y in r ==> Below(y, x))
  {
    var k := Rank(zset, m).value;
    var r := Range(zset, k, k + count);
    forall i | 0 < i < |r|
      ensures Below(m, r[i])
    {
      SortedAt(zset, k, k + i);
    }
    forall x | x in zset && !Below(x, m) && x !in r
      ensures |r| == count + 1 && forall y :: y in r ==> Below(y, x)
    {
      var j := NotBelowAfter(zset, k, x);
      RangeBeforeLater(zset, k, count, j);
    }
  }

  /** A member after a range starting at `k` makes the range full, and is above all of it. */
  lemma RangeBeforeLater(zset: seq<String>, k: nat, count: nat, j: nat)
    requires StrictlySorted(zset) && k <= j < |zset| && zset[j] !in Range(zset, k, k + count)
    ensures |Range(zset, k, k + count)| == count + 1
    ensures forall y :: y in Range(zset, k, k + count) ==> Below(y, zset[j])
  {
    var r := Range(zset, k, k + count);
    if j <= k + count {
      RangeHolds(zset, k, k + count, j);
    }
    forall y | y in r
      ensures Below(y, zset[j])
    {
      var i :| 0 <= i < |r| && r[i] == y;
      SortedAt(zset, k + i, j);
    }
  }

  lemma RangeHolds(zset: seq<String>, start: nat, stop: nat, j: nat)
    requires start <= j <= stop && j < |zset|
    ensures zset[j] in Range(zset, start, stop)
  {
    assert Range(zset, start, stop)[j - start] == zset[j];
  }

  lemma SortedAt(zset: seq<String>, i: nat, j: nat)
    requires StrictlySorted(zset) && i < j < |zset|
    ensures Below(zset[i], zset[j])
  {
  }

  /** A member not below the one at position `k` sits at `k` or after it. */
  lemma NotBelowAfter(zset: seq<String>, k: nat, x: String) returns (j: nat)
    requires StrictlySorted(zset) && k < |zset| && x in zset && !Below(x, zset[k])
    ensures k <= j < |zset| && zset[j] == x
  {
    j :| 0 <= j < |zset| && zset[j] == x;
    if j < k {
      SortedAt(zset, j, k);
    }
  }
}
