/**
 * `getLoginsFromKeys`: the logins listed under a set of keys, ranked by how
 * many listings they have, best first, at most twenty of them.
 */
module LoginRanking {
  import opened Base
  import opened Text
  import opened InvertedIndex
  import opened Sorting

  /** `logins.filter((login, i) => i < 20)`. */
  const MaxLogins: nat := 20

  /** Every listing under `keys`, key after key: what the `loginCounts` loop reads. */
  function Postings(index: Index, keys: seq<String>): seq<String>
    decreases |keys|
  {
    if keys == [] then [] else Postings(index, keys[..|keys| - 1]) + Get(index, keys[|keys| - 1])
  }

  /** `loginCounts[login]` once every key has been read. */
  function Hits(index: Index, keys: seq<String>, login: String): nat
  {
    multiset(Postings(index, keys))[login]
  }

  /** A login is listed under the keys exactly when some key lists it. */
  lemma {:induction false} PostingsMembers(index: Index, keys: seq<String>)
    ensures forall l :: l in Postings(index, keys) <==> exists k :: k in keys && l in Get(index, k)
    decreases |keys|
  {
    if keys != [] {
      var p, k := keys[..|keys| - 1], keys[|keys| - 1];
      PostingsMembers(index, p);
      assert keys == p + [k];
    }
  }

  /** The number of keys among `keys` whose list holds `login` (a key given twice counts twice). */
  function KeysListing(index: Index, keys: seq<String>, login: String): nat
    decreases |keys|
  {
    if keys == [] then 0
    else KeysListing(index, keys[..|keys| - 1], login) + (if login in Get(index, keys[|keys| - 1]) then 1 else 0)
  }

  /** When no list repeats a login, a login's count is the number of keys listing it. */
  lemma {:induction false} HitsCountKeys(index: Index, keys: seq<String>, login: String)
    requires forall k :: NoDup(Get(index, k))
    ensures Hits(index, keys, login) == KeysListing(index, keys, login)
    decreases |keys|
  {
    if keys != [] {
      var p, k := keys[..|keys| - 1], keys[|keys| - 1];
      HitsCountKeys(index, p, login);
      var ls := Get(index, k);
      if login in ls {
        NoDupIffSingle(ls);
        var i :| 0 <= i < |ls| && ls[i] == login;
        assert multiset(ls)[ls[i]] == 1;
      }
    }
  }

  /** The logins with their counts, in the order `Object.keys(loginCounts)` lists them. */
  function Tally(index: Index, keys: seq<String>): (t: seq<Scored<String>>)
    ensures DistinctItems(t)
    ensures forall i :: 0 <= i < |t| ==> t[i].score == Hits(index, keys, t[i].item) > 0
    ensures forall l :: l in Postings(index, keys) <==> exists i :: 0 <= i < |t| && t[i].item == l
  {
    var order := Dedup(Postings(index, keys));
    var t := seq(|order|, i requires 0 <= i < |order| => Scored(order[i], Hits(index, keys, order[i])));
    assert DistinctItems(t) by {
      forall i, j | 0 <= i < j < |t|
        ensures t[i].item != t[j].item
      {
        assert t[i].item == order[i] && t[j].item == order[j];
      }
    }
    forall i | 0 <= i < |t|
      ensures t[i].score == Hits(index, keys, t[i].item) > 0
    {
      assert order[i] in order;
    }
    forall l | l in order
      ensures exists i :: 0 <= i < |t| && t[i].item == l
    {
      var i :| 0 <= i < |order| && order[i] == l;
      assert t[i].item == l;
    }
    t
  }

  /** The result of `getLoginsFromKeys(keys)`. */
  function LoginsFromKeys(index: Index, keys: seq<String>): seq<String>
  {
    if keys == [] then [] else Items(Take(SortDesc(Tally(index, keys)), MaxLogins))
  }

  /**
   * No keys, no logins; otherwise at most twenty distinct listed logins, by
   * non-increasing number of listings, and no listed login left out that has
   * more listings than one kept (nor any left out while fewer than twenty are kept).
   */
  lemma LoginsFromKeysSpec(index: Index, keys: seq<String>)
    ensures keys == [] ==> LoginsFromKeys(index, keys) == []
    ensures |LoginsFromKeys(index, keys)| <= MaxLogins
    ensures NoDup(LoginsFromKeys(index, keys))
    ensures forall l :: l in LoginsFromKeys(index, keys) ==> Hits(index, keys, l) > 0
    ensures forall i, j :: 0 <= i < j < |LoginsFromKeys(index, keys)| ==>
      Hits(index, keys, LoginsFromKeys(index, keys)[i]) >= Hits(index, keys, LoginsFromKeys(index, keys)[j])
    ensures keys != [] ==> forall l :: Hits(index, keys, l) > 0 && l !in LoginsFromKeys(index, keys) ==>
      && |LoginsFromKeys(index, keys)| == MaxLogins
      && forall k :: k in LoginsFromKeys(index, keys) ==> Hits(index, keys, k) >= Hits(index, keys, l)
  {
    if keys != [] {
      var sorted := SortDesc(Tally(index, keys));
      SortedTally(index, keys);
      TopOf(sorted, MaxLogins);
      RankedPrefix(index, keys, sorted, LoginsFromKeys(index, keys));
    }
  }

  /** The logins returned are distinct. */
  lemma LoginsDistinct(index: Index, keys: seq<String>)
    ensures NoDup(LoginsFromKeys(index, keys))
  {
    if keys != [] {
      SortedTally(index, keys);
      TopOf(SortDesc(Tally(index, keys)), MaxLogins);
    }
  }

  /** The ranking facts of `LoginsFromKeysSpec`, read off the sorted tally. */
  lemma RankedPrefix(index: Index, keys: seq<String>, sorted: seq<Scored<String>>, r: seq<String>)
    requires NonIncreasing(sorted)
    requires forall i :: 0 <= i < |sorted| ==> sorted[i].score == Hits(index, keys, sorted[i].item) > 0
    requires forall l :: Hits(index, keys, l) > 0 ==> exists i :: 0 <= i < |sorted| && sorted[i].item == l
    requires r == Items(Take(sorted, MaxLogins))
    requires forall p :: 0 <= p < |sorted| && sorted[p].item !in r ==>
      |r| == MaxLogins && forall q :: 0 <= q < MaxLogins ==> sorted[q].score >= sorted[p].score
    ensures forall l :: l in r ==> Hits(index, keys, l) > 0
    ensures forall i, j :: 0 <= i < j < |r| ==> Hits(index, keys, r[i]) >= Hits(index, keys, r[j])
    ensures forall l :: Hits(index, keys, l) > 0 && l !in r ==>
      |r| == MaxLogins && forall k :: k in r ==> Hits(index, keys, k) >= Hits(index, keys, l)
  {
    PrefixListed(index, keys, sorted, r);
    PrefixOrdered(index, keys, sorted, r);
    forall l | Hits(index, keys, l) > 0 && l !in r
      ensures |r| == MaxLogins && forall k :: k in r ==> Hits(index, keys, k) >= Hits(index, keys, l)
    {
      var p :| 0 <= p < |sorted| && sorted[p].item == l;
      PrefixAbove(index, keys, sorted, r, p);
    }
  }

  lemma PrefixListed(index: Index, keys: seq<String>, sorted: seq<Scored<String>>, r: seq<String>)
    requires forall i :: 0 <= i < |sorted| ==> sorted[i].score == Hits(index, keys, sorted[i].item) > 0
    requires r == Items(Take(sorted, MaxLogins))
    ensures forall l :: l in r ==> Hits(index, keys, l) > 0
  {
    forall l | l in r
      ensures Hits(index, keys, l) > 0
    {
      var i :| 0 <= i < |r| && r[i] == l;
      assert r[i] == sorted[i].item;
    }
  }

  lemma PrefixOrdered(index: Index, keys: seq<String>, sorted: seq<Scored<String>>, r: seq<String>)
    requires NonIncreasing(sorted)
    requires forall i :: 0 <= i < |sorted| ==> sorted[i].score == Hits(index, keys, sorted[i].item)
    requires r == Items(Take(sorted, MaxLogins))
    ensures forall i, j :: 0 <= i < j < |r| ==> Hits(index, keys, r[i]) >= Hits(index, keys, r[j])
  {
    forall i, j | 0 <= i < j < |r|
      ensures Hits(index, keys, r[i]) >= Hits(index, keys, r[j])
    {
      assert r[i] == sorted[i].item && r[j] == sorted[j].item;
    }
  }

  lemma PrefixAbove(index: Index, keys: seq<String>, sorted: seq<Scored<String>>, r: seq<String>, p: nat)
    requires forall i :: 0 <= i < |sorted| ==> sorted[i].score == Hits(index, keys, sorted[i].item)
    requires r == Items(Take(sorted, MaxLogins))
    requires p < |sorted| && |r| == MaxLogins && forall q :: 0 <= q < MaxLogins ==> sorted[q].score >= sorted[p].score
    ensures forall k :: k in r ==> Hits(index, keys, k) >= Hits(index, keys, sorted[p].item)
  {
    forall k | k in r
      ensures Hits(index, keys, k) >= Hits(index, keys, sorted[p].item)
    {
      var i :| 0 <= i < |r| && r[i] == k;
      assert r[i] == sorted[i].item;
    }
  }

  /** Every login returned is listed under one of the keys. */
  lemma LoginsListed(index: Index, keys: seq<String>)
    ensures forall l :: l in LoginsFromKeys(index, keys) ==> exists k :: k in keys && l in Get(index, k)
  {
    LoginsFromKeysSpec(index, keys);
    PostingsMembers(index, keys);
    forall l | l in LoginsFromKeys(index, keys)
      ensures exists k :: k in keys && l in Get(index, k)
    {
      assert l in multiset(Postings(index, keys));
      assert l in Postings(index, keys);
    }
  }

  /** With fewer than twenty logins returned, every login listed under a key is among them. */
  lemma ListedLoginsKept(index: Index, keys: seq<String>)
    ensures |LoginsFromKeys(index, keys)| < MaxLogins ==>
      forall k, l :: k in keys && l in Get(index, k) ==> l in LoginsFromKeys(index, keys)
  {
    LoginsFromKeysSpec(index, keys);
    PostingsMembers(index, keys);
    forall k, l | k in keys && l in Get(index, k) && |LoginsFromKeys(index, keys)| < MaxLogins
      ensures l in LoginsFromKeys(index, keys)
    {
      assert l in Postings(index, keys);
    }
  }

  /** The sorted tally: each login once, with its number of listings, every listed login present. */
  lemma SortedTally(index: Index, keys: seq<String>)
    ensures DistinctItems(SortDesc(Tally(index, keys)))
    ensures forall i :: 0 <= i < |SortDesc(Tally(index, keys))| ==>
      SortDesc(Tally(index, keys))[i].score == Hits(index, keys, SortDesc(Tally(index, keys))[i].item) > 0
    ensures forall l :: Hits(index, keys, l) > 0 ==>
      exists i :: 0 <= i < |SortDesc(Tally(index, keys))| && SortDesc(Tally(index, keys))[i].item == l
  {
    var tally := Tally(index, keys);
    var sorted := SortDesc(tally);
    PermutationKeepsDistinctItems(tally, sorted);
    forall i | 0 <= i < |sorted|
      ensures sorted[i].score == Hits(index, keys, sorted[i].item) > 0
    {
      assert sorted[i] in multiset(tally);
    }
    forall l | Hits(index, keys, l) > 0
      ensures exists i :: 0 <= i < |sorted| && sorted[i].item == l
    {
      assert l in multiset(Postings(index, keys));
      assert l in Postings(index, keys);
      var i :| 0 <= i < |tally| && tally[i].item == l;
      assert tally[i] in multiset(sorted);
    }
  }

  /** `getLoginsFromKeys(keys)`, its callbacks run one key after the other. */
  method GetLoginsFromKeys(index: Index, keys: seq<String>) returns (logins: seq<String>)
    ensures logins == LoginsFromKeys(index, keys)
  {
    if |keys| == 0 {
      return [];
    }
    var loginCounts: map<String, nat> := map[];
    // the insertion order of loginCounts' properties
    var order: seq<String> := [];
    for i := 0 to |keys|
      invariant Counted(loginCounts, order, Postings(index, keys[..i]))
    {
      assert keys[..i + 1][..i] == keys[..i];
      ghost var seen := Postings(index, keys[..i]);
      var ls := Get(index, keys[i]);
      loginCounts, order := CountListings(loginCounts, order, seen, ls);
      assert Postings(index, keys[..i + 1]) == seen + ls;
    }
    assert keys[..|keys|] == keys;
    CountsGiveTally(loginCounts, order, index, keys);
    var tally := InOrder(loginCounts, order);
    var sorted := SortDesc(tally);
    logins := Items(Take(sorted, MaxLogins));
  }

  /** The callback of one key: counts each login it lists. */
  method CountListings(loginCounts0: map<String, nat>, order0: seq<String>, ghost seen: seq<String>, ls: seq<String>)
    returns (loginCounts: map<String, nat>, order: seq<String>)
    requires Counted(loginCounts0, order0, seen)
    ensures Counted(loginCounts, order, seen + ls)
  {
    loginCounts, order := loginCounts0, order0;
    ghost var consumed := seen;
    for j := 0 to |ls|
      invariant consumed == seen + ls[..j]
      invariant Counted(loginCounts, order, consumed)
    {
      var login := ls[j];
      CountStep(loginCounts, order, consumed, login);
      if login in loginCounts {
        loginCounts := loginCounts[login := loginCounts[login] + 1];
      } else {
        loginCounts := loginCounts[login := 1];
        order := order + [login];
      }
      consumed := consumed + [login];
      assert ls[..j + 1] == ls[..j] + [login];
    }
    assert ls[..|ls|] == ls;
  }

  /** `loginCounts` after reading the listings `consumed`. */
  function CountsOf(consumed: seq<String>): (m: map<String, nat>)
    decreases |consumed|
  {
    if consumed == [] then map[]
    else
      var m := CountsOf(consumed[..|consumed| - 1]);
      var login := consumed[|consumed| - 1];
      m[login := (if login in m then m[login] else 0) + 1]
  }

  /** The counts are the multiplicities of the logins read. */
  lemma {:induction false} CountsOfSpec(consumed: seq<String>)
    ensures forall l :: l in CountsOf(consumed) <==> l in consumed
    ensures forall l :: l in CountsOf(consumed) ==> CountsOf(consumed)[l] == multiset(consumed)[l]
    decreases |consumed|
  {
    if consumed != [] {
      var p := consumed[..|consumed| - 1];
      CountsOfSpec(p);
      assert consumed == p + [consumed[|consumed| - 1]];
    }
  }

  /** `loginCounts` and its key order after reading the listings `consumed`. */
  ghost predicate Counted(loginCounts: map<String, nat>, order: seq<String>, consumed: seq<String>)
  {
    order == Dedup(consumed) && loginCounts == CountsOf(consumed)
  }

  /** One increment of `loginCounts`. */
  lemma CountStep(loginCounts: map<String, nat>, order: seq<String>, consumed: seq<String>, login: String)
    requires Counted(loginCounts, order, consumed)
    ensures login in loginCounts ==> Counted(loginCounts[login := loginCounts[login] + 1], order, consumed + [login])
    ensures login !in loginCounts ==> Counted(loginCounts[login := 1], order + [login], consumed + [login])
  {
    DedupSnoc(consumed, login);
    CountsOfSpec(consumed);
    CountsOfSnoc(consumed, login);
  }

  lemma CountsOfSnoc(consumed: seq<String>, login: String)
    ensures CountsOf(consumed + [login]) ==
      CountsOf(consumed)[login := (if login in CountsOf(consumed) then CountsOf(consumed)[login] else 0) + 1]
  {
    assert (consumed + [login])[..|consumed|] == consumed;
  }

  /** The entries of `loginCounts` listed in `order`. */
  function InOrder(loginCounts: map<String, nat>, order: seq<String>): seq<Scored<String>>
    requires forall l :: l in order ==> l in loginCounts
  {
    seq(|order|, i requires 0 <= i < |order| => Scored(order[i], loginCounts[order[i]]))
  }

  lemma CountsGiveTally(loginCounts: map<String, nat>, order: seq<String>, index: Index, keys: seq<String>)
    requires Counted(loginCounts, order, Postings(index, keys))
    ensures forall l :: l in order ==> l in loginCounts
    ensures InOrder(loginCounts, order) == Tally(index, keys)
  {
    CountsOfSpec(Postings(index, keys));
  }
}
