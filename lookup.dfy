/**
 * From query words to index keys: each word is looked up in the sorted
 * completion set, the first ten terminal entries of the slice after it name
 * keys, and the keys of all words are united.
 */
module Lookup {
  import opened Base
  import opened Text
  import opened SortedSet
  import opened CompletionIndex

  /** `getCompletions` asks for the 42 entries following a word's rank. */
  const ScanCount: nat := 42

  /** At most this many keys are taken from one word's slice. */
  const KeysPerWord: nat := 10

  /** `getCompletionIndices(word, count)`: nothing for an unknown word, else ZRANGE rank rank+count. */
  function CompletionIndices(zset: seq<String>, word: String, count: nat): (r: seq<String>)
    ensures r == [] <==> word !in zset
    ensures |r| <= count + 1
    ensures forall e :: e in r ==> e in zset
  {
    match Rank(zset, word)
    case None => []
    case Some(rank) => Range(zset, rank, rank + count)
  }

  /** An unknown word gets no entries. */
  lemma UnknownWordIndices(zset: seq<String>, word: String, count: nat)
    requires word !in zset
    ensures CompletionIndices(zset, word, count) == []
  {
  }

  /**
   * The slice of a known word holds that word and then the entries after it
   * in the set, `count + 1` of them, fewer at the end of the set.
   */
  lemma KnownWordIndices(zset: seq<String>, word: String, count: nat)
    requires word in zset
    ensures 1 <= |CompletionIndices(zset, word, count)| <= count + 1
    ensures CompletionIndices(zset, word, count)[0] == word
    ensures forall i :: 0 <= i < |CompletionIndices(zset, word, count)| ==>
      Rank(zset, word).value + i < |zset| &&
      CompletionIndices(zset, word, count)[i] == zset[Rank(zset, word).value + i]
  {
    var k := Rank(zset, word).value;
    assert CompletionIndices(zset, word, count) == Range(zset, k, k + count);
  }

  /**
   * In a sorted set, the slice of a known word holds, besides the word, only
   * entries above it, and the `count + 1` smallest entries not below it unless
   * the set ends first.
   */
  lemma KnownWordOrder(zset: seq<String>, word: String, count: nat)
    requires StrictlySorted(zset) && word in zset
    ensures forall e :: e in CompletionIndices(zset, word, count) && e != word ==> Below(word, e)
    ensures forall x :: x in zset && !Below(x, word) && x !in CompletionIndices(zset, word, count) ==>
      |CompletionIndices(zset, word, count)| == count + 1
  {
    var ci := CompletionIndices(zset, word, count);
    RangeFromRank(zset, word, count);
    assert ci == Range(zset, Rank(zset, word).value, Rank(zset, word).value + count);
    forall e | e in ci && e != word
      ensures Below(word, e)
    {
      var i :| 0 <= i < |ci| && ci[i] == e;
    }
  }

  /** `indices.filter(index => index.endsWith('*'))`. */
  function Terminals(entries: seq<String>): (r: seq<String>)
    ensures forall e :: e in r <==> e in entries && IsTerminal(e)
    ensures forall i :: 0 <= i < |r| ==> IsTerminal(r[i])
    ensures NoDup(entries) ==> NoDup(r)
    ensures |r| <= |entries|
    decreases |entries|
  {
    if entries == [] then []
    else
      var p, e := entries[..|entries| - 1], entries[|entries| - 1];
      assert entries == p + [e];
      Terminals(p) + (if IsTerminal(e) then [e] else [])
  }

  /** Filtering a concatenation filters each part: kept entries stay in their order. */
  lemma {:induction false} TerminalsAppend(a: seq<String>, b: seq<String>)
    ensures Terminals(a + b) == Terminals(a) + Terminals(b)
    decreases |b|
  {
    if b == [] {
      assert a + b == a;
    } else {
      var p, e := b[..|b| - 1], b[|b| - 1];
      assert (a + b)[..|a + b| - 1] == a + p;
      assert (a + b)[|a + b| - 1] == e;
      TerminalsAppend(a, p);
    }
  }

  /** Filtering a strictly sorted slice keeps it strictly sorted. */
  lemma {:induction false} TerminalsSorted(entries: seq<String>)
    requires StrictlySorted(entries)
    ensures StrictlySorted(Terminals(entries))
    decreases |entries|
  {
    if entries != [] {
      var p, e := entries[..|entries| - 1], entries[|entries| - 1];
      assert entries == p + [e];
      assert StrictlySorted(p) by {
        forall i, j | 0 <= i < j < |p|
          ensures Below(p[i], p[j])
        {
          assert p[i] == entries[i] && p[j] == entries[j];
        }
      }
      TerminalsSorted(p);
      var t := Terminals(p);
      forall x | x in t
        ensures Below(x, e)
      {
        var i :| 0 <= i < |p| && p[i] == x;
        assert entries[i] == x;
      }
      var r := Terminals(entries);
      assert r == t + (if IsTerminal(e) then [e] else []);
      forall i, j | 0 <= i < j < |r|
        ensures Below(r[i], r[j])
      {
        if |t| <= j {
          assert r[i] == t[i] && r[j] == e;
          assert t[i] in t;
        }
      }
    }
  }

  /**
   * The keys one word contributes (`filter`, `filter((index, i) => i < 10)`,
   * `map(key => key.substring(0, key.length - 1))`).
   */
  function ExtractKeys(entries: seq<String>): (keys: seq<String>)
    ensures |keys| == Min(KeysPerWord, |Terminals(entries)|)
    ensures forall i :: 0 <= i < |keys| ==> keys[i] + [Star] == Terminals(entries)[i]
    ensures NoDup(entries) ==> NoDup(keys)
  {
    var t := Take(Terminals(entries), KeysPerWord);
    var keys := seq(|t|, i requires 0 <= i < |t| => t[i][..|t[i]| - 1]);
    assert forall i :: 0 <= i < |t| ==> keys[i] + [Star] == t[i];
    keys
  }

  /** The keys `getCompletions` gathers for one word. */
  function WordKeys(zset: seq<String>, word: String): seq<String>
  {
    ExtractKeys(CompletionIndices(zset, word, ScanCount))
  }

  /**
   * A word contributes at most ten keys, none for an unknown word, each once;
   * they are the first ten starred entries of the word's slice, unstarred and
   * in slice order, which is the set's ascending order.
   */
  lemma WordKeysSpec(zset: seq<String>, word: String)
    requires StrictlySorted(zset)
    ensures word !in zset ==> WordKeys(zset, word) == []
    ensures |WordKeys(zset, word)| == Min(KeysPerWord, |Terminals(CompletionIndices(zset, word, ScanCount))|)
    ensures forall i :: 0 <= i < |WordKeys(zset, word)| ==>
      WordKeys(zset, word)[i] + [Star] == Terminals(CompletionIndices(zset, word, ScanCount))[i]
    ensures forall i, j :: 0 <= i < j < |WordKeys(zset, word)| ==>
      Below(WordKeys(zset, word)[i] + [Star], WordKeys(zset, word)[j] + [Star])
    ensures NoDup(WordKeys(zset, word))
    ensures forall k :: k in WordKeys(zset, word) ==> k + [Star] in CompletionIndices(zset, word, ScanCount)
  {
    var entries := CompletionIndices(zset, word, ScanCount);
    if word in zset {
      KnownWordIndices(zset, word, ScanCount);
      var rank := Rank(zset, word).value;
      assert StrictlySorted(entries) by {
        forall i, j | 0 <= i < j < |entries|
          ensures Below(entries[i], entries[j])
        {
          assert entries[i] == zset[rank + i] && entries[j] == zset[rank + j];
        }
      }
      SortedDistinct(entries);
      TerminalsSorted(entries);
    }
    var keys, t := WordKeys(zset, word), Terminals(entries);
    forall i, j | 0 <= i < j < |keys|
      ensures Below(keys[i] + [Star], keys[j] + [Star])
    {
      assert keys[i] + [Star] == t[i] && keys[j] + [Star] == t[j];
    }
    forall k | k in WordKeys(zset, word)
      ensures k + [Star] in entries
    {
      var i :| 0 <= i < |WordKeys(zset, word)| && WordKeys(zset, word)[i] == k;
      assert Terminals(entries)[i] in Terminals(entries);
    }
  }

  /**
   * When the completion set holds exactly the entries derived from the index
   * keys, and no key contains the marker, every key a word yields is an index key.
   */
  lemma WordKeysAreIndexKeys(zset: seq<String>, indexKeys: seq<String>, word: String)
    requires StrictlySorted(zset)
    requires forall e :: e in zset <==> Covered(e, indexKeys)
    requires forall k :: k in indexKeys ==> Star !in k
    ensures forall k :: k in WordKeys(zset, word) ==> k in indexKeys
  {
    WordKeysSpec(zset, word);
    forall k | k in WordKeys(zset, word)
      ensures k in indexKeys
    {
      assert k + [Star] in zset by {
        if word in zset {
          KnownWordIndices(zset, word, ScanCount);
        }
      }
      TerminalsAreKeys(indexKeys, k + [Star]);
      var k' :| k' in indexKeys && k + [Star] == k' + [Star];
      assert k == (k + [Star])[..|k|] == k';
    }
  }

  /** The union `reduce` builds: each word's keys not seen before, appended in word order. */
  function UnionAll(perWord: seq<seq<String>>): seq<String>
    decreases |perWord|
  {
    if perWord == [] then []
    else
      var u := UnionAll(perWord[..|perWord| - 1]);
      u + FilterAbsent(perWord[|perWord| - 1], u)
  }

  /** The loop of `reduce` over the words' key lists. */
  method UnionKeys(perWord: seq<seq<String>>) returns (keys: seq<String>)
    ensures keys == UnionAll(perWord)
  {
    keys := [];
    for i := 0 to |perWord|
      invariant keys == UnionAll(perWord[..i])
    {
      assert perWord[..i + 1][..i] == perWord[..i];
      keys := keys + FilterAbsent(perWord[i], keys);
    }
    assert perWord[..|perWord|] == perWord;
  }

  /** `FilterAbsent` looks at its second argument only through membership. */
  lemma {:induction false} FilterAbsentSameMembers(t: seq<String>, s1: seq<String>, s2: seq<String>)
    requires forall x :: x in s1 <==> x in s2
    ensures FilterAbsent(t, s1) == FilterAbsent(t, s2)
    decreases |t|
  {
    if t != [] {
      FilterAbsentSameMembers(t[..|t| - 1], s1, s2);
    }
  }

  /**
   * When no word's list repeats a key, the union is the first-occurrence list
   * of all the words' keys: every key once, in order of first appearance.
   */
  lemma {:induction false} UnionAllIsDedup(perWord: seq<seq<String>>)
    requires forall i :: 0 <= i < |perWord| ==> NoDup(perWord[i])
    ensures UnionAll(perWord) == Dedup(Flatten(perWord))
    decreases |perWord|
  {
    if perWord != [] {
      var p, t := perWord[..|perWord| - 1], perWord[|perWord| - 1];
      UnionAllIsDedup(p);
      assert perWord == p + [t];
      FlattenSnoc(p, t);
      DedupAppendDistinct(Flatten(p), t);
      FilterAbsentSameMembers(t, Flatten(p), UnionAll(p));
    }
  }

  /** Membership in the union: a key some word contributed. */
  lemma {:induction false} UnionAllMembers(perWord: seq<seq<String>>)
    ensures forall k :: k in UnionAll(perWord) <==> exists i :: 0 <= i < |perWord| && k in perWord[i]
    decreases |perWord|
  {
    if perWord != [] {
      var p, t := perWord[..|perWord| - 1], perWord[|perWord| - 1];
      UnionAllMembers(p);
      forall k
        ensures k in UnionAll(perWord) <==> exists i :: 0 <= i < |perWord| && k in perWord[i]
      {
        if exists i :: 0 <= i < |perWord| && k in perWord[i] {
          var i :| 0 <= i < |perWord| && k in perWord[i];
          if i < |p| {
            assert k in p[i];
          }
        }
        if k in UnionAll(p) {
          var i :| 0 <= i < |p| && k in p[i];
          assert k in perWord[i];
        }
      }
    }
  }

  /** No word yields a key, so there is no key at all. */
  lemma {:induction false} UnionAllEmpty(perWord: seq<seq<String>>)
    requires forall i :: 0 <= i < |perWord| ==> perWord[i] == []
    ensures UnionAll(perWord) == []
    decreases |perWord|
  {
    if perWord != [] {
      UnionAllEmpty(perWord[..|perWord| - 1]);
    }
  }
}
