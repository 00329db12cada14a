/**
 * The words of a query: the query lower-cased, trimmed and split on single
 * spaces, with every word that occurs more than once dropped altogether.
 */
module Words {
  import opened Base
  import opened Text

  /** The elements of `s` that occur exactly once in `all`, in the order of `s`. */
  function Singles(s: seq<String>, all: seq<String>): (r: seq<String>)
    ensures forall w :: w in r <==> w in s && multiset(all)[w] == 1
    ensures |r| <= |s|
    decreases |s|
  {
    if s == [] then []
    else
      var p, w := s[..|s| - 1], s[|s| - 1];
      assert s == p + [w];
      Singles(p, all) + (if multiset(all)[w] == 1 then [w] else [])
  }

  /** What `removeDuplicatedWords(words)` returns. */
  function UniqueWords(words: seq<String>): seq<String>
  {
    Singles(words, words)
  }

  /** `removeDuplicatedWords(words)`: count every word, then keep those counted once. */
  method RemoveDuplicatedWords(words: seq<String>) returns (r: seq<String>)
    ensures r == UniqueWords(words)
    ensures forall w :: w in r <==> multiset(words)[w] == 1
  {
    var counts := CountWords(words);
    r := [];
    for i := 0 to |words|
      invariant r == Singles(words[..i], words)
    {
      assert words[i] in words;
      if counts[words[i]] == 1 {
        r := r + [words[i]];
      }
      assert words[..i + 1][..i] == words[..i];
    }
    assert words[..|words|] == words;
  }

  /** The loop of `removeDuplicatedWords` that counts the occurrences of each word. */
  method CountWords(words: seq<String>) returns (counts: map<String, nat>)
    ensures forall w :: w in counts <==> w in words
    ensures forall w :: w in counts ==> counts[w] == multiset(words)[w]
  {
    counts := map[];
    for i := 0 to |words|
      invariant forall w :: w in counts <==> w in words[..i]
      invariant forall w :: w in counts ==> counts[w] == multiset(words[..i])[w]
    {
      var word := words[i];
      counts := counts[word := (if word in counts then counts[word] else 0) + 1];
      assert words[..i + 1] == words[..i] + [word];
    }
    assert words[..|words|] == words;
  }

  /** Every kept word is kept once. */
  lemma {:induction false} SinglesDistinct(s: seq<String>, all: seq<String>)
    requires multiset(s) <= multiset(all)
    ensures NoDup(Singles(s, all))
    decreases |s|
  {
    if s != [] {
      var p, w := s[..|s| - 1], s[|s| - 1];
      assert s == p + [w];
      assert multiset(p) <= multiset(all);
      SinglesDistinct(p, all);
    }
  }

  /**
   * The kept words form a subsequence of the input: each sits at a position of
   * `s`, and the positions increase.
   */
  lemma {:induction false} SinglesEmbedding(s: seq<String>, all: seq<String>) returns (pos: seq<nat>)
    ensures |pos| == |Singles(s, all)|
    ensures forall i :: 0 <= i < |pos| ==> pos[i] < |s| && s[pos[i]] == Singles(s, all)[i]
    ensures forall i, j :: 0 <= i < j < |pos| ==> pos[i] < pos[j]
    decreases |s|
  {
    if s == [] {
      pos := [];
    } else {
      var p, w := s[..|s| - 1], s[|s| - 1];
      var q := SinglesEmbedding(p, all);
      if multiset(all)[w] == 1 {
        pos := q + [|p|];
      } else {
        pos := q;
      }
    }
  }

  /** The words of the query, duplicates included. */
  function SplitQuery(query: String): seq<String>
  {
    Split(Trim(Lower(query)), ' ')
  }

  /** The words `getCompletions` looks up. */
  function QueryWords(query: String): (words: seq<String>)
    ensures NoDup(words)
    ensures forall w :: w in words <==> multiset(SplitQuery(query))[w] == 1
  {
    var all := SplitQuery(query);
    SinglesDistinct(all, all);
    UniqueWords(all)
  }

  /** The query is answered with nothing right away exactly when every word occurs twice or more. */
  lemma NoWordsIff(query: String)
    ensures QueryWords(query) == [] <==> forall w :: w in SplitQuery(query) ==> multiset(SplitQuery(query))[w] >= 2
  {
    var all := SplitQuery(query);
    if QueryWords(query) != [] {
      assert QueryWords(query)[0] in QueryWords(query);
    }
  }

  /** A query made of distinct words keeps them all, in order. */
  lemma {:induction false} SinglesOfDistinct(s: seq<String>)
    requires NoDup(s)
    ensures Singles(s, s) == s
  {
    NoDupIffSingle(s);
    SinglesAll(s, s);
  }

  lemma {:induction false} SinglesAll(s: seq<String>, all: seq<String>)
    requires forall w :: w in s ==> multiset(all)[w] == 1
    ensures Singles(s, all) == s
    decreases |s|
  {
    if s != [] {
      var p, w := s[..|s| - 1], s[|s| - 1];
      assert s == p + [w];
      SinglesAll(p, all);
    }
  }
}
