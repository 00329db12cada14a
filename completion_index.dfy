/**
 * The autocompletion index of `createAutocompleteIndex`: for every index key
 * `k`, the terminal entry `k*` and every non-empty prefix of `k`, each once.
 */
module CompletionIndex {
  import opened Base
  import opened Text

  /** The marker that ends a terminal entry. */
  const Star: char := '*'

  /** `e` is an entry `createAutocompleteIndex` derives from `key`. */
  predicate IsCompletionOf(e: String, key: String)
  {
    e == key + [Star] || (1 <= |e| <= |key| && e == key[..|e|])
  }

  /** Some key of `keys` yields entry `e`. */
  predicate Covered(e: String, keys: seq<String>)
  {
    exists k :: k in keys && IsCompletionOf(e, k)
  }

  lemma CoveredSnoc(e: String, keys: seq<String>, key: String)
    ensures Covered(e, keys + [key]) <==> Covered(e, keys) || IsCompletionOf(e, key)
  {
    if Covered(e, keys + [key]) {
      var k :| k in keys + [key] && IsCompletionOf(e, k);
      if k != key {
        assert k in keys;
      }
    }
    if Covered(e, keys) {
      var k :| k in keys && IsCompletionOf(e, k);
      assert k in keys + [key];
    }
    if IsCompletionOf(e, key) {
      assert key in keys + [key];
    }
  }

  /**
   * `createAutocompleteIndex(keys)`: the entries of the sorted set `compl`,
   * without repetition, in insertion order.
   */
  method CreateAutocompleteIndex(keys: seq<String>) returns (compl: seq<String>)
    ensures NoDup(compl)
    ensures forall e :: e in compl <==> Covered(e, keys)
  {
    compl := [];
    for i := 0 to |keys|
      invariant NoDup(compl)
      invariant forall e :: e in compl <==> Covered(e, keys[..i])
    {
      var key := keys[i];
      compl := AppendAbsent(compl, key + [Star]);
      while |key| >= 1
        invariant IsPrefix(key, keys[i])
        invariant NoDup(compl)
        invariant forall e :: e in compl <==> Covered(e, keys[..i]) || e == keys[i] + [Star] || Pending(e, key, keys[i])
        decreases |key|
      {
        compl := AppendAbsent(compl, key);
        forall e
          ensures e in compl <==> Covered(e, keys[..i]) || e == keys[i] + [Star] || Pending(e, key[..|key| - 1], keys[i])
        {
          PendingStep(e, key, keys[i]);
        }
        key := key[..|key| - 1];
      }
      assert keys[..i + 1] == keys[..i] + [keys[i]];
      forall e
        ensures e in compl <==> Covered(e, keys[..i + 1])
      {
        CoveredSnoc(e, keys[..i], keys[i]);
      }
    }
    assert keys[..|keys|] == keys;
  }

  /** A prefix of `full` longer than `key` and still to be visited by the inner loop. */
  predicate Pending(e: String, key: String, full: String)
  {
    |key| < |e| <= |full| && e == full[..|e|]
  }

  /** Shortening the prefix by one makes `key` itself an entry. */
  lemma PendingStep(e: String, key: String, full: String)
    requires |key| >= 1 && IsPrefix(key, full)
    ensures Pending(e, key[..|key| - 1], full) <==> Pending(e, key, full) || e == key
  {
  }

  /** Every key yields its terminal entry and each of its non-empty prefixes. */
  lemma KeyEntries(keys: seq<String>, key: String, n: nat)
    requires key in keys && 1 <= n <= |key|
    ensures Covered(key + [Star], keys) && Covered(key[..n], keys)
  {
    assert IsCompletionOf(key + [Star], key);
    assert IsCompletionOf(key[..n], key);
  }

  /** An entry ending with the marker: the `*`-suffixed form of a whole key. */
  predicate IsTerminal(e: String)
  {
    |e| > 0 && e[|e| - 1] == Star
  }

  /**
   * When no key contains the marker, the terminal entries are exactly the
   * keys with the marker appended: a prefix of a key is never taken for a key.
   */
  lemma TerminalsAreKeys(keys: seq<String>, e: String)
    requires forall k :: k in keys ==> Star !in k
    ensures Covered(e, keys) && IsTerminal(e) <==> exists k :: k in keys && e == k + [Star]
  {
    if Covered(e, keys) && IsTerminal(e) {
      var k :| k in keys && IsCompletionOf(e, k);
    }
    if exists k :: k in keys && e == k + [Star] {
      var k :| k in keys && e == k + [Star];
      assert IsCompletionOf(e, k);
    }
  }

  /** The entries depend only on which keys there are, not on their order or repetition. */
  lemma CoveredBySameKeys(e: String, keys1: seq<String>, keys2: seq<String>)
    requires forall k :: k in keys1 <==> k in keys2
    ensures Covered(e, keys1) <==> Covered(e, keys2)
  {
  }
}
