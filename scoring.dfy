/**
 * The relevance score of a user for a query: for each key, one point per
 * field whose lower-cased text contains the key or is contained in it.
 */
module Scoring {
  import opened Base
  import opened Text
  import opened Records

  /** The fields `getUserRankByKey` compares, in its order. */
  datatype Field = FirstName | LastName | Login | Year | Location

  const UserFields: seq<Field> := [FirstName, LastName, Login, Year, Location]

  /** `user[field].toString()`. */
  function FieldText(u: User, f: Field): String
  {
    match f
    case FirstName => u.firstName
    case LastName => u.lastName
    case Login => u.login
    case Year => IntToString(u.year)
    case Location => u.location
  }

  /** `user[field].toString().toLowerCase()`. */
  function FieldValue(u: User, f: Field): String
  {
    Lower(FieldText(u, f))
  }

  /** `value.indexOf(key) !== -1 || key.indexOf(value) !== -1`. */
  predicate FieldMatches(value: String, key: String)
  {
    Contains(value, key) || Contains(key, value)
  }

  /** The number of `fields` of `u` that match `key`. */
  function MatchCount(u: User, fields: seq<Field>, key: String): (n: nat)
    ensures n <= |fields|
    decreases |fields|
  {
    if fields == [] then 0
    else
      var p := fields[..|fields| - 1];
      MatchCount(u, p, key) + (if FieldMatches(FieldValue(u, fields[|fields| - 1]), key) then 1 else 0)
  }

  /** No point exactly when no field matches. */
  lemma {:induction false} MatchCountZero(u: User, fields: seq<Field>, key: String)
    ensures MatchCount(u, fields, key) == 0 <==> forall f :: f in fields ==> !FieldMatches(FieldValue(u, f), key)
    decreases |fields|
  {
    if fields != [] {
      var p, g := fields[..|fields| - 1], fields[|fields| - 1];
      MatchCountZero(u, p, key);
      assert fields == p + [g];
    }
  }

  /** Full marks exactly when every field matches. */
  lemma {:induction false} MatchCountFull(u: User, fields: seq<Field>, key: String)
    ensures MatchCount(u, fields, key) == |fields| <==> forall f :: f in fields ==> FieldMatches(FieldValue(u, f), key)
    decreases |fields|
  {
    if fields != [] {
      var p, g := fields[..|fields| - 1], fields[|fields| - 1];
      MatchCountFull(u, p, key);
      assert fields == p + [g];
    }
  }

  function RankByKey(u: User, key: String): nat
  {
    MatchCount(u, UserFields, key)
  }

  /** `getUserRankByKey(user, key)`. */
  method GetUserRankByKey(u: User, key: String) returns (rank: nat)
    ensures rank == RankByKey(u, key)
    ensures rank <= 5
  {
    rank := 0;
    for i := 0 to |UserFields|
      invariant rank == MatchCount(u, UserFields[..i], key)
    {
      var value := FieldValue(u, UserFields[i]);
      if Contains(value, key) || Contains(key, value) {
        rank := rank + 1;
      }
      assert UserFields[..i + 1][..i] == UserFields[..i];
    }
    assert UserFields[..|UserFields|] == UserFields;
  }

  /** The empty key is contained in every field. */
  lemma EmptyKeyMatchesAll(u: User)
    ensures RankByKey(u, []) == 5
  {
    forall f | f in UserFields
      ensures FieldMatches(FieldValue(u, f), [])
    {
      ContainsEmpty(FieldValue(u, f));
    }
    MatchCountFull(u, UserFields, []);
  }

  /** A user's lower-cased login, used as a key, matches at least the login field. */
  lemma LoginKeyMatches(u: User)
    ensures RankByKey(u, Lower(u.login)) >= 1
  {
    ContainsSelf(Lower(u.login));
    MatchCountZero(u, UserFields, Lower(u.login));
  }

  /** The sum of RankByKey over `keys`. */
  function RankOver(u: User, keys: seq<String>): (n: nat)
    ensures n <= 5 * |keys|
    decreases |keys|
  {
    if keys == [] then 0 else RankOver(u, keys[..|keys| - 1]) + RankByKey(u, keys[|keys| - 1])
  }

  /** `getUserRank(user, keys)`. */
  method GetUserRank(u: User, keys: seq<String>) returns (rank: nat)
    ensures rank == RankOver(u, keys)
    ensures rank <= 5 * |keys|
  {
    rank := 0;
    for i := 0 to |keys|
      invariant rank == RankOver(u, keys[..i])
    {
      var r := GetUserRankByKey(u, keys[i]);
      rank := rank + r;
      assert keys[..i + 1][..i] == keys[..i];
    }
    assert keys[..|keys|] == keys;
  }

  /** The sum does not depend on how the keys are split. */
  lemma {:induction false} RankOverAppend(u: User, a: seq<String>, b: seq<String>)
    ensures RankOver(u, a + b) == RankOver(u, a) + RankOver(u, b)
    decreases |b|
  {
    if b != [] {
      var q := b[..|b| - 1];
      RankOverAppend(u, a, q);
      assert (a + b)[..|a + b| - 1] == a + q;
    } else {
      assert a + b == a;
    }
  }

  /** The sum depends only on which keys occur how often, not on their order. */
  lemma {:induction false} RankOverPermutation(u: User, a: seq<String>, b: seq<String>)
    requires multiset(a) == multiset(b)
    ensures RankOver(u, a) == RankOver(u, b)
    decreases |b|
  {
    if b == [] {
      assert |a| == |multiset(a)| == 0;
    } else {
      var q, x := b[..|b| - 1], b[|b| - 1];
      assert b == q + [x];
      assert x in multiset(a);
      var i :| 0 <= i < |a| && a[i] == x;
      var a1, a2 := a[..i], a[i + 1..];
      assert a == a1 + [x] + a2;
      MultisetCancel(a1, a2, q, x);
      RankOverPermutation(u, a1 + a2, q);
      RankOverAppend(u, a1, a2);
      RankOverAppend(u, a1 + [x], a2);
      RankOverAppend(u, a1, [x]);
      assert [x][..0] == [];
    }
  }

  /** Words weigh ten times as much as keys. */
  const WordWeight: nat := 10

  /** `user.rank` after `getCompletions` has scored it. */
  function Score(u: User, keys: seq<String>, words: seq<String>): nat
  {
    RankOver(u, keys) + RankOver(u, words) * WordWeight
  }

  lemma ScoreBound(u: User, keys: seq<String>, words: seq<String>)
    ensures Score(u, keys, words) <= 5 * |keys| + 50 * |words|
  {
  }
}
