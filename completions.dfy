/**
 * `getCompletions(query)`: the users matching a free-text query, best first.
 * The query's words are looked up in the completion set, the keys they reach
 * pick at most twenty logins from the index, and the records of those logins
 * are scored against the keys and the words and sorted by score.
 */
module Completions {
  import opened Base
  import opened Text
  import opened Records
  import opened InvertedIndex
  import opened SortedSet
  import opened Lookup
  import opened LoginRanking
  import opened Sorting
  import opened Scoring
  import opened Words

  /** A login chosen from the index that has no record: the scoring loop reads a field of `null`. */
  datatype QueryError = MissingRecord(login: String)

  /** `mget('user:' + login, ...)` followed by `JSON.parse`, one record per login, in order. */
  function Fetch(records: map<String, User>, logins: seq<String>): (r: Result<seq<User>, QueryError>)
    ensures r.Success? <==> forall l :: l in logins ==> l in records
    ensures r.Success? ==> |r.value| == |logins| && forall i :: 0 <= i < |logins| ==> r.value[i] == records[logins[i]]
    ensures r.Failure? ==> exists i :: (0 <= i < |logins| && logins[i] == r.error.login && r.error.login !in records &&
      forall j :: 0 <= j < i ==> logins[j] in records)
    decreases |logins|
  {
    if logins == [] then Success([])
    else if logins[0] !in records then Failure(MissingRecord(logins[0]))
    else
      var rest := Fetch(records, logins[1..]);
      assert forall l :: l in logins <==> l == logins[0] || l in logins[1..];
      match rest
      case Failure(e) =>
        var i :| 0 <= i < |logins[1..]| && logins[1..][i] == e.login && e.login !in records &&
          forall j :: 0 <= j < i ==> logins[1..][j] in records;
        assert logins[i + 1] == e.login;
        Failure(e)
      case Success(us) => Success([records[logins[0]]] + us)
  }

  /** The keys of every word, united in word order (`reduce`). */
  function QueryKeys(zset: seq<String>, words: seq<String>): seq<String>
  {
    UnionAll(seq(|words|, i requires 0 <= i < |words| => WordKeys(zset, words[i])))
  }

  /** Each user paired with its rank, in the order fetched. */
  function ScoredUsers(users: seq<User>, keys: seq<String>, words: seq<String>): (s: seq<Scored<User>>)
    ensures |s| == |users|
    ensures forall i :: 0 <= i < |users| ==> s[i] == Scored(users[i], Score(users[i], keys, words))
  {
    seq(|users|, i requires 0 <= i < |users| => Scored(users[i], Score(users[i], keys, words)))
  }

  function Ranked(users: seq<User>, keys: seq<String>, words: seq<String>): seq<Scored<User>>
  {
    SortDesc(ScoredUsers(users, keys, words))
  }

  /** What `getCompletions(query)` hands its callback. */
  function Completions(query: String, zset: seq<String>, index: Index, records: map<String, User>)
    : Result<seq<Scored<User>>, QueryError>
  {
    var words := QueryWords(query);
    if words == [] then Success([]) else Answer(zset, index, records, words)
  }

  /** What the inner `reduce()` of `getCompletions` hands the callback, for the (distinct) words. */
  function Answer(zset: seq<String>, index: Index, records: map<String, User>, words: seq<String>)
    : Result<seq<Scored<User>>, QueryError>
  {
    var keys := QueryKeys(zset, words);
    var logins := LoginsFromKeys(index, keys);
    if logins == [] then Success([])
    else
      match Fetch(records, logins)
      case Failure(e) => Failure(e)
      case Success(users) => Success(Ranked(users, keys, words))
  }


  /**
   * `getCompletions(query)`, its callbacks run one after the other in the
   * order the words are listed.
   */
  method GetCompletions(query: String, zset: seq<String>, index: Index, records: map<String, User>)
    returns (r: Result<seq<Scored<User>>, QueryError>)
    ensures r == Completions(query, zset, index, records)
  {
    var normalized := Trim(Lower(query));
    var words := RemoveDuplicatedWords(Split(normalized, ' '));
    assert words == QueryWords(query);
    if |words| == 0 {
      return Success([]);
    }
    var perWord := KeysOfWords(zset, words);
    r := Reduce(zset, index, records, words, perWord);
  }

  /** The inner `reduce()`: unite the words' keys, choose the logins, fetch, score and sort their records. */
  method Reduce(zset: seq<String>, index: Index, records: map<String, User>, words: seq<String>, perWord: seq<seq<String>>)
    returns (r: Result<seq<Scored<User>>, QueryError>)
    requires UnionAll(perWord) == QueryKeys(zset, words)
    ensures r == Answer(zset, index, records, words)
  {
    var keys := UnionKeys(perWord);
    var logins := GetLoginsFromKeys(index, keys);
    if |logins| == 0 {
      return Success([]);
    }
    var fetched := FetchUsers(records, logins);
    match fetched {
      case Failure(e) =>
        r := Failure(e);
      case Success(users) =>
        var scored := ScoreUsers(users, keys, words);
        r := Success(SortDesc(scored));
    }
  }

  /** The callbacks of `getCompletionIndices`: each word's keys, in word order. */
  method KeysOfWords(zset: seq<String>, words: seq<String>) returns (perWord: seq<seq<String>>)
    ensures UnionAll(perWord) == QueryKeys(zset, words)
    ensures |perWord| == |words| && forall i :: 0 <= i < |words| ==> perWord[i] == WordKeys(zset, words[i])
  {
    perWord := [];
    for i := 0 to |words|
      invariant |perWord| == i
      invariant forall j :: 0 <= j < i ==> perWord[j] == WordKeys(zset, words[j])
    {
      var indices := CompletionIndices(zset, words[i], ScanCount);
      var wordKeys := ExtractKeys(indices);
      perWord := perWord + [wordKeys];
    }
    assert perWord == seq(|words|, i requires 0 <= i < |words| => WordKeys(zset, words[i]));
  }

  /** The records of `logins` as `mget` returns them, failing on the first login without one. */
  method FetchUsers(records: map<String, User>, logins: seq<String>) returns (r: Result<seq<User>, QueryError>)
    ensures r == Fetch(records, logins)
  {
    var users: seq<User> := [];
    for i := 0 to |logins|
      invariant |users| == i
      invariant forall j :: 0 <= j < i ==> logins[j] in records && users[j] == records[logins[j]]
    {
      if logins[i] !in records {
        FirstMissing(records, logins, i);
        return Failure(MissingRecord(logins[i]));
      }
      users := users + [records[logins[i]]];
    }
    assert Fetch(records, logins).Success?;
    assert Fetch(records, logins).value == users;
    r := Success(users);
  }

  /** `user.rank = getUserRank(user, keys) + getUserRank(user, words) * 10` for each user. */
  method ScoreUsers(users: seq<User>, keys: seq<String>, words: seq<String>) returns (scored: seq<Scored<User>>)
    ensures scored == ScoredUsers(users, keys, words)
  {
    scored := [];
    for i := 0 to |users|
      invariant |scored| == i
      invariant forall j :: 0 <= j < i ==> scored[j] == Scored(users[j], Score(users[j], keys, words))
    {
      var rank := ScoreUser(users[i], keys, words);
      scored := scored + [Scored(users[i], rank)];
    }
    assert scored == ScoredUsers(users, keys, words);
  }

  /** The two statements that set `user.rank`. */
  method ScoreUser(u: User, keys: seq<String>, words: seq<String>) returns (rank: nat)
    ensures rank == Score(u, keys, words)
  {
    rank := GetUserRank(u, keys);
    var wordRank := GetUserRank(u, words);
    rank := rank + wordRank * WordWeight;
  }

  /** The login `Fetch` fails on is the first one without a record. */
  lemma FirstMissing(records: map<String, User>, logins: seq<String>, i: nat)
    requires i < |logins| && logins[i] !in records
    requires forall j :: 0 <= j < i ==> logins[j] in records
    ensures Fetch(records, logins) == Failure(MissingRecord(logins[i]))
  {
    var e := Fetch(records, logins).error;
    var i' :| 0 <= i' < |logins| && logins[i'] == e.login && e.login !in records &&
      forall j :: 0 <= j < i' ==> logins[j] in records;
  }

  /** The ranked users: the same users, each with its score, highest score first. */
  lemma RankedSpec(users: seq<User>, keys: seq<String>, words: seq<String>)
    ensures |Ranked(users, keys, words)| == |users|
    ensures NonIncreasing(Ranked(users, keys, words))
    ensures forall i :: 0 <= i < |users| ==>
      Ranked(users, keys, words)[i].score == Score(Ranked(users, keys, words)[i].item, keys, words)
    ensures forall u :: u in users <==> exists i :: 0 <= i < |users| && Ranked(users, keys, words)[i].item == u
  {
    var scored := ScoredUsers(users, keys, words);
    var r := Ranked(users, keys, words);
    forall i | 0 <= i < |r|
      ensures r[i].score == Score(r[i].item, keys, words)
    {
      assert r[i] in multiset(scored);
    }
    forall u
      ensures u in users <==> exists i :: 0 <= i < |r| && r[i].item == u
    {
      if u in users {
        var j :| 0 <= j < |users| && users[j] == u;
        assert scored[j] in multiset(r);
      }
      if exists i :: 0 <= i < |r| && r[i].item == u {
        var i :| 0 <= i < |r| && r[i].item == u;
        assert r[i] in multiset(scored);
      }
    }
  }

  /** A query whose every word is repeated is answered with no user. */
  lemma RepeatedWordsOnly(query: String, zset: seq<String>, index: Index, records: map<String, User>)
    requires forall w :: w in SplitQuery(query) ==> multiset(SplitQuery(query))[w] >= 2
    ensures Completions(query, zset, index, records) == Success([])
  {
    NoWordsIff(query);
  }

  /** A query none of whose words is in the completion set is answered with no user. */
  lemma UnknownWordsOnly(query: String, zset: seq<String>, index: Index, records: map<String, User>)
    requires forall w :: w in QueryWords(query) ==> w !in zset
    ensures Completions(query, zset, index, records) == Success([])
  {
    var words := QueryWords(query);
    var perWord := seq(|words|, i requires 0 <= i < |words| => WordKeys(zset, words[i]));
    forall i | 0 <= i < |words|
      ensures perWord[i] == []
    {
      assert words[i] in words;
      UnknownWordIndices(zset, words[i], ScanCount);
    }
    UnionAllEmpty(perWord);
  }

  /** The store holds a record for each login, under that login. */
  ghost predicate RecordsByLogin(records: map<String, User>)
  {
    forall l :: l in records ==> records[l].login == l
  }

  /**
   * An answer lists at most twenty users, each once and each the record of a
   * login listed under the query's keys, ranked by their score for the keys
   * and the words, highest first.
   */
  lemma CompletionsSpec(query: String, zset: seq<String>, index: Index, records: map<String, User>)
    requires RecordsByLogin(records)
    ensures Completions(query, zset, index, records).Success? ==>
      var res := Completions(query, zset, index, records).value;
      && |res| == |LoginsFromKeys(index, QueryKeys(zset, QueryWords(query)))| <= MaxLogins
      && NonIncreasing(res)
      && (forall i :: 0 <= i < |res| ==>
            res[i].score == Score(res[i].item, QueryKeys(zset, QueryWords(query)), QueryWords(query)))
      && (forall i :: 0 <= i < |res| ==>
            res[i].item.login in LoginsFromKeys(index, QueryKeys(zset, QueryWords(query))) &&
            res[i].item.login in records && res[i].item == records[res[i].item.login])
      && (forall i, j :: 0 <= i < j < |res| ==> res[i].item.login != res[j].item.login)
  {
    var words := QueryWords(query);
    if words == [] {
      NoWordsNoLogins(zset, index);
      assert Completions(query, zset, index, records) == Success([]);
    } else {
      AnswerSpec(zset, index, records, words);
      assert Completions(query, zset, index, records) == Answer(zset, index, records, words);
    }
  }

  /** Without words there are no keys, and so no logins. */
  lemma NoWordsNoLogins(zset: seq<String>, index: Index)
    ensures LoginsFromKeys(index, QueryKeys(zset, [])) == []
  {
    assert QueryKeys(zset, []) == UnionAll([]);
  }

  /** `CompletionsSpec` for the words once they are known not to be empty. */
  lemma AnswerSpec(zset: seq<String>, index: Index, records: map<String, User>, words: seq<String>)
    requires RecordsByLogin(records)
    ensures Answer(zset, index, records, words).Success? ==>
      var res := Answer(zset, index, records, words).value;
      && |res| == |LoginsFromKeys(index, QueryKeys(zset, words))| <= MaxLogins
      && NonIncreasing(res)
      && (forall i :: 0 <= i < |res| ==> res[i].score == Score(res[i].item, QueryKeys(zset, words), words))
      && (forall i :: 0 <= i < |res| ==>
            res[i].item.login in LoginsFromKeys(index, QueryKeys(zset, words)) &&
            res[i].item.login in records && res[i].item == records[res[i].item.login])
      && (forall i, j :: 0 <= i < j < |res| ==> res[i].item.login != res[j].item.login)
  {
    var keys := QueryKeys(zset, words);
    var logins := LoginsFromKeys(index, keys);
    if logins == [] {
      assert Answer(zset, index, records, words) == Success([]);
    } else if Fetch(records, logins).Success? {
      LoginsDistinct(index, keys);
      assert |logins| <= MaxLogins;
      RankedRecords(records, logins, keys, words);
      assert Answer(zset, index, records, words).value == Ranked(Fetch(records, logins).value, keys, words);
    }
  }

  /** The records of distinct logins, ranked: the facts `CompletionsSpec` states about an answer. */
  lemma RankedRecords(records: map<String, User>, logins: seq<String>, keys: seq<String>, words: seq<String>)
    requires RecordsByLogin(records) && NoDup(logins) && Fetch(records, logins).Success?
    ensures var res := Ranked(Fetch(records, logins).value, keys, words);
      && |res| == |logins|
      && NonIncreasing(res)
      && (forall i :: 0 <= i < |res| ==> res[i].score == Score(res[i].item, keys, words))
      && (forall i :: 0 <= i < |res| ==>
            res[i].item.login in logins && res[i].item.login in records && res[i].item == records[res[i].item.login])
      && (forall i, j :: 0 <= i < j < |res| ==> res[i].item.login != res[j].item.login)
      && (forall l :: l in logins ==> exists i :: 0 <= i < |res| && res[i].item.login == l)
  {
    var users := Fetch(records, logins).value;
    RankedSpec(users, keys, words);
    RankedFromRecords(records, logins, users, keys, words);
    RankedLoginsDistinct(records, logins, users, keys, words);
    var res := Ranked(users, keys, words);
    forall l | l in logins
      ensures exists i :: 0 <= i < |res| && res[i].item.login == l
    {
      var j :| 0 <= j < |logins| && logins[j] == l;
      assert users[j] in users;
    }
  }

  /** Each ranked user is the record of one of the logins. */
  lemma RankedFromRecords(records: map<String, User>, logins: seq<String>, users: seq<User>, keys: seq<String>, words: seq<String>)
    requires RecordsByLogin(records)
    requires |users| == |logins| && forall i :: 0 <= i < |logins| ==> logins[i] in records && users[i] == records[logins[i]]
    ensures var res := Ranked(users, keys, words);
      forall i :: 0 <= i < |res| ==>
        res[i].item.login in logins && res[i].item.login in records && res[i].item == records[res[i].item.login]
  {
    RankedSpec(users, keys, words);
    var res := Ranked(users, keys, words);
    forall i | 0 <= i < |res|
      ensures res[i].item.login in logins && res[i].item == records[res[i].item.login]
    {
      assert res[i].item in users;
      var j :| 0 <= j < |users| && users[j] == res[i].item;
      assert users[j] == records[logins[j]];
    }
  }

  /** The records of distinct logins stay distinct once ranked. */
  lemma RankedLoginsDistinct(records: map<String, User>, logins: seq<String>, users: seq<User>, keys: seq<String>, words: seq<String>)
    requires RecordsByLogin(records) && NoDup(logins)
    requires |users| == |logins| && forall i :: 0 <= i < |logins| ==> logins[i] in records && users[i] == records[logins[i]]
    ensures var res := Ranked(users, keys, words);
      forall i, j :: 0 <= i < j < |res| ==> res[i].item.login != res[j].item.login
  {
    var scored := ScoredUsers(users, keys, words);
    assert DistinctItems(scored) by {
      forall p, q | 0 <= p < q < |scored|
        ensures scored[p].item != scored[q].item
      {
        assert users[p].login == logins[p] && users[q].login == logins[q];
      }
    }
    var res := Ranked(users, keys, words);
    PermutationKeepsDistinctItems(scored, res);
    RankedFromRecords(records, logins, users, keys, words);
  }

  /** A store that holds a record for every indexed login never makes a query fail. */
  lemma ConsistentStoreSucceeds(query: String, zset: seq<String>, index: Index, records: map<String, User>)
    requires forall k, l :: k in index && l in index[k] ==> l in records
    ensures Completions(query, zset, index, records).Success?
  {
    var words := QueryWords(query);
    if words != [] {
      var keys := QueryKeys(zset, words);
      var logins := LoginsFromKeys(index, keys);
      LoginsListed(index, keys);
      forall l | l in logins
        ensures l in records
      {
        var k :| k in keys && l in Get(index, k);
        assert k in index && l in index[k];
      }
      assert Fetch(records, logins).Success?;
    }
  }

  /**
   * Below the cap of twenty, nothing is lost: every login that a key reached
   * by the query lists is answered with its record.
   */
  lemma CompleteBelowCap(query: String, zset: seq<String>, index: Index, records: map<String, User>)
    requires RecordsByLogin(records)
    ensures Completions(query, zset, index, records).Success? && |Completions(query, zset, index, records).value| < MaxLogins ==>
      forall k, l :: k in QueryKeys(zset, QueryWords(query)) && l in Get(index, k) ==>
        exists i :: 0 <= i < |Completions(query, zset, index, records).value| &&
          Completions(query, zset, index, records).value[i].item.login == l
  {
    var words := QueryWords(query);
    if words == [] {
      assert QueryKeys(zset, words) == [];
    } else {
      AnswerCompleteBelowCap(zset, index, records, words);
    }
  }

  /** `CompleteBelowCap` for the answer of `reduce()`. */
  lemma AnswerCompleteBelowCap(zset: seq<String>, index: Index, records: map<String, User>, words: seq<String>)
    requires RecordsByLogin(records)
    ensures var answer := Answer(zset, index, records, words);
      answer.Success? && |answer.value| < MaxLogins ==>
      forall k, l :: k in QueryKeys(zset, words) && l in Get(index, k) ==>
        exists i :: 0 <= i < |answer.value| && answer.value[i].item.login == l
  {
    var keys := QueryKeys(zset, words);
    var logins := LoginsFromKeys(index, keys);
    var answer := Answer(zset, index, records, words);
    if answer.Success? && |answer.value| < MaxLogins {
      ListedLoginsKept(index, keys);
      if logins == [] {
        assert answer.value == [];
      } else {
        assert Fetch(records, logins).Success?;
        var res := Ranked(Fetch(records, logins).value, keys, words);
        assert answer.value == res;
        LoginsDistinct(index, keys);
        RankedCovers(records, logins, index, keys, words);
      }
    }
  }

  /** Ranking the records of logins that include every listed login answers each listed login. */
  lemma RankedCovers(records: map<String, User>, logins: seq<String>, index: Index, keys: seq<String>, words: seq<String>)
    requires RecordsByLogin(records) && NoDup(logins) && Fetch(records, logins).Success?
    requires forall k, l :: k in keys && l in Get(index, k) ==> l in logins
    ensures var res := Ranked(Fetch(records, logins).value, keys, words);
      forall k, l :: k in keys && l in Get(index, k) ==> exists i :: 0 <= i < |res| && res[i].item.login == l
  {
    RankedRecords(records, logins, keys, words);
    var res := Ranked(Fetch(records, logins).value, keys, words);
    forall k, l | k in keys && l in Get(index, k)
      ensures exists i :: 0 <= i < |res| && res[i].item.login == l
    {
      assert l in logins;
    }
  }

  /** The `user:<login>` records `saveUsersToRedis(users)` leaves: for a repeated login, the last user. */
  function UsersTable(users: seq<User>): (records: map<String, User>)
    ensures forall l :: l in records <==> l in Logins(users)
    ensures RecordsByLogin(records)
    ensures forall l :: l in records ==> records[l] in users
    decreases |users|
  {
    if users == [] then map[]
    else
      var p, u := users[..|users| - 1], users[|users| - 1];
      var t := UsersTable(p);
      assert users == p + [u];
      assert Logins(users) == Logins(p) + [u.login];
      t[u.login := u]
  }

  /**
   * A query against the stores saved from one list of users never fails:
   * every login the index lists has a record.
   */
  lemma SavedStoresSucceed(users: seq<User>, query: String, zset: seq<String>)
    ensures Completions(query, zset, IndexOf(users), UsersTable(users)).Success?
  {
    var index, records := IndexOf(users), UsersTable(users);
    forall k, l | k in index && l in index[k]
      ensures l in records
    {
      IndexSound(users, k, l);
      var u :| u in users && u.login == l && k in UserKeys(u);
      var i :| 0 <= i < |users| && users[i] == u;
      assert Logins(users)[i] == l;
    }
    ConsistentStoreSucceeds(query, zset, index, records);
  }
}
