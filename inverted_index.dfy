/**
 * The inverted index of `createIndex`: a hash from key to the logins listed
 * under it. Each user is listed under its login, the part of its login before
 * the first `_` (when there is one), its first name, last name, year and
 * location.
 */
module InvertedIndex {
  import opened Base
  import opened Text
  import opened Records

  type Index = map<String, seq<String>>

  /** The logins under `key`; a missing key lists nobody. */
  function Get(index: Index, key: String): seq<String>
  {
    if key in index then index[key] else []
  }

  /** `login.substring(0, login.indexOf('_'))`. */
  function LoginPrefix(login: String): (p: String)
    requires '_' in login
    ensures IsPrefix(p, login) && '_' !in p
    ensures |p| < |login| && login[|p|] == '_'
  {
    login[..IndexOfChar(login, '_')]
  }

  /**
   * `getLoginsFromKey`: a key stored as the empty string (or not stored)
   * lists nobody; otherwise its logins are the pieces between spaces.
   */
  function ReadLogins(stored: String): (r: seq<String>)
    ensures r == [] <==> stored == []
    ensures forall i :: 0 <= i < |r| ==> ' ' !in r[i]
  {
    if stored == [] then [] else Split(stored, ' ')
  }

  /**
   * A login list saved joined by spaces reads back unchanged, except the
   * list holding only the empty login, which reads back as no login.
   */
  lemma ReadSavedLogins(logins: seq<String>)
    requires |logins| >= 1
    requires forall i :: 0 <= i < |logins| ==> ' ' !in logins[i]
    ensures ReadLogins(Join(logins, ' ')) == (if logins == [[]] then [] else logins)
  {
    if logins != [[]] {
      assert Join(logins, ' ') != [] by {
        if |logins| > 1 {
          assert Join(logins, ' ') == logins[0] + [' '] + Join(logins[1..], ' ');
        }
      }
      SplitJoin(logins, ' ');
    }
  }

  /** The keys a user is listed under, in the order of `createIndex`'s `add` calls. */
  function UserKeys(u: User): seq<String>
  {
    [u.login] + (if '_' in u.login then [LoginPrefix(u.login)] else []) +
    [u.firstName, u.lastName, IntToString(u.year), u.location]
  }

  /**
   * The inner `add(key, login)`: a new key starts as a singleton list, and an
   * existing key gets the login appended unless it is already listed.
   */
  function Add(index: Index, key: String, login: String): (r: Index)
    ensures key in r && login in r[key]
  {
    if key !in index then index[key := [login]]
    else if login in index[key] then index
    else index[key := index[key] + [login]]
  }

  /** A repeated `add` leaves the index unchanged. */
  lemma AddIdempotent(index: Index, key: String, login: String)
    ensures Add(Add(index, key, login), key, login) == Add(index, key, login)
  {
  }

  /** One iteration of `createIndex`'s loop. */
  function IndexUser(index: Index, u: User): Index
  {
    var login := u.login;
    var i1 := Add(index, login, login);
    var i2 := if '_' in login then Add(i1, LoginPrefix(login), login) else i1;
    Add(Add(Add(Add(i2, u.firstName, login), u.lastName, login), IntToString(u.year), login), u.location, login)
  }

  /** Indexing one user appends its login, if absent, under each of its keys and nowhere else. */
  lemma IndexUserEffect(index: Index, u: User)
    ensures forall k :: k in IndexUser(index, u) <==> k in index || k in UserKeys(u)
    ensures forall k :: Get(IndexUser(index, u), k) ==
                        if k in UserKeys(u) then AppendAbsent(Get(index, k), u.login) else Get(index, k)
  {
    forall k
      ensures k in IndexUser(index, u) <==> k in index || k in UserKeys(u)
      ensures Get(IndexUser(index, u), k) == if k in UserKeys(u) then AppendAbsent(Get(index, k), u.login) else Get(index, k)
    {
      IndexUserAt(index, u, k);
    }
  }

  /** IndexUserEffect for one key. */
  lemma IndexUserAt(index: Index, u: User, k: String)
    ensures k in IndexUser(index, u) <==> k in index || k in UserKeys(u)
    ensures Get(IndexUser(index, u), k) == if k in UserKeys(u) then AppendAbsent(Get(index, k), u.login) else Get(index, k)
  {
    var login := u.login;
    var i1 := Add(index, login, login);
    AddListed(index, index, [], login, login, k);
    if '_' in login {
      AddListed(index, i1, [login], LoginPrefix(login), login, k);
      ListedDetails(index, Add(i1, LoginPrefix(login), login), [login, LoginPrefix(login)], u, k);
    } else {
      ListedDetails(index, i1, [login], u, k);
    }
  }

  /** The keys indexed after the login ones: names, year and location. */
  lemma ListedDetails(start: Index, index: Index, keys: seq<String>, u: User, k: String)
    requires Listed(start, index, keys, u.login, k)
    ensures Listed(start, Add(Add(Add(Add(index, u.firstName, u.login), u.lastName, u.login), IntToString(u.year), u.login), u.location, u.login),
                   keys + [u.firstName, u.lastName, IntToString(u.year), u.location], u.login, k)
  {
    var login, year := u.login, IntToString(u.year);
    var i3 := Add(index, u.firstName, login);
    var k3 := keys + [u.firstName];
    AddListed(start, index, keys, u.firstName, login, k);
    var i4 := Add(i3, u.lastName, login);
    var k4 := k3 + [u.lastName];
    AddListed(start, i3, k3, u.lastName, login, k);
    var i5 := Add(i4, year, login);
    var k5 := k4 + [year];
    AddListed(start, i4, k4, year, login, k);
    AddListed(start, i5, k5, u.location, login, k);
    assert k5 + [u.location] == keys + [u.firstName, u.lastName, year, u.location];
  }

  /** After adding `login` under each of `keys`, key `k` of `index` reads as listed. */
  predicate Listed(start: Index, index: Index, keys: seq<String>, login: String, k: String)
  {
    && (k in index <==> k in start || k in keys)
    && Get(index, k) == if k in keys then AppendAbsent(Get(start, k), login) else Get(start, k)
  }

  lemma AddListed(start: Index, index: Index, keys: seq<String>, key: String, login: String, k: String)
    requires Listed(start, index, keys, login, k)
    ensures Listed(start, Add(index, key, login), keys + [key], login, k)
  {
  }

  /** The index of `users`: every user indexed in turn, starting from an empty hash. */
  function IndexOf(users: seq<User>): Index
    decreases |users|
  {
    if users == [] then map[] else IndexUser(IndexOf(users[..|users| - 1]), users[|users| - 1])
  }

  /** The logins of the users listed under `key`, in input order (repeats kept). */
  function Contributors(users: seq<User>, key: String): (r: seq<String>)
    ensures forall l :: l in r <==> exists u :: u in users && u.login == l && key in UserKeys(u)
    decreases |users|
  {
    if users == [] then []
    else
      var p, u := users[..|users| - 1], users[|users| - 1];
      assert users == p + [u];
      Contributors(p, key) + (if key in UserKeys(u) then [u.login] else [])
  }

  /**
   * The index lists under each key exactly the logins of the users having that
   * key, once each, in the order in which users first contributed them.
   */
  lemma {:induction false} IndexOfSpec(users: seq<User>)
    ensures forall k :: k in IndexOf(users) <==> Contributors(users, k) != []
    ensures forall k :: Get(IndexOf(users), k) == Dedup(Contributors(users, k))
    decreases |users|
  {
    if users != [] {
      var p, u := users[..|users| - 1], users[|users| - 1];
      IndexOfSpec(p);
      IndexUserEffect(IndexOf(p), u);
      forall k
        ensures k in IndexOf(users) <==> Contributors(users, k) != []
        ensures Get(IndexOf(users), k) == Dedup(Contributors(users, k))
      {
        if k in UserKeys(u) {
          DedupSnoc(Contributors(p, k), u.login);
        } else {
          assert Contributors(users, k) == Contributors(p, k);
        }
      }
    }
  }

  /** `createIndex(users)`. */
  method CreateIndex(users: seq<User>) returns (index: Index)
    ensures index == IndexOf(users)
    ensures forall k :: k in index <==> exists u :: u in users && k in UserKeys(u)
    ensures forall k :: k in index ==> index[k] == Dedup(Contributors(users, k))
  {
    index := map[];
    for n := 0 to |users|
      invariant index == IndexOf(users[..n])
    {
      assert users[..n + 1][..n] == users[..n];
      ghost var before := index;
      var user := users[n];
      var login := user.login;
      index := Add(index, login, login);
      if '_' in login {
        var i := IndexOfChar(login, '_');
        var loginPrefix := login[..i];
        index := Add(index, loginPrefix, login);
      }
      index := Add(index, user.firstName, login);
      index := Add(index, user.lastName, login);
      index := Add(index, IntToString(user.year), login);
      index := Add(index, user.location, login);
      assert index == IndexUser(before, user);
    }
    assert users[..|users|] == users;
    IndexOfKeys(users);
  }

  /** The keys of the index are the keys of the users, each listing its contributors once. */
  lemma IndexOfKeys(users: seq<User>)
    ensures forall k :: k in IndexOf(users) <==> exists u :: u in users && k in UserKeys(u)
    ensures forall k :: k in IndexOf(users) ==> IndexOf(users)[k] == Dedup(Contributors(users, k))
  {
    IndexOfSpec(users);
    forall k
      ensures k in IndexOf(users) <==> exists u :: u in users && k in UserKeys(u)
    {
      ContributorsNonEmpty(users, k);
    }
  }

  lemma ContributorsNonEmpty(users: seq<User>, key: String)
    ensures Contributors(users, key) != [] <==> exists u :: u in users && key in UserKeys(u)
  {
    var c := Contributors(users, key);
    if c != [] {
      assert c[0] in c;
    }
    if exists u :: u in users && key in UserKeys(u) {
      var u :| u in users && key in UserKeys(u);
      assert u.login in c;
    }
  }

  /** No key lists a login twice. */
  lemma IndexListsDistinct(users: seq<User>, key: String)
    ensures NoDup(Get(IndexOf(users), key))
  {
    IndexOfSpec(users);
  }

  /** Every user is listed under each of its keys. */
  lemma IndexComplete(users: seq<User>, u: User, key: String)
    requires u in users && key in UserKeys(u)
    ensures key in IndexOf(users) && u.login in IndexOf(users)[key]
  {
    IndexOfSpec(users);
    assert u.login in Contributors(users, key);
  }

  /** A login listed under a key belongs to a user having that key. */
  lemma IndexSound(users: seq<User>, key: String, login: String)
    requires login in Get(IndexOf(users), key)
    ensures exists u :: u in users && u.login == login && key in UserKeys(u)
  {
    IndexOfSpec(users);
  }
}
