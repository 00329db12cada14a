/** The sanity check run on the user list before it is indexed: no login may occur twice. */
module Duplicates {
  import opened Base
  import opened Text
  import opened Records

  /** `users.filter(o => o.login === login)`. */
  function WithLogin(users: seq<User>, login: String): (r: seq<User>)
    ensures forall u :: u in r <==> u in users && u.login == login
    decreases |users|
  {
    if users == [] then []
    else
      var p, u := users[..|users| - 1], users[|users| - 1];
      assert users == p + [u];
      WithLogin(p, login) + (if u.login == login then [u] else [])
  }

  /** As many users have a login as the login occurs in the list of logins. */
  lemma {:induction false} WithLoginCount(users: seq<User>, login: String)
    ensures |WithLogin(users, login)| == multiset(Logins(users))[login]
    decreases |users|
  {
    if users != [] {
      var p, u := users[..|users| - 1], users[|users| - 1];
      WithLoginCount(p, login);
      assert users == p + [u];
      LoginsSnoc(p, u);
    }
  }

  /** Some other user has the login of user `j`. */
  predicate SharedAt(users: seq<User>, j: int)
    requires 0 <= j < |users|
  {
    |WithLogin(users, users[j].login)| != 1
  }

  /** Logins are distinct exactly when each user's login is shared with nobody. */
  lemma DistinctIffSingles(users: seq<User>)
    ensures NoDup(Logins(users)) <==> forall j :: 0 <= j < |users| ==> !SharedAt(users, j)
  {
    var ls := Logins(users);
    NoDupIffSingle(ls);
    forall j | 0 <= j < |users|
      ensures SharedAt(users, j) <==> multiset(ls)[ls[j]] != 1
    {
      assert ls[j] == users[j].login;
      WithLoginCount(users, users[j].login);
    }
  }

  /** The error `assertNoDuplicatedUsers` throws: every user sharing one login. */
  datatype DuplicateError = DuplicatedUsers(similar: seq<User>)

  /**
   * `assertNoDuplicatedUsers(users)`: fails on the first user (in list order)
   * whose login is shared, reporting all users with that login.
   */
  method AssertNoDuplicatedUsers(users: seq<User>) returns (r: Result<(), DuplicateError>)
    ensures r.Success? <==> NoDup(Logins(users))
    ensures r.Failure? ==> |r.error.similar| >= 2
    ensures r.Failure? ==> exists i :: && 0 <= i < |users|
                                       && r.error.similar == WithLogin(users, users[i].login)
                                       && forall j :: 0 <= j < i ==> !SharedAt(users, j)
  {
    for i := 0 to |users|
      invariant forall j :: 0 <= j < i ==> !SharedAt(users, j)
    {
      var similar := WithLogin(users, users[i].login);
      if |similar| != 1 {
        r := Failure(DuplicatedUsers(similar));
        FirstShared(users, i);
        return;
      }
    }
    DistinctIffSingles(users);
    return Success(());
  }

  /** The failure reported at the first user whose login is shared. */
  lemma FirstShared(users: seq<User>, i: nat)
    requires i < |users| && SharedAt(users, i)
    requires forall j :: 0 <= j < i ==> !SharedAt(users, j)
    ensures var r: Result<(), DuplicateError> := Failure(DuplicatedUsers(WithLogin(users, users[i].login)));
      && !NoDup(Logins(users))
      && |r.error.similar| >= 2
      && exists k :: && 0 <= k < |users|
                     && r.error.similar == WithLogin(users, users[k].login)
                     && forall j :: 0 <= j < k ==> !SharedAt(users, j)
  {
    assert users[i] in WithLogin(users, users[i].login);
    DistinctIffSingles(users);
  }
}
