/** The user record shared by the directory import and the search engine. */
module Records {
  import opened Text

  /** `{login, firstName, lastName, location, year}`; `year` is the enrollment year. */
  datatype User = User(login: String, firstName: String, lastName: String, location: String, year: int)

  function Logins(users: seq<User>): (r: seq<String>)
  {
    seq(|users|, i requires 0 <= i < |users| => users[i].login)
  }

  lemma LoginsSnoc(p: seq<User>, x: User)
    ensures Logins(p + [x]) == Logins(p) + [x.login]
  {
  }

  lemma LoginsAppend(a: seq<User>, b: seq<User>)
    ensures Logins(a + b) == Logins(a) + Logins(b)
  {
  }

  /** Position of the first user with `login`, or `|users|` when there is none. */
  function IndexOfLogin(users: seq<User>, login: String): (i: nat)
    ensures i <= |users|
    ensures i < |users| ==> users[i].login == login
    ensures forall j :: 0 <= j < i ==> users[j].login != login
    ensures i < |users| <==> login in Logins(users)
    decreases |users|
  {
    if users == [] then 0
    else if users[0].login == login then
      assert Logins(users)[0] == login;
      0
    else
      var j := IndexOfLogin(users[1..], login);
      assert Logins(users[1..]) == Logins(users)[1..];
      1 + j
  }

  /** The first user with `login`: what `users.find(u => u.login === login)` returns. */
  function First(users: seq<User>, login: String): (u: User)
    requires login in Logins(users)
    ensures u in users && u.login == login
  {
    users[IndexOfLogin(users, login)]
  }
}
