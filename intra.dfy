/**
 * The user-list helpers of the directory import: converting a server record,
 * merging user lists by login (keeping the earliest year), and enumerating
 * the (location, year, course) queries to send. The HTTP requests themselves
 * are not part of this model.
 */
module Intra {
  import opened Base
  import opened Text
  import opened Records

  /** A user as the directory server describes it. */
  datatype ServerUser = ServerUser(login: String, prenom: String, nom: String, location: String)

  /** One (location, year, course) directory query. */
  datatype Combination = Combination(location: String, year: int, course: String)

  /** `convertServerUser`: renames the server's fields and records the year that was queried. */
  function ConvertServerUser(serverUser: ServerUser, year: int): (u: User)
    ensures u.login == serverUser.login
    ensures u.firstName == serverUser.prenom && u.lastName == serverUser.nom
    ensures u.location == serverUser.location
    ensures u.year == year
  {
    User(serverUser.login, serverUser.prenom, serverUser.nom, serverUser.location, year)
  }

  /** The server fields of a user: no information is lost by the conversion. */
  function ServerFields(u: User): ServerUser
  {
    ServerUser(u.login, u.firstName, u.lastName, u.location)
  }

  lemma ConvertServerUserRoundTrip(serverUser: ServerUser, year: int)
    ensures ServerFields(ConvertServerUser(serverUser, year)) == serverUser
  {
  }

  lemma ConvertServerUserOnto(u: User)
    ensures ConvertServerUser(ServerFields(u), u.year) == u
  {
  }

  /**
   * `addUserToArray`, on values: a user whose login is already present only
   * lowers that entry's year to the smaller one; otherwise the user is appended.
   */
  function AddUser(users: seq<User>, newUser: User): (r: seq<User>)
    ensures Logins(r) == AppendAbsent(Logins(users), newUser.login)
    ensures newUser.login in Logins(users) ==>
      |r| == |users| &&
      var i := IndexOfLogin(users, newUser.login);
      r[i].year == Min(users[i].year, newUser.year) &&
      r[i].(year := 0) == users[i].(year := 0) &&
      forall j :: 0 <= j < |users| && j != i ==> r[j] == users[j]
    ensures newUser.login !in Logins(users) ==> r == users + [newUser]
  {
    var i := IndexOfLogin(users, newUser.login);
    if i < |users| then
      users[i := users[i].(year := Min(users[i].year, newUser.year))]
    else
      users + [newUser]
  }

  method AddUserToArray(users: seq<User>, newUser: User) returns (r: seq<User>)
    ensures r == AddUser(users, newUser)
  {
    var i := 0;
    while i < |users| && users[i].login != newUser.login
      invariant 0 <= i <= |users|
      invariant forall j :: 0 <= j < i ==> users[j].login != newUser.login
    {
      i := i + 1;
    }
    assert i == IndexOfLogin(users, newUser.login);
    if i < |users| {
      var oldUser := users[i];
      r := users[i := oldUser.(year := Min(oldUser.year, newUser.year))];
    } else {
      r := users + [newUser];
    }
  }

  /** Folding AddUser over `s`, starting from an empty list. */
  function MergeAll(s: seq<User>): seq<User>
    decreases |s|
  {
    if s == [] then [] else AddUser(MergeAll(s[..|s| - 1]), s[|s| - 1])
  }

  lemma MergeAllStep(s: seq<User>, i: nat)
    requires i < |s|
    ensures MergeAll(s[..i + 1]) == AddUser(MergeAll(s[..i]), s[i])
  {
    assert s[..i + 1][..i] == s[..i];
  }

  /** The smallest year among the entries of `s` with this login. */
  function MinYear(s: seq<User>, login: String): (y: int)
    requires login in Logins(s)
    ensures exists i :: 0 <= i < |s| && s[i].login == login && s[i].year == y
    ensures forall i :: 0 <= i < |s| && s[i].login == login ==> y <= s[i].year
    decreases |s|
  {
    var p, x := s[..|s| - 1], s[|s| - 1];
    assert s == p + [x];
    LoginsSnoc(p, x);
    if x.login != login then MinYear(p, login)
    else if login in Logins(p) then Min(MinYear(p, login), x.year)
    else
      assert forall i :: 0 <= i < |p| ==> p[i].login == Logins(p)[i];
      x.year
  }

  /** `r` is what merging `s` must give: first-occurrence logins, each with its smallest year. */
  predicate IsMergeOf(s: seq<User>, r: seq<User>)
  {
    && Logins(r) == Dedup(Logins(s))
    && forall i :: 0 <= i < |r| ==>
         r[i].login in Logins(s) && r[i] == First(s, r[i].login).(year := MinYear(s, r[i].login))
  }

  lemma FirstSnoc(p: seq<User>, x: User, login: String)
    requires login in Logins(p + [x])
    ensures login in Logins(p) ==> First(p + [x], login) == First(p, login)
    ensures login !in Logins(p) ==> First(p + [x], login) == x
  {
    var s := p + [x];
    LoginsSnoc(p, x);
    var i, k := IndexOfLogin(s, login), IndexOfLogin(p, login);
    if login in Logins(p) {
      assert s[k].login == login;
      assert i == k;
    } else {
      assert i == |p|;
    }
  }

  lemma MinYearSnoc(p: seq<User>, x: User, login: String)
    requires login in Logins(p + [x])
    ensures login in Logins(p) && login != x.login ==> MinYear(p + [x], login) == MinYear(p, login)
    ensures login in Logins(p) && login == x.login ==>
      MinYear(p + [x], login) == Min(MinYear(p, login), x.year)
    ensures login !in Logins(p) ==> MinYear(p + [x], login) == x.year
  {
    var s := p + [x];
    assert s[..|s| - 1] == p && s[|s| - 1] == x;
    LoginsSnoc(p, x);
  }

  /** Merging keeps the first occurrence of each login, with the smallest year seen for it. */
  lemma {:induction false} MergeAllSpec(s: seq<User>)
    ensures IsMergeOf(s, MergeAll(s))
    decreases |s|
  {
    if s != [] {
      var p, x := s[..|s| - 1], s[|s| - 1];
      assert s == p + [x];
      var m := MergeAll(p);
      MergeAllSpec(p);
      var r := AddUser(m, x);
      assert r == MergeAll(s);
      LoginsSnoc(p, x);
      DedupSnoc(Logins(p), x.login);
      assert Logins(r) == Dedup(Logins(s));
      forall i | 0 <= i < |r|
        ensures r[i].login in Logins(s) && r[i] == First(s, r[i].login).(year := MinYear(s, r[i].login))
      {
        MergeStep(p, x, m, i);
      }
    }
  }

  lemma MergeStep(p: seq<User>, x: User, m: seq<User>, i: int)
    requires IsMergeOf(p, m)
    requires 0 <= i < |AddUser(m, x)|
    ensures var r, s := AddUser(m, x), p + [x];
      r[i].login in Logins(s) && r[i] == First(s, r[i].login).(year := MinYear(s, r[i].login))
  {
    var r, s := AddUser(m, x), p + [x];
    LoginsSnoc(p, x);
    assert NoDup(Logins(m));
    if i < |m| {
      var l := m[i].login;
      assert l == Logins(m)[i];
      FirstSnoc(p, x, l);
      MinYearSnoc(p, x, l);
      if x.login in Logins(m) {
        var k := IndexOfLogin(m, x.login);
        if i == k {
          assert r[i] == m[i].(year := Min(m[i].year, x.year));
        } else {
          assert Logins(m)[k] == x.login;
          assert r[i] == m[i];
        }
      } else {
        assert r[i] == m[i];
      }
    } else {
      assert x.login !in Logins(m);
      assert r[i] == x;
      FirstSnoc(p, x, x.login);
      MinYearSnoc(p, x, x.login);
    }
  }

  /**
   * `mergeUserArrays(a, b)`: the users of `a` then `b`, one per login in order
   * of first occurrence, each carrying the smallest year seen for its login and
   * the other fields of its first occurrence.
   */
  method MergeUserArrays(a: seq<User>, b: seq<User>) returns (r: seq<User>)
    ensures r == MergeAll(a + b)
    ensures NoDup(Logins(r))
    ensures Logins(r) == Dedup(Logins(a) + Logins(b))
    ensures forall i :: 0 <= i < |r| ==>
      r[i].login in Logins(a + b) &&
      r[i] == First(a + b, r[i].login).(year := MinYear(a + b, r[i].login))
  {
    var all := a + b;
    r := [];
    for i := 0 to |all|
      invariant r == MergeAll(all[..i])
    {
      MergeAllStep(all, i);
      r := AddUserToArray(r, all[i]);
    }
    assert all[..|all|] == all;
    MergedPair(a, b);
  }

  /** The facts `MergeUserArrays` promises, about the merge of the two lists joined. */
  lemma MergedPair(a: seq<User>, b: seq<User>)
    ensures NoDup(Logins(MergeAll(a + b)))
    ensures Logins(MergeAll(a + b)) == Dedup(Logins(a) + Logins(b))
    ensures forall i :: 0 <= i < |MergeAll(a + b)| ==>
      MergeAll(a + b)[i].login in Logins(a + b) &&
      MergeAll(a + b)[i] == First(a + b, MergeAll(a + b)[i].login).(year := MinYear(a + b, MergeAll(a + b)[i].login))
  {
    MergeAllSpec(a + b);
    LoginsAppend(a, b);
  }

  /**
   * `fetchAll` once every query has been answered: the answer of the first
   * query merged with the merge of the remaining ones.
   */
  function FetchAllMerged(batches: seq<seq<User>>): seq<User>
    decreases |batches|
  {
    if batches == [] then [] else MergeAll(batches[0] + FetchAllMerged(batches[1..]))
  }

  /** The fetched user list has one entry per login found in any answer, and no other. */
  lemma {:induction false} FetchAllMergedLogins(batches: seq<seq<User>>)
    ensures NoDup(Logins(FetchAllMerged(batches)))
    ensures forall l :: l in Logins(FetchAllMerged(batches)) <==>
      exists i :: 0 <= i < |batches| && l in Logins(batches[i])
    decreases |batches|
  {
    if batches != [] {
      var rest := FetchAllMerged(batches[1..]);
      FetchAllMergedLogins(batches[1..]);
      MergeAllSpec(batches[0] + rest);
      LoginsAppend(batches[0], rest);
      forall l | l in Logins(FetchAllMerged(batches))
        ensures exists i :: 0 <= i < |batches| && l in Logins(batches[i])
      {
        if l !in Logins(batches[0]) {
          var i :| 0 <= i < |batches[1..]| && l in Logins(batches[1..][i]);
          assert l in Logins(batches[i + 1]);
        }
      }
      forall l, i | 0 <= i < |batches| && l in Logins(batches[i])
        ensures l in Logins(FetchAllMerged(batches))
      {
        if i > 0 {
          assert l in Logins(batches[1..][i - 1]);
        }
      }
    }
  }

  /** The queries of one location: years in order, all courses for each year. */
  function YearsFor(location: String, years: seq<int>, courses: seq<String>): seq<Combination>
    decreases |years|
  {
    if years == [] then []
    else
      YearsFor(location, years[..|years| - 1], courses) +
      seq(|courses|, k requires 0 <= k < |courses| => Combination(location, years[|years| - 1], courses[k]))
  }

  /** All queries: location-major, then year, then course. */
  function AllCombinations(locations: seq<String>, years: seq<int>, courses: seq<String>): seq<Combination>
    decreases |locations|
  {
    if locations == [] then []
    else
      AllCombinations(locations[..|locations| - 1], years, courses) +
      YearsFor(locations[|locations| - 1], years, courses)
  }

  lemma MulStep(n: nat, c: nat)
    ensures (n + 1) * c == n * c + c
  {
  }

  lemma MulBound(j: nat, n: nat, c: nat, k: nat)
    requires j < n && k < c
    ensures j * c + k < n * c
  {
    var d := n - j - 1;
    assert n == j + 1 + d;
    assert n * c == j * c + c + d * c;
  }

  /** Position of the query (location `i`, year `j`, course `k`) in location-major order. */
  function Slot(i: nat, j: nat, k: nat, yearCount: nat, courseCount: nat): nat
  {
    (i * yearCount + j) * courseCount + k
  }

  lemma Regroup(i: nat, j: nat, m: nat, c: nat, k: nat)
    ensures Slot(i, j, k, m, c) == i * (m * c) + (j * c + k)
  {
    assert (i * m + j) * c == i * m * c + j * c;
  }

  lemma MulAssoc(a: nat, b: nat, c: nat)
    ensures a * (b * c) == a * b * c
  {
  }

  lemma {:induction false} YearsForLength(location: String, years: seq<int>, courses: seq<String>)
    ensures |YearsFor(location, years, courses)| == |years| * |courses|
    decreases |years|
  {
    if years != [] {
      YearsForLength(location, years[..|years| - 1], courses);
      MulStep(|years| - 1, |courses|);
    }
  }

  lemma {:induction false} YearsForAt(location: String, years: seq<int>, courses: seq<String>, j: nat, k: nat)
    requires j < |years| && k < |courses|
    ensures j * |courses| + k < |YearsFor(location, years, courses)|
    ensures YearsFor(location, years, courses)[j * |courses| + k] == Combination(location, years[j], courses[k])
    decreases |years|
  {
    var n, c := |years|, |courses|;
    var p := years[..n - 1];
    YearsForLength(location, p, courses);
    YearsForLength(location, years, courses);
    MulBound(j, n, c, k);
    if j < n - 1 {
      MulBound(j, n - 1, c, k);
      YearsForAt(location, p, courses, j, k);
      assert p[j] == years[j];
    }
  }

  lemma {:induction false} AllCombinationsLength(locations: seq<String>, years: seq<int>, courses: seq<String>)
    ensures |AllCombinations(locations, years, courses)| == |locations| * (|years| * |courses|)
    decreases |locations|
  {
    if locations != [] {
      AllCombinationsLength(locations[..|locations| - 1], years, courses);
      YearsForLength(locations[|locations| - 1], years, courses);
      MulStep(|locations| - 1, |years| * |courses|);
    }
  }

  lemma {:induction false} AllCombinationsAt(locations: seq<String>, years: seq<int>, courses: seq<String>,
                                             i: nat, j: nat, k: nat)
    requires i < |locations| && j < |years| && k < |courses|
    ensures i * (|years| * |courses|) + (j * |courses| + k) < |AllCombinations(locations, years, courses)|
    ensures AllCombinations(locations, years, courses)[i * (|years| * |courses|) + (j * |courses| + k)] ==
      Combination(locations[i], years[j], courses[k])
    decreases |locations|
  {
    var n, m, c := |locations|, |years|, |courses|;
    var b, w := m * c, j * c + k;
    var p := locations[..n - 1];
    var front := AllCombinations(p, years, courses);
    var last := YearsFor(locations[n - 1], years, courses);
    assert AllCombinations(locations, years, courses) == front + last;
    assert |front| == (n - 1) * b by {
      AllCombinationsLength(p, years, courses);
    }
    assert |last| == b by {
      YearsForLength(locations[n - 1], years, courses);
    }
    assert w < b by {
      MulBound(j, m, c, k);
    }
    if i < n - 1 {
      assert i * b + w < |front| by {
        MulBound(i, n - 1, b, w);
      }
      AllCombinationsAt(p, years, courses, i, j, k);
      assert p[i] == locations[i];
    } else {
      assert i * b == |front|;
      YearsForAt(locations[n - 1], years, courses, j, k);
    }
  }

  /** AllCombinations lists the queries location-major, then by year, then by course. */
  lemma CombinationsLayout(locations: seq<String>, years: seq<int>, courses: seq<String>)
    ensures |AllCombinations(locations, years, courses)| == |locations| * |years| * |courses|
    ensures forall i, j, k :: 0 <= i < |locations| && 0 <= j < |years| && 0 <= k < |courses| ==>
      && Slot(i, j, k, |years|, |courses|) < |AllCombinations(locations, years, courses)|
      && AllCombinations(locations, years, courses)[Slot(i, j, k, |years|, |courses|)] ==
           Combination(locations[i], years[j], courses[k])
  {
    var m, c := |years|, |courses|;
    AllCombinationsLength(locations, years, courses);
    MulAssoc(|locations|, m, c);
    forall i, j, k | 0 <= i < |locations| && 0 <= j < m && 0 <= k < c
      ensures && Slot(i, j, k, m, c) < |AllCombinations(locations, years, courses)|
              && AllCombinations(locations, years, courses)[Slot(i, j, k, m, c)] ==
                   Combination(locations[i], years[j], courses[k])
    {
      Regroup(i, j, m, c, k);
      AllCombinationsAt(locations, years, courses, i, j, k);
    }
  }

  /** The nested loops of `fetchUsers` that list every (location, year, course) query. */
  method Combinations(locations: seq<String>, years: seq<int>, courses: seq<String>)
    returns (r: seq<Combination>)
    ensures |r| == |locations| * |years| * |courses|
    ensures forall i, j, k :: 0 <= i < |locations| && 0 <= j < |years| && 0 <= k < |courses| ==>
      && Slot(i, j, k, |years|, |courses|) < |r|
      && r[Slot(i, j, k, |years|, |courses|)] == Combination(locations[i], years[j], courses[k])
  {
    r := [];
    for i := 0 to |locations|
      invariant r == AllCombinations(locations[..i], years, courses)
    {
      var l := locations[i];
      assert locations[..i + 1][..i] == locations[..i];
      for j := 0 to |years|
        invariant r == AllCombinations(locations[..i], years, courses) + YearsFor(l, years[..j], courses)
      {
        var y := years[j];
        assert years[..j + 1][..j] == years[..j];
        ghost var before := r;
        for k := 0 to |courses|
          invariant r == before + seq(k, n requires 0 <= n < k => Combination(l, y, courses[n]))
        {
          r := r + [Combination(l, y, courses[k])];
        }
      }
      assert years[..|years|] == years;
    }
    assert locations[..|locations|] == locations;
    CombinationsLayout(locations, years, courses);
  }
}
