/** Users: the admin check, login and the lookups registration relies on.
    Identifiers are naturals and 0 stands for an absent (falsy) id; an empty
    string stands for an absent (falsy) text field. */
module Accounts {
  import opened Types

  /** `isAdmin(userId)`: a falsy id is never an administrator; otherwise some
      user row with that id has the admin flag set. */
  predicate IsAdmin(users: seq<User>, userId: nat) {
    userId != 0 && exists k :: 0 <= k < |users| && users[k].id == userId && users[k].isAdmin
  }

  /** `SELECT ... FROM users WHERE id = :id`, first row. */
  function FindUser(users: seq<User>, id: nat): (r: Option<User>)
    ensures r.Some? ==> r.value in users && r.value.id == id
    ensures r.None? <==> forall k :: 0 <= k < |users| ==> users[k].id != id
  {
    if users == [] then None
    else if users[0].id == id then Some(users[0])
    else FindUser(users[1..], id)
  }

  /** Some user already has this e-mail address (the check before registering). */
  predicate EmailTaken(users: seq<User>, email: string) {
    exists k :: 0 <= k < |users| && users[k].email == email
  }

  /** `SELECT ... WHERE email = :email AND password = :password`, first row. */
  function FindCredentials(users: seq<User>, email: string, password: string): (r: Option<User>)
    ensures r.Some? ==> r.value in users && r.value.email == email && r.value.password == password
    ensures r.None? <==> forall k :: 0 <= k < |users| ==> !(users[k].email == email && users[k].password == password)
  {
    if users == [] then None
    else if users[0].email == email && users[0].password == password then Some(users[0])
    else FindCredentials(users[1..], email, password)
  }

  /** `POST /api/login`: 400 when either field is missing, 401 when no user has
      that e-mail and password, otherwise the matching user (whose id is the token). */
  function Login(users: seq<User>, email: string, password: string): (r: Outcome<User>)
    ensures r.Failure? ==> r.status == BadRequest400 || r.status == Unauthorized401
    ensures r == Failure(BadRequest400) <==> email == "" || password == ""
    ensures r == Failure(Unauthorized401) <==>
      email != "" && password != "" &&
      forall k :: 0 <= k < |users| ==> !(users[k].email == email && users[k].password == password)
    ensures r.Success? ==> r.value in users && r.value.email == email && r.value.password == password
  {
    if email == "" || password == "" then Failure(BadRequest400)
    else match FindCredentials(users, email, password)
      case None => Failure(Unauthorized401)
      case Some(u) => Success(u)
  }

  /** The users table invariant: ids are positive, unique and below the next
      AUTO_INCREMENT value, and no two users share an e-mail address. */
  predicate UsersWellFormed(users: seq<User>, nextId: nat) {
    && (forall k :: 0 <= k < |users| ==> 0 < users[k].id < nextId)
    && (forall i, j :: 0 <= i < j < |users| ==> users[i].id != users[j].id)
    && (forall i, j :: 0 <= i < j < |users| ==> users[i].email != users[j].email)
  }

  /** The largest id in the table (0 for an empty table). */
  function MaxUserId(users: seq<User>): (m: nat)
    ensures forall k :: 0 <= k < |users| ==> users[k].id <= m
    ensures users == [] ==> m == 0
    ensures users != [] ==> exists k :: 0 <= k < |users| && users[k].id == m
  {
    if users == [] then 0
    else
      var rest := MaxUserId(users[1..]);
      if users[0].id >= rest then users[0].id else rest
  }

  /** Registration appends a user whose e-mail was free; that user can then log
      in with the same e-mail and password, and login returns exactly them. */
  lemma {:induction false} RegisterThenLogin(users: seq<User>, u: User)
    requires !EmailTaken(users, u.email)
    requires u.email != "" && u.password != ""
    ensures Login(users + [u], u.email, u.password) == Success(u)
  {
    FoundAfterFreshEmail(users, u);
  }

  lemma {:induction false} FoundAfterFreshEmail(users: seq<User>, u: User)
    requires !EmailTaken(users, u.email)
    ensures FindCredentials(users + [u], u.email, u.password) == Some(u)
  {
    if users != [] {
      assert (users + [u])[1..] == users[1..] + [u];
      assert !EmailTaken(users[1..], u.email) by {
        forall k | 0 <= k < |users[1..]| ensures users[1..][k].email != u.email {
          assert users[1..][k] == users[k + 1];
        }
      }
      FoundAfterFreshEmail(users[1..], u);
    }
  }

  /** Appending a user with a fresh id and a fresh e-mail keeps the invariant. */
  lemma AppendKeepsUsersWellFormed(users: seq<User>, nextId: nat, u: User)
    requires UsersWellFormed(users, nextId)
    requires u.id == nextId && nextId > 0 && !EmailTaken(users, u.email)
    ensures UsersWellFormed(users + [u], nextId + 1)
  {
  }

  /** With unique ids, `isAdmin` is the admin flag of the user that the id lookup finds. */
  lemma AdminIffFoundAdmin(users: seq<User>, nextId: nat, id: nat)
    requires UsersWellFormed(users, nextId)
    ensures IsAdmin(users, id) <==> id != 0 && FindUser(users, id).Some? && FindUser(users, id).value.isAdmin
  {
    if FindUser(users, id).Some? {
      var found := FindUser(users, id).value;
      var j :| 0 <= j < |users| && users[j] == found;
      if IsAdmin(users, id) {
        var k :| 0 <= k < |users| && users[k].id == id && users[k].isAdmin;
        assert j == k;
      }
    }
  }

  /** Registration creates no administrator: after appending a non-admin user,
      every id is an administrator exactly when it was one before. */
  lemma RegisterKeepsAdmins(users: seq<User>, u: User, id: nat)
    requires !u.isAdmin
    ensures IsAdmin(users + [u], id) <==> IsAdmin(users, id)
  {
    var t := users + [u];
    if IsAdmin(t, id) {
      var k :| 0 <= k < |t| && t[k].id == id && t[k].isAdmin;
      assert k < |users| && users[k] == t[k];
    }
    if IsAdmin(users, id) {
      var k :| 0 <= k < |users| && users[k].id == id && users[k].isAdmin;
      assert t[k] == users[k];
    }
  }
}
