/**
 * Registration and the session lifecycle: register, log in, log out and
 * verify a session token, each as a function from the tables before the
 * call to the tables after it and the outcome returned.
 *
 * bcrypt is not modelled. Hashing is an input, the hash the primitive
 * produced for this call or `None` when it failed; verification is a
 * function `verify` from a password and a stored hash to `Some(matches)`,
 * or `None` when the primitive fails (a malformed hash).
 */
module Accounts {

  import opened Types
  import opened Queries
  import opened Schema

  /** Some user already has this email. */
  predicate EmailTaken(users: seq<User>, email: string) {
    exists u :: u in users && u.email == email
  }

  /** `register_user`: refuse a taken email, then hash the password, then
      insert the user with the next id. */
  function RegisterUser(t: Tables, user: NewUser, hashed: Option<PasswordHash>): (s: Step<Result<RegisterOutcome>>)
    ensures s.outcome == Ok(RegisterOutcome.UserAlreadyExists) <==> EmailTaken(t.users, user.email)
    ensures s.outcome == Err <==> !EmailTaken(t.users, user.email) && hashed.None?
    ensures s.outcome != Ok(RegisterOutcome.Success) ==> s.tables == t
    ensures s.outcome == Ok(RegisterOutcome.Success) ==>
      && hashed.Some?
      && |s.tables.users| == |t.users| + 1
      && s.tables.users[..|t.users|] == t.users
      && s.tables.users[|t.users|].email == user.email
      && s.tables.users[|t.users|].name == user.name
      && s.tables.users[|t.users|].surname == user.surname
      && s.tables.users[|t.users|].passwordHash == hashed.value
      && s.tables == t.(users := s.tables.users)
  {
    if UserByEmail(t.users, user.email).Some? then
      Step(t, Ok(RegisterOutcome.UserAlreadyExists))
    else if hashed.None? then
      Step(t, Err)
    else
      var row := User(NextUserId(t.users), user.name, user.surname, hashed.value, user.email);
      Step(t.(users := t.users + [row]), Ok(RegisterOutcome.Success))
  }

  /** `login_user`: find the user by email, check the password against the
      stored hash, then insert a session under the fresh token. A token
      already present violates the primary key of `sessions` and fails. */
  function LoginUser(t: Tables, email: string, password: string, token: Token,
                     verify: (string, PasswordHash) -> Option<bool>): (s: Step<Result<LoginOutcome>>)
    ensures s.tables.users == t.users
    ensures s.outcome == Ok(LoginOutcome.UserDoesNotExist) <==> !EmailTaken(t.users, email)
    ensures s.outcome == Ok(LoginOutcome.InvalidCredentials) <==>
      EmailTaken(t.users, email) && verify(password, UserByEmail(t.users, email).value.passwordHash) == Some(false)
    ensures s.outcome.Ok? && s.outcome.value.Success? <==>
      EmailTaken(t.users, email) && verify(password, UserByEmail(t.users, email).value.passwordHash) == Some(true)
      && token !in t.sessions
    ensures s.outcome.Ok? && s.outcome.value.Success? ==>
      && s.outcome.value.token == token
      && s.tables == t.(sessions := t.sessions[token := UserByEmail(t.users, email).value.id])
    ensures !(s.outcome.Ok? && s.outcome.value.Success?) ==> s.tables == t
  {
    match UserByEmail(t.users, email)
    case None => Step(t, Ok(LoginOutcome.UserDoesNotExist))
    case Some(u) =>
      match verify(password, u.passwordHash)
      case None => Step(t, Err)
      case Some(false) => Step(t, Ok(LoginOutcome.InvalidCredentials))
      case Some(true) =>
        if token in t.sessions then Step(t, Err)
        else Step(t.(sessions := t.sessions[token := u.id]), Ok(LoginOutcome.Success(token)))
  }

  /** `logout_user`: delete the session row; the number of rows deleted
      decides the outcome. */
  function LogoutUser(t: Tables, token: Token): (s: Step<LogoutOutcome>)
    ensures s.outcome == LogoutOutcome.Success <==> token in t.sessions
    ensures s.outcome == LogoutOutcome.NotLoggedIn <==> token !in t.sessions
    ensures s.tables == t.(sessions := t.sessions - {token})
    ensures token !in t.sessions ==> s.tables == t
  {
    var deleted := if token in t.sessions then 1 else 0;
    var after := t.(sessions := t.sessions - {token});
    if deleted > 0 then Step(after, LogoutOutcome.Success) else Step(after, LogoutOutcome.NotLoggedIn)
  }

  /** `verify_session`: whether the token names a session. */
  function VerifySession(t: Tables, token: Token): (ok: bool)
    ensures ok <==> token in t.sessions
  {
    ResolveSession(t.sessions, token).Some?
  }

  /** How many users have this email. */
  function EmailCount(users: seq<User>, email: string): (n: nat)
    ensures n == 0 <==> !EmailTaken(users, email)
  {
    if users == [] then 0
    else (if users[0].email == email then 1 else 0) + EmailCount(users[1..], email)
  }

  lemma {:induction false} EmailCountAppend(users: seq<User>, u: User, email: string)
    ensures EmailCount(users + [u], email) == EmailCount(users, email) + if u.email == email then 1 else 0
  {
    if users != [] {
      assert (users + [u])[1..] == users[1..] + [u];
      EmailCountAppend(users[1..], u, email);
    }
  }

  lemma {:induction false} EmailCountUnique(users: seq<User>, email: string)
    requires EmailsUnique(users)
    ensures EmailCount(users, email) <= 1
  {
    if users != [] {
      EmailCountUnique(users[1..], email);
      if users[0].email == email {
        assert forall u | u in users[1..] :: u.email != email by {
          forall u | u in users[1..] ensures u.email != email {
            var j :| 0 <= j < |users[1..]| && users[1..][j] == u;
            assert users[j + 1] == u;
          }
        }
      }
    }
  }

  /** The first user with an email is found again after more rows are
      appended. */
  lemma {:induction false} UserByEmailAppend(users: seq<User>, u: User, email: string)
    requires UserByEmail(users, email).Some?
    ensures UserByEmail(users + [u], email) == UserByEmail(users, email)
  {
    if users[0].email != email {
      assert (users + [u])[1..] == users[1..] + [u];
      UserByEmailAppend(users[1..], u, email);
    }
  }

  /** A user appended after every row with other emails is the one found. */
  lemma {:induction false} UserByEmailNew(users: seq<User>, u: User)
    requires !EmailTaken(users, u.email)
    ensures UserByEmail(users + [u], u.email) == Some(u)
  {
    if users != [] {
      assert (users + [u])[1..] == users[1..] + [u];
      assert !EmailTaken(users[1..], u.email) by {
        forall v | v in users[1..] ensures v.email != u.email {
          assert v in users;
        }
      }
      UserByEmailNew(users[1..], u);
    }
  }

  /** Registration keeps the invariant; in particular the new id is fresh
      and the emails stay unique. */
  lemma RegisterPreservesInv(t: Tables, user: NewUser, hashed: Option<PasswordHash>)
    requires Inv(t)
    ensures Inv(RegisterUser(t, user, hashed).tables)
    ensures RegisterUser(t, user, hashed).outcome == Ok(RegisterOutcome.Success) ==>
      RegisterUser(t, user, hashed).tables.users[|t.users|].id !in UserIds(t.users)
  {
    var s := RegisterUser(t, user, hashed);
    if s.outcome == Ok(RegisterOutcome.Success) {
      NextUserIdFresh(t.users);
      var row := s.tables.users[|t.users|];
      assert s.tables.users == t.users + [row];
      assert UserIds(t.users) <= UserIds(s.tables.users) by {
        forall id | id in UserIds(t.users) ensures id in UserIds(s.tables.users) {
          var u :| u in t.users && u.id == id;
          assert u in s.tables.users;
        }
      }
      assert IdsAscending(s.tables.users) by {
        forall i, j | 0 <= i < j < |s.tables.users| ensures s.tables.users[i].id < s.tables.users[j].id {
          if j == |t.users| {
            assert s.tables.users[i] in t.users;
          }
        }
      }
      assert EmailsUnique(s.tables.users) by {
        forall i, j | 0 <= i < j < |s.tables.users| ensures s.tables.users[i].email != s.tables.users[j].email {
          if j == |t.users| {
            assert s.tables.users[i] in t.users;
          }
        }
      }
    }
  }

  /** Registering an email twice: the second call reports
      `UserAlreadyExists`, changes nothing, and exactly one user holds the
      email. */
  lemma RegisterTwice(t: Tables, first: NewUser, h1: Option<PasswordHash>, second: NewUser, h2: Option<PasswordHash>)
    requires Inv(t)
    requires RegisterUser(t, first, h1).outcome == Ok(RegisterOutcome.Success)
    requires second.email == first.email
    ensures var t1 := RegisterUser(t, first, h1).tables;
      && RegisterUser(t1, second, h2) == Step(t1, Ok(RegisterOutcome.UserAlreadyExists))
      && EmailCount(t1.users, first.email) == 1
  {
    var t1 := RegisterUser(t, first, h1).tables;
    var row := t1.users[|t.users|];
    assert t1.users == t.users + [row];
    assert row in t1.users;
    EmailCountAppend(t.users, row, first.email);
  }

  /** Distinct emails never collide: under the invariant every reachable
      users table has at most one user per email. */
  lemma EmailAtMostOnce(t: Tables, email: string)
    requires Inv(t)
    ensures EmailCount(t.users, email) <= 1
  {
    EmailCountUnique(t.users, email);
  }

  lemma LoginPreservesInv(t: Tables, email: string, password: string, token: Token,
                          verify: (string, PasswordHash) -> Option<bool>)
    requires Inv(t)
    ensures Inv(LoginUser(t, email, password, token, verify).tables)
  {
    var s := LoginUser(t, email, password, token, verify);
    if s.outcome.Ok? && s.outcome.value.Success? {
      var u := UserByEmail(t.users, email).value;
      assert u.id in UserIds(t.users);
    }
  }

  lemma LogoutPreservesInv(t: Tables, token: Token)
    requires Inv(t)
    ensures Inv(LogoutUser(t, token).tables)
  {
  }

  /** A registered user logs in with the password they registered: when
      the primitive confirms the hash it produced, the login succeeds and
      the new token resolves to the new user's id. */
  lemma RegisterThenLogin(t: Tables, user: NewUser, hashed: Option<PasswordHash>, token: Token,
                          verify: (string, PasswordHash) -> Option<bool>)
    requires Inv(t)
    requires RegisterUser(t, user, hashed).outcome == Ok(RegisterOutcome.Success)
    requires verify(user.password, hashed.value) == Some(true)
    requires token !in t.sessions
    ensures var t1 := RegisterUser(t, user, hashed).tables;
      var s := LoginUser(t1, user.email, user.password, token, verify);
      && s.outcome == Ok(LoginOutcome.Success(token))
      && ResolveSession(s.tables.sessions, token) == Some(t1.users[|t.users|].id)
  {
    var t1 := RegisterUser(t, user, hashed).tables;
    var row := t1.users[|t.users|];
    assert t1.users == t.users + [row];
    UserByEmailNew(t.users, row);
  }

  /** A successful login yields a token that verifies and resolves to the
      id of the user with that email. */
  lemma LoginThenVerify(t: Tables, email: string, password: string, token: Token,
                        verify: (string, PasswordHash) -> Option<bool>)
    requires LoginUser(t, email, password, token, verify).outcome == Ok(LoginOutcome.Success(token))
    ensures var t1 := LoginUser(t, email, password, token, verify).tables;
      && VerifySession(t1, token)
      && ResolveSession(t1.sessions, token) == Some(UserByEmail(t.users, email).value.id)
      && (forall other | other in t.sessions :: other in t1.sessions && t1.sessions[other] == t.sessions[other])
  {
  }

  /** Logging out twice: `Success` then `NotLoggedIn`; afterwards the token
      no longer verifies, and every other session is still there. */
  lemma LogoutTwice(t: Tables, token: Token)
    requires token in t.sessions
    ensures var s1 := LogoutUser(t, token);
      var s2 := LogoutUser(s1.tables, token);
      && s1.outcome == LogoutOutcome.Success
      && s2.outcome == LogoutOutcome.NotLoggedIn
      && s2.tables == s1.tables
      && !VerifySession(s1.tables, token)
      && (forall other | other in t.sessions && other != token ::
            ResolveSession(s1.tables.sessions, other) == ResolveSession(t.sessions, other))
  {
  }
}
