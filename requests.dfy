/**
 * Sequences of requests against the store, one operation after another.
 * Every state reached from the start-up state satisfies the invariant,
 * and a session stays valid until that very token is logged out.
 */
module Requests {

  import opened Types
  import opened Queries
  import opened Schema
  import Accounts
  import Rooms

  /** One call into the database layer, with the values the foreign
      services produced for it (the bcrypt hash, the new UUID, the random
      draws). */
  datatype Request =
    | Register(user: NewUser, hashed: Option<PasswordHash>)
    | Login(email: string, password: string, token: Token)
    | Logout(token: Token)
    | Verify(token: Token)
    | Create(token: Token, room: NewRoom)
    | List(token: Token)
    | GetCode(token: Token, roomId: RoomId, draws: seq<seq<nat>>)
    | Join(token: Token, code: Code)
    | Leave(token: Token, roomId: RoomId)

  /** Whether the retry loop of a code request ends: it does unless the
      call reaches the loop and no draw is fresh. */
  predicate CodeRequestEnds(t: Tables, token: Token, roomId: RoomId, draws: seq<seq<nat>>) {
    Rooms.AllDraws(draws)
    && (Rooms.NeedsNewCode(t, token, roomId) ==> Rooms.HasFreshCandidate(t.codes, Rooms.Candidates(draws)))
  }

  /** The tables after one request. Listing and verifying only read; a
      code request whose retry loop never ends stores nothing. */
  function Apply(t: Tables, req: Request, verify: (string, PasswordHash) -> Option<bool>): Tables {
    match req
    case Register(user, hashed) => Accounts.RegisterUser(t, user, hashed).tables
    case Login(email, password, token) => Accounts.LoginUser(t, email, password, token, verify).tables
    case Logout(token) => Accounts.LogoutUser(t, token).tables
    case Verify(_) => t
    case Create(token, room) => Rooms.CreateRoom(t, token, room).tables
    case List(_) => t
    case GetCode(token, roomId, draws) =>
      if CodeRequestEnds(t, token, roomId, draws) then Rooms.GetInvitationCode(t, token, roomId, draws).tables
      else t
    case Join(token, code) => Rooms.JoinRoom(t, token, code).tables
    case Leave(token, roomId) => Rooms.LeaveRoom(t, token, roomId).tables
  }

  /** The tables after the requests, in order. */
  function Run(t: Tables, reqs: seq<Request>, verify: (string, PasswordHash) -> Option<bool>): Tables
    decreases |reqs|
  {
    if reqs == [] then t else Run(Apply(t, reqs[0], verify), reqs[1..], verify)
  }

  lemma ApplyPreservesInv(t: Tables, req: Request, verify: (string, PasswordHash) -> Option<bool>)
    requires Inv(t)
    ensures Inv(Apply(t, req, verify))
  {
    match req
    case Register(user, hashed) => Accounts.RegisterPreservesInv(t, user, hashed);
    case Login(email, password, token) => Accounts.LoginPreservesInv(t, email, password, token, verify);
    case Logout(token) => Accounts.LogoutPreservesInv(t, token);
    case Verify(_) =>
    case Create(token, room) => Rooms.CreateRoomPreservesInv(t, token, room);
    case List(_) =>
    case GetCode(token, roomId, draws) =>
      if CodeRequestEnds(t, token, roomId, draws) {
        Rooms.GetInvitationCodePreservesInv(t, token, roomId, draws);
      }
    case Join(token, code) => Rooms.JoinRoomPreservesInv(t, token, code);
    case Leave(token, roomId) => Rooms.LeaveRoomPreservesInv(t, token, roomId);
  }

  lemma {:induction false} RunPreservesInv(t: Tables, reqs: seq<Request>, verify: (string, PasswordHash) -> Option<bool>)
    requires Inv(t)
    ensures Inv(Run(t, reqs, verify))
    decreases |reqs|
  {
    if reqs != [] {
      ApplyPreservesInv(t, reqs[0], verify);
      RunPreservesInv(Apply(t, reqs[0], verify), reqs[1..], verify);
    }
  }

  /** Every reachable store is consistent: emails unique, sessions and
      memberships name existing users and rooms, owners are members,
      invitation codes unique and at most one per room. */
  lemma ReachableIsConsistent(reqs: seq<Request>, verify: (string, PasswordHash) -> Option<bool>)
    ensures Inv(Run(Init(), reqs, verify))
    ensures forall email :: Accounts.EmailCount(Run(Init(), reqs, verify).users, email) <= 1
  {
    RunPreservesInv(Init(), reqs, verify);
    forall email ensures Accounts.EmailCount(Run(Init(), reqs, verify).users, email) <= 1 {
      Accounts.EmailAtMostOnce(Run(Init(), reqs, verify), email);
    }
  }

  /** Only a logout of the token itself ends its session. */
  predicate EndsSession(req: Request, token: Token) {
    req.Logout? && req.token == token
  }

  lemma ApplyKeepsSession(t: Tables, req: Request, token: Token, verify: (string, PasswordHash) -> Option<bool>)
    requires token in t.sessions && !EndsSession(req, token)
    ensures ResolveSession(Apply(t, req, verify).sessions, token) == ResolveSession(t.sessions, token)
  {
  }

  /** A token that verifies keeps verifying, bound to the same user,
      through any requests that do not log it out. */
  lemma {:induction false} SessionValidUntilLogout(t: Tables, reqs: seq<Request>, token: Token,
                                                   verify: (string, PasswordHash) -> Option<bool>)
    requires token in t.sessions
    requires forall i :: 0 <= i < |reqs| ==> !EndsSession(reqs[i], token)
    ensures Accounts.VerifySession(Run(t, reqs, verify), token)
    ensures ResolveSession(Run(t, reqs, verify).sessions, token) == ResolveSession(t.sessions, token)
    decreases |reqs|
  {
    if reqs != [] {
      ApplyKeepsSession(t, reqs[0], token, verify);
      SessionValidUntilLogout(Apply(t, reqs[0], verify), reqs[1..], token, verify);
    }
  }
}
