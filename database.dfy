/**
 * The database handle: one field per table, and one method per operation
 * that runs the operation's queries in order, returns at the first guard
 * that fails, and otherwise performs its single insert or delete. Each
 * method is proved to produce exactly the tables and outcome its
 * specification function in `Accounts` or `Rooms` gives, and to keep the
 * store invariant.
 */
module Store {

  import opened Types
  import opened Queries
  import opened Schema
  import opened InvitationCodes
  import Accounts
  import Rooms

  class Database {
    var users: seq<User>
    var sessions: map<Token, UserId>
    var rooms: map<RoomId, RoomRecord>
    var members: set<Membership>
    var codes: seq<InvitationCode>
    var nextRoomId: RoomId

    /** The tables as one value. */
    function Snapshot(): Tables
      reads this
    {
      Tables(users, sessions, rooms, members, codes, nextRoomId)
    }

    ghost predicate Valid()
      reads this
    {
      Inv(Snapshot())
    }

    /** The store as the server starts it. */
    constructor ()
      ensures Snapshot() == Init()
      ensures Valid()
    {
      users := [ADMIN];
      sessions := map[];
      rooms := map[];
      members := {};
      codes := [];
      nextRoomId := 1;
    }

    method RegisterUser(user: NewUser, hashed: Option<PasswordHash>) returns (r: Result<RegisterOutcome>)
      requires Valid()
      modifies this
      ensures Valid()
      ensures Step(Snapshot(), r) == Accounts.RegisterUser(old(Snapshot()), user, hashed)
    {
      Accounts.RegisterPreservesInv(Snapshot(), user, hashed);
      var existing := UserByEmail(users, user.email);
      if existing.Some? {
        return Ok(RegisterOutcome.UserAlreadyExists);
      }
      if hashed.None? {
        return Err;
      }
      users := users + [User(NextUserId(users), user.name, user.surname, hashed.value, user.email)];
      r := Ok(RegisterOutcome.Success);
    }

    method LoginUser(email: string, password: string, token: Token,
                     verify: (string, PasswordHash) -> Option<bool>) returns (r: Result<LoginOutcome>)
      requires Valid()
      modifies this
      ensures Valid()
      ensures Step(Snapshot(), r) == Accounts.LoginUser(old(Snapshot()), email, password, token, verify)
    {
      Accounts.LoginPreservesInv(Snapshot(), email, password, token, verify);
      var user := UserByEmail(users, email);
      if user.None? {
        return Ok(LoginOutcome.UserDoesNotExist);
      }
      var matches := verify(password, user.value.passwordHash);
      if matches.None? {
        return Err;
      }
      if !matches.value {
        return Ok(LoginOutcome.InvalidCredentials);
      }
      if token in sessions {
        return Err;
      }
      sessions := sessions[token := user.value.id];
      r := Ok(LoginOutcome.Success(token));
    }

    method LogoutUser(token: Token) returns (r: LogoutOutcome)
      requires Valid()
      modifies this
      ensures Valid()
      ensures Step(Snapshot(), r) == Accounts.LogoutUser(old(Snapshot()), token)
    {
      Accounts.LogoutPreservesInv(Snapshot(), token);
      var deleted := if token in sessions then 1 else 0;
      sessions := sessions - {token};
      if deleted > 0 {
        r := LogoutOutcome.Success;
      } else {
        r := LogoutOutcome.NotLoggedIn;
      }
    }

    method CreateRoom(token: Token, room: NewRoom) returns (r: CreateRoomOutcome)
      requires Valid()
      modifies this
      ensures Valid()
      ensures Step(Snapshot(), r) == Rooms.CreateRoom(old(Snapshot()), token, room)
    {
      Rooms.CreateRoomPreservesInv(Snapshot(), token, room);
      var user := ResolveSession(sessions, token);
      if user.None? {
        return CreateRoomOutcome.NotLoggedIn;
      }
      var roomId := nextRoomId;
      rooms := rooms[roomId := RoomRecord(user.value, room.name, room.description)];
      nextRoomId := nextRoomId + 1;
      members := members + {Membership(roomId, user.value)};
      r := CreateRoomOutcome.Success;
    }

    /** `get_rooms`: the join query yields one row per room the caller is a
        member of; the loop copies the rows into the result one at a time,
        in whatever order the query yields them. */
    method GetRooms(token: Token) returns (r: GetRoomOutcome)
      requires Valid()
      ensures token !in sessions ==> r == GetRoomOutcome.NotLoggedIn
      ensures token in sessions ==>
        r.Success? && multiset(r.rooms) == Rooms.RoomsOfUser(Snapshot(), sessions[token])
    {
      var user := ResolveSession(sessions, token);
      if user.None? {
        return GetRoomOutcome.NotLoggedIn;
      }
      var pending := JoinedRoomIds(Snapshot(), user.value);
      ghost var all := pending;
      var result: seq<Room> := [];
      while pending != {}
        invariant pending <= all <= rooms.Keys
        invariant multiset(result) + RoomsListed(rooms, pending) == RoomsListed(rooms, all)
        decreases pending
      {
        HasMember(pending);
        var id :| id in pending;
        RoomsListedTake(rooms, pending, id);
        result := result + [Summary(rooms[id])];
        pending := pending - {id};
      }
      r := GetRoomOutcome.Success(result);
    }

    /** The retry loop of `get_invitation_code`: draw a code, stop at the
        first one no row holds yet. */
    method DrawUnusedCode(draws: seq<seq<nat>>) returns (code: Code)
      requires Rooms.AllDraws(draws)
      requires Rooms.HasFreshCandidate(codes, Rooms.Candidates(draws))
      ensures code == Rooms.Candidates(draws)[Rooms.FirstFresh(codes, Rooms.Candidates(draws), 0)]
      ensures !CodeInUse(codes, code)
      ensures IsInvitationCode(code)
    {
      ghost var candidates := Rooms.Candidates(draws);
      ghost var stop := Rooms.FirstFresh(codes, candidates, 0);
      var k := 0;
      while true
        invariant 0 <= k <= stop
        decreases stop - k
      {
        var candidate := GenerateInvitationCode(draws[k]);
        assert candidate == candidates[k];
        var taken := CodeInUse(codes, candidate);
        if !taken {
          assert k == stop;
          return candidate;
        }
        k := k + 1;
      }
    }

    method GetInvitationCode(token: Token, roomId: RoomId, draws: seq<seq<nat>>) returns (r: InvitationCodeOutcome)
      requires Valid()
      requires Rooms.AllDraws(draws)
      requires Rooms.NeedsNewCode(Snapshot(), token, roomId) ==> Rooms.HasFreshCandidate(codes, Rooms.Candidates(draws))
      modifies this
      ensures Valid()
      ensures Step(Snapshot(), r) == Rooms.GetInvitationCode(old(Snapshot()), token, roomId, draws)
    {
      Rooms.GetInvitationCodePreservesInv(Snapshot(), token, roomId, draws);
      var user := ResolveSession(sessions, token);
      if user.None? {
        return InvitationCodeOutcome.NotLoggedIn;
      }
      if !IsOwner(rooms, roomId, user.value) {
        return InvitationCodeOutcome.NotOwner;
      }
      var existing := CodeOfRoom(codes, roomId);
      if existing.Some? {
        return InvitationCodeOutcome.Success(existing.value);
      }
      var code := DrawUnusedCode(draws);
      codes := codes + [InvitationCode(roomId, code)];
      r := InvitationCodeOutcome.Success(code);
    }

    method JoinRoom(token: Token, code: Code) returns (r: JoinRoomOutcome)
      requires Valid()
      modifies this
      ensures Valid()
      ensures Step(Snapshot(), r) == Rooms.JoinRoom(old(Snapshot()), token, code)
    {
      Rooms.JoinRoomPreservesInv(Snapshot(), token, code);
      var user := ResolveSession(sessions, token);
      if user.None? {
        return JoinRoomOutcome.NotLoggedIn;
      }
      var room := RoomOfCode(codes, code);
      if room.None? {
        return JoinRoomOutcome.InvalidCode;
      }
      if Membership(room.value, user.value) in members {
        return JoinRoomOutcome.AlreadyMember;
      }
      members := members + {Membership(room.value, user.value)};
      r := JoinRoomOutcome.Success;
    }

    method LeaveRoom(token: Token, roomId: RoomId) returns (r: LeaveRoomOutcome)
      requires Valid()
      modifies this
      ensures Valid()
      ensures Step(Snapshot(), r) == Rooms.LeaveRoom(old(Snapshot()), token, roomId)
    {
      Rooms.LeaveRoomPreservesInv(Snapshot(), token, roomId);
      var user := ResolveSession(sessions, token);
      if user.None? {
        return LeaveRoomOutcome.NotLoggedIn;
      }
      if IsOwner(rooms, roomId, user.value) {
        return LeaveRoomOutcome.OwnerCannotLeave;
      }
      var affected := if Membership(roomId, user.value) in members then 1 else 0;
      members := members - {Membership(roomId, user.value)};
      if affected == 0 {
        return LeaveRoomOutcome.NotMember;
      }
      r := LeaveRoomOutcome.Success;
    }
  }
}
