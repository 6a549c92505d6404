/**
 * Room operations: create a room, list the caller's rooms, get or create
 * a room's invitation code, join by code and leave. Each first resolves
 * the session token; a token without a session gives `NotLoggedIn` and
 * changes nothing.
 *
 * The random generator behind invitation codes is a sequence of draws,
 * each six indices into the charset; the operation takes the first draw
 * whose code is not yet stored.
 */
module Rooms {

  import opened Types
  import opened Queries
  import opened Schema
  import opened InvitationCodes

  /** `create_room`: insert the room under the next id, then the owner's
      membership row. */
  function CreateRoom(t: Tables, token: Token, room: NewRoom): (s: Step<CreateRoomOutcome>)
    ensures s.outcome == CreateRoomOutcome.NotLoggedIn <==> token !in t.sessions
    ensures s.outcome == CreateRoomOutcome.NotLoggedIn ==> s.tables == t
    ensures s.outcome == CreateRoomOutcome.Success ==>
      var id := t.nextRoomId;
      var owner := t.sessions[token];
      && s.tables.rooms == t.rooms[id := RoomRecord(owner, room.name, room.description)]
      && s.tables.members == t.members + {Membership(id, owner)}
      && s.tables.nextRoomId == id + 1
      && s.tables.users == t.users
      && s.tables.sessions == t.sessions
      && s.tables.codes == t.codes
  {
    match ResolveSession(t.sessions, token)
    case None => Step(t, CreateRoomOutcome.NotLoggedIn)
    case Some(userId) =>
      var id := t.nextRoomId;
      Step(t.(rooms := t.rooms[id := RoomRecord(userId, room.name, room.description)],
              members := t.members + {Membership(id, userId)},
              nextRoomId := id + 1),
           CreateRoomOutcome.Success)
  }

  /** What `get_rooms` returns for a logged-in user, ignoring order: one
      summary per membership row of the user whose room exists. */
  ghost function RoomsOfUser(t: Tables, userId: UserId): multiset<Room> {
    RoomsListed(t.rooms, JoinedRoomIds(t, userId))
  }

  /** The draws the generator hands over are all well formed. */
  predicate AllDraws(draws: seq<seq<nat>>) {
    forall k :: 0 <= k < |draws| ==> IsDraw(draws[k])
  }

  /** The codes the draws spell, in the order they are drawn. */
  function Candidates(draws: seq<seq<nat>>): (candidates: seq<Code>)
    requires AllDraws(draws)
    ensures |candidates| == |draws|
    ensures forall k :: 0 <= k < |draws| ==> candidates[k] == GenerateInvitationCode(draws[k])
  {
    seq(|draws|, k requires 0 <= k < |draws| => GenerateInvitationCode(draws[k]))
  }

  /** Every candidate is a well-formed code, and two candidates are the
      same code exactly when they come from the same draw. */
  lemma CandidatesDistinct(draws: seq<seq<nat>>, j: nat, k: nat)
    requires AllDraws(draws) && j < |draws| && k < |draws|
    ensures IsInvitationCode(Candidates(draws)[j])
    ensures Candidates(draws)[j] == Candidates(draws)[k] <==> draws[j] == draws[k]
  {
    var candidates := Candidates(draws);
    DrawRecoverable(draws[j]);
    DrawRecoverable(draws[k]);
    if candidates[j] == candidates[k] {
      assert forall i | 0 <= i < LEN :: draws[j][i] == draws[k][i];
      assert draws[j] == draws[k];
    }
  }

  /** Some candidate is a code not yet stored. */
  predicate HasFreshCandidate(codes: seq<InvitationCode>, candidates: seq<Code>) {
    exists k :: 0 <= k < |candidates| && !CodeInUse(codes, candidates[k])
  }

  /** The index of the first candidate, from `from` on, that is not yet
      stored: where the retry loop stops. */
  function FirstFresh(codes: seq<InvitationCode>, candidates: seq<Code>, from: nat): (k: nat)
    requires exists k :: from <= k < |candidates| && !CodeInUse(codes, candidates[k])
    ensures from <= k < |candidates|
    ensures !CodeInUse(codes, candidates[k])
    ensures forall j :: from <= j < k ==> CodeInUse(codes, candidates[j])
    decreases |candidates| - from
  {
    if !CodeInUse(codes, candidates[from]) then from
    else FirstFresh(codes, candidates, from + 1)
  }

  /** The call reaches the retry loop: logged in, owner, no code yet. */
  predicate NeedsNewCode(t: Tables, token: Token, roomId: RoomId) {
    token in t.sessions && IsOwner(t.rooms, roomId, t.sessions[token]) && CodeOfRoom(t.codes, roomId).None?
  }

  /** `get_invitation_code`: only the owner of an existing room gets a
      code; an existing code is returned as it is, otherwise the first
      fresh draw is stored and returned. */
  function GetInvitationCode(t: Tables, token: Token, roomId: RoomId, draws: seq<seq<nat>>): (s: Step<InvitationCodeOutcome>)
    requires AllDraws(draws)
    requires NeedsNewCode(t, token, roomId) ==> HasFreshCandidate(t.codes, Candidates(draws))
    ensures s.outcome == InvitationCodeOutcome.NotLoggedIn <==> token !in t.sessions
    ensures s.outcome == InvitationCodeOutcome.NotOwner <==>
      token in t.sessions && !IsOwner(t.rooms, roomId, t.sessions[token])
    ensures !s.outcome.Success? ==> s.tables == t
    ensures s.outcome.Success? && CodeOfRoom(t.codes, roomId).Some? ==>
      s.outcome.code == CodeOfRoom(t.codes, roomId).value && s.tables == t
    ensures s.outcome.Success? && CodeOfRoom(t.codes, roomId).None? ==>
      && s.tables == t.(codes := t.codes + [InvitationCode(roomId, s.outcome.code)])
      && !CodeInUse(t.codes, s.outcome.code)
      && IsInvitationCode(s.outcome.code)
  {
    match ResolveSession(t.sessions, token)
    case None => Step(t, InvitationCodeOutcome.NotLoggedIn)
    case Some(userId) =>
      if !IsOwner(t.rooms, roomId, userId) then Step(t, InvitationCodeOutcome.NotOwner)
      else match CodeOfRoom(t.codes, roomId)
        case Some(code) => Step(t, InvitationCodeOutcome.Success(code))
        case None =>
          var candidates := Candidates(draws);
          var code := candidates[FirstFresh(t.codes, candidates, 0)];
          Step(t.(codes := t.codes + [InvitationCode(roomId, code)]), InvitationCodeOutcome.Success(code))
  }

  /** `join_room`: resolve the code to a room, refuse a second membership,
      otherwise insert the membership row. */
  function JoinRoom(t: Tables, token: Token, code: Code): (s: Step<JoinRoomOutcome>)
    ensures s.outcome == JoinRoomOutcome.NotLoggedIn <==> token !in t.sessions
    ensures s.outcome == JoinRoomOutcome.InvalidCode <==> token in t.sessions && !CodeInUse(t.codes, code)
    ensures s.outcome == JoinRoomOutcome.AlreadyMember <==>
      token in t.sessions && CodeInUse(t.codes, code)
      && Membership(RoomOfCode(t.codes, code).value, t.sessions[token]) in t.members
    ensures s.outcome == JoinRoomOutcome.Success ==>
      var m := Membership(RoomOfCode(t.codes, code).value, t.sessions[token]);
      m !in t.members && s.tables == t.(members := t.members + {m})
    ensures s.outcome != JoinRoomOutcome.Success ==> s.tables == t
  {
    match ResolveSession(t.sessions, token)
    case None => Step(t, JoinRoomOutcome.NotLoggedIn)
    case Some(userId) =>
      match RoomOfCode(t.codes, code)
      case None => Step(t, JoinRoomOutcome.InvalidCode)
      case Some(roomId) =>
        if Membership(roomId, userId) in t.members then Step(t, JoinRoomOutcome.AlreadyMember)
        else Step(t.(members := t.members + {Membership(roomId, userId)}), JoinRoomOutcome.Success)
  }

  /** `leave_room`: the owner may not leave; otherwise delete the
      membership row, and report `NotMember` when no row was deleted. */
  function LeaveRoom(t: Tables, token: Token, roomId: RoomId): (s: Step<LeaveRoomOutcome>)
    ensures s.outcome == LeaveRoomOutcome.NotLoggedIn <==> token !in t.sessions
    ensures s.outcome == LeaveRoomOutcome.OwnerCannotLeave <==>
      token in t.sessions && IsOwner(t.rooms, roomId, t.sessions[token])
    ensures s.outcome == LeaveRoomOutcome.NotMember <==>
      token in t.sessions && !IsOwner(t.rooms, roomId, t.sessions[token])
      && Membership(roomId, t.sessions[token]) !in t.members
    ensures s.outcome == LeaveRoomOutcome.Success ==>
      s.tables == t.(members := t.members - {Membership(roomId, t.sessions[token])})
    ensures s.outcome != LeaveRoomOutcome.Success ==> s.tables == t
  {
    match ResolveSession(t.sessions, token)
    case None => Step(t, LeaveRoomOutcome.NotLoggedIn)
    case Some(userId) =>
      if IsOwner(t.rooms, roomId, userId) then Step(t, LeaveRoomOutcome.OwnerCannotLeave)
      else
        var affected := if Membership(roomId, userId) in t.members then 1 else 0;
        if affected == 0 then Step(t, LeaveRoomOutcome.NotMember)
        else Step(t.(members := t.members - {Membership(roomId, userId)}), LeaveRoomOutcome.Success)
  }

  // ---------------------------------------------------------------------
  // Invariant preservation

  lemma CreateRoomPreservesInv(t: Tables, token: Token, room: NewRoom)
    requires Inv(t)
    ensures Inv(CreateRoom(t, token, room).tables)
    ensures CreateRoom(t, token, room).outcome == CreateRoomOutcome.Success ==> t.nextRoomId !in t.rooms
  {
  }

  lemma GetInvitationCodePreservesInv(t: Tables, token: Token, roomId: RoomId, draws: seq<seq<nat>>)
    requires Inv(t)
    requires AllDraws(draws)
    requires NeedsNewCode(t, token, roomId) ==> HasFreshCandidate(t.codes, Candidates(draws))
    ensures Inv(GetInvitationCode(t, token, roomId, draws).tables)
  {
    var s := GetInvitationCode(t, token, roomId, draws);
    if s.tables != t {
      var row := InvitationCode(roomId, s.outcome.code);
      assert s.tables.codes == t.codes + [row];
      forall i, j | 0 <= i < j < |s.tables.codes|
        ensures s.tables.codes[i].roomId != s.tables.codes[j].roomId
        ensures s.tables.codes[i].code != s.tables.codes[j].code
      {
        if j == |t.codes| {
          assert s.tables.codes[i] in t.codes;
        }
      }
    }
  }

  lemma JoinRoomPreservesInv(t: Tables, token: Token, code: Code)
    requires Inv(t)
    ensures Inv(JoinRoom(t, token, code).tables)
  {
  }

  lemma LeaveRoomPreservesInv(t: Tables, token: Token, roomId: RoomId)
    requires Inv(t)
    ensures Inv(LeaveRoom(t, token, roomId).tables)
  {
  }

  // ---------------------------------------------------------------------
  // Properties across calls

  /** Under the invariant the code stored for a room is found by the room,
      and the room stored for a code is found by the code. */
  lemma CodeLookupsAgree(t: Tables, row: InvitationCode)
    requires CodesConsistent(t) && row in t.codes
    ensures CodeOfRoom(t.codes, row.roomId) == Some(row.code)
    ensures RoomOfCode(t.codes, row.code) == Some(row.roomId)
  {
    var c := CodeOfRoom(t.codes, row.roomId).value;
    CodeRowUnique(t, row, InvitationCode(row.roomId, c));
    var r := RoomOfCode(t.codes, row.code).value;
    CodeRowUnique(t, row, InvitationCode(r, row.code));
  }

  /** Asking twice for a room's code gives the same code, and the second
      call changes nothing. */
  lemma GetInvitationCodeTwice(t: Tables, token: Token, roomId: RoomId, draws1: seq<seq<nat>>, draws2: seq<seq<nat>>)
    requires Inv(t)
    requires AllDraws(draws1) && AllDraws(draws2)
    requires NeedsNewCode(t, token, roomId) ==> HasFreshCandidate(t.codes, Candidates(draws1))
    requires GetInvitationCode(t, token, roomId, draws1).outcome.Success?
    ensures var s1 := GetInvitationCode(t, token, roomId, draws1);
      && !NeedsNewCode(s1.tables, token, roomId)
      && GetInvitationCode(s1.tables, token, roomId, draws2) == Step(s1.tables, s1.outcome)
  {
    var s1 := GetInvitationCode(t, token, roomId, draws1);
    GetInvitationCodePreservesInv(t, token, roomId, draws1);
    var row := InvitationCode(roomId, s1.outcome.code);
    assert row in s1.tables.codes;
    CodeLookupsAgree(s1.tables, row);
  }

  /** Codes returned for two different rooms differ. */
  lemma CodesOfDistinctRoomsDiffer(t: Tables, token1: Token, room1: RoomId, draws1: seq<seq<nat>>,
                                   token2: Token, room2: RoomId, draws2: seq<seq<nat>>)
    requires Inv(t)
    requires AllDraws(draws1) && AllDraws(draws2)
    requires NeedsNewCode(t, token1, room1) ==> HasFreshCandidate(t.codes, Candidates(draws1))
    requires GetInvitationCode(t, token1, room1, draws1).outcome.Success?
    requires var t1 := GetInvitationCode(t, token1, room1, draws1).tables;
      NeedsNewCode(t1, token2, room2) ==> HasFreshCandidate(t1.codes, Candidates(draws2))
    requires GetInvitationCode(GetInvitationCode(t, token1, room1, draws1).tables, token2, room2, draws2).outcome.Success?
    requires room1 != room2
    ensures GetInvitationCode(t, token1, room1, draws1).outcome.code
         != GetInvitationCode(GetInvitationCode(t, token1, room1, draws1).tables, token2, room2, draws2).outcome.code
  {
    var s1 := GetInvitationCode(t, token1, room1, draws1);
    GetInvitationCodePreservesInv(t, token1, room1, draws1);
    var s2 := GetInvitationCode(s1.tables, token2, room2, draws2);
    GetInvitationCodePreservesInv(s1.tables, token2, room2, draws2);
    var row1 := InvitationCode(room1, s1.outcome.code);
    var row2 := InvitationCode(room2, s2.outcome.code);
    assert row1 in s1.tables.codes;
    assert row1 in s2.tables.codes;
    assert row2 in s2.tables.codes;
    CodeRowUnique(s2.tables, row1, row2);
  }

  /** Joining twice with the same valid code: `Success`, then
      `AlreadyMember` with nothing changed. */
  lemma JoinTwice(t: Tables, token: Token, code: Code)
    requires JoinRoom(t, token, code).outcome == JoinRoomOutcome.Success
    ensures var t1 := JoinRoom(t, token, code).tables;
      JoinRoom(t1, token, code) == Step(t1, JoinRoomOutcome.AlreadyMember)
  {
  }

  /** Leaving twice: `Success`, then `NotMember`; every other membership
      is kept. */
  lemma LeaveTwice(t: Tables, token: Token, roomId: RoomId)
    requires LeaveRoom(t, token, roomId).outcome == LeaveRoomOutcome.Success
    ensures var t1 := LeaveRoom(t, token, roomId).tables;
      && LeaveRoom(t1, token, roomId) == Step(t1, LeaveRoomOutcome.NotMember)
      && t1.members == t.members - {Membership(roomId, t.sessions[token])}
  {
  }

  /** The owner of a room is refused and keeps the membership row. */
  lemma OwnerStaysMember(t: Tables, token: Token, roomId: RoomId)
    requires Inv(t)
    requires token in t.sessions && IsOwner(t.rooms, roomId, t.sessions[token])
    ensures LeaveRoom(t, token, roomId).outcome == LeaveRoomOutcome.OwnerCannotLeave
    ensures Membership(roomId, t.sessions[token]) in LeaveRoom(t, token, roomId).tables.members
  {
  }

  /** Leaving a room that does not exist reports `NotMember`: the owner
      test is false and no membership row names the room. */
  lemma LeaveMissingRoom(t: Tables, token: Token, roomId: RoomId)
    requires Inv(t)
    requires token in t.sessions && roomId !in t.rooms
    ensures LeaveRoom(t, token, roomId) == Step(t, LeaveRoomOutcome.NotMember)
  {
    assert Membership(roomId, t.sessions[token]) !in t.members;
  }

  /** A room just created is in its creator's listing, and the listing
      grows by exactly that room. */
  lemma CreatedRoomListed(t: Tables, token: Token, room: NewRoom)
    requires Inv(t)
    requires token in t.sessions
    ensures var t1 := CreateRoom(t, token, room).tables;
      var owner := t.sessions[token];
      && Room(room.name, room.description) in RoomsOfUser(t1, owner)
      && RoomsOfUser(t1, owner) == RoomsOfUser(t, owner) + multiset{Room(room.name, room.description)}
  {
    var t1 := CreateRoom(t, token, room).tables;
    var owner := t.sessions[token];
    var id := t.nextRoomId;
    assert id !in t.rooms;
    var before := JoinedRoomIds(t, owner);
    var after := JoinedRoomIds(t1, owner);
    assert after == before + {id} by {
      forall x | x in after ensures x in before + {id} {
        var m :| m in t1.members && m.userId == owner && m.roomId in t1.rooms && m.roomId == x;
      }
      assert Membership(id, owner) in t1.members;
    }
    assert id !in before;
    RoomsListedTake(t1.rooms, after, id);
    assert after - {id} == before;
    RoomsListedSameRooms(t.rooms, t1.rooms, before);
  }

  /** The listing depends only on the listed rooms' rows. */
  lemma {:induction false} RoomsListedSameRooms(rooms: map<RoomId, RoomRecord>, rooms': map<RoomId, RoomRecord>, ids: set<RoomId>)
    requires ids <= rooms.Keys && ids <= rooms'.Keys
    requires forall id | id in ids :: rooms[id] == rooms'[id]
    ensures RoomsListed(rooms, ids) == RoomsListed(rooms', ids)
    decreases ids
  {
    if ids != {} {
      HasMember(ids);
      var id :| id in ids;
      RoomsListedTake(rooms, ids, id);
      RoomsListedTake(rooms', ids, id);
      RoomsListedSameRooms(rooms, rooms', ids - {id});
    }
  }

  /** Every room a user owns appears in that user's listing. */
  lemma OwnerListsOwnRooms(t: Tables, roomId: RoomId)
    requires Inv(t) && roomId in t.rooms
    ensures Summary(t.rooms[roomId]) in RoomsOfUser(t, t.rooms[roomId].owner)
  {
    var owner := t.rooms[roomId].owner;
    assert Membership(roomId, owner) in t.members;
    assert roomId in JoinedRoomIds(t, owner);
    RoomsListedHas(t.rooms, JoinedRoomIds(t, owner), roomId);
  }
}
