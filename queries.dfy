/**
 * The SELECT queries the database operations share, as functions of the
 * tables they read.
 */
module Queries {

  import opened Types

  /** `SELECT user_id FROM sessions WHERE uuid = ?1`: the user a session
      token belongs to. Every room operation starts with it. */
  function ResolveSession(sessions: map<Token, UserId>, token: Token): (r: Option<UserId>)
    ensures r.Some? <==> token in sessions
    ensures r.Some? ==> sessions[token] == r.value
  {
    if token in sessions then Some(sessions[token]) else None
  }

  /** `SELECT EXISTS(SELECT 1 FROM rooms WHERE id = ?1 AND owner = ?2)`:
      false for a room that does not exist, so a missing room reads as one
      the caller does not own. */
  predicate IsOwner(rooms: map<RoomId, RoomRecord>, roomId: RoomId, userId: UserId) {
    roomId in rooms && rooms[roomId].owner == userId
  }

  /** `SELECT code FROM invitation_codes WHERE room_id = ?1`: the first
      matching row's code. */
  function CodeOfRoom(codes: seq<InvitationCode>, roomId: RoomId): (r: Option<Code>)
    ensures r.Some? ==> InvitationCode(roomId, r.value) in codes
    ensures r.None? <==> forall row | row in codes :: row.roomId != roomId
  {
    if codes == [] then None
    else if codes[0].roomId == roomId then Some(codes[0].code)
    else CodeOfRoom(codes[1..], roomId)
  }

  /** `SELECT room_id FROM invitation_codes WHERE code = ?1`: the room of
      the first matching row. */
  function RoomOfCode(codes: seq<InvitationCode>, code: Code): (r: Option<RoomId>)
    ensures r.Some? ==> InvitationCode(r.value, code) in codes
    ensures r.None? <==> forall row | row in codes :: row.code != code
  {
    if codes == [] then None
    else if codes[0].code == code then Some(codes[0].roomId)
    else RoomOfCode(codes[1..], code)
  }

  /** `SELECT EXISTS(SELECT 1 FROM invitation_codes WHERE code = ?1)`. */
  predicate CodeInUse(codes: seq<InvitationCode>, code: Code) {
    exists row :: row in codes && row.code == code
  }

  /** The existence test the retry loop runs agrees with the lookup
      `join_room` runs: a code is in use exactly when it names a room. */
  lemma {:induction false} CodeInUseIffFound(codes: seq<InvitationCode>, code: Code)
    ensures CodeInUse(codes, code) <==> RoomOfCode(codes, code).Some?
  {
    if RoomOfCode(codes, code).Some? {
      assert InvitationCode(RoomOfCode(codes, code).value, code) in codes;
    }
  }

  /** `SELECT id, password_hash FROM users WHERE email = ?1`: the first
      matching row. */
  function UserByEmail(users: seq<User>, email: string): (r: Option<User>)
    ensures r.Some? ==> r.value in users && r.value.email == email
    ensures r.None? <==> forall u | u in users :: u.email != email
  {
    if users == [] then None
    else if users[0].email == email then Some(users[0])
    else UserByEmail(users[1..], email)
  }

  /** The ids of all users. */
  function UserIds(users: seq<User>): set<UserId> {
    set u | u in users :: u.id
  }

  /** Rows are kept in ascending id order, as SQLite scans a rowid table. */
  predicate IdsAscending(users: seq<User>) {
    forall i, j :: 0 <= i < j < |users| ==> users[i].id < users[j].id
  }

  /** The id SQLite gives the next row inserted without one: one more than
      the largest id, or 1 for an empty table. */
  function NextUserId(users: seq<User>): UserId {
    if users == [] then 1 else users[|users| - 1].id + 1
  }

  lemma NextUserIdFresh(users: seq<User>)
    requires IdsAscending(users)
    ensures forall u | u in users :: u.id < NextUserId(users)
    ensures NextUserId(users) !in UserIds(users)
  {
    forall u | u in users ensures u.id < NextUserId(users) {
      var i :| 0 <= i < |users| && users[i] == u;
      assert i == |users| - 1 || users[i].id < users[|users| - 1].id;
    }
  }

  /** The rooms the SQL join of `rooms` with the caller's `room_members`
      rows returns, by id. */
  function JoinedRoomIds(t: Tables, userId: UserId): (ids: set<RoomId>)
    ensures ids <= t.rooms.Keys
  {
    set m | m in t.members && m.userId == userId && m.roomId in t.rooms :: m.roomId
  }

  /** The (name, description) reported for a room row. */
  function Summary(record: RoomRecord): Room {
    Room(record.name, record.description)
  }

  /** A non-empty set of room ids has a member to take first. */
  lemma HasMember(ids: set<RoomId>)
    requires ids != {}
    ensures exists id :: id in ids
  {
    if forall id :: id !in ids {
      assert false;
    }
  }

  /** The summaries of the given rooms, one per room, in no order. */
  ghost function RoomsListed(rooms: map<RoomId, RoomRecord>, ids: set<RoomId>): multiset<Room>
    requires ids <= rooms.Keys
    decreases ids
  {
    if ids == {} then multiset{}
    else
      HasMember(ids);
      var first :| first in ids;
      multiset{Summary(rooms[first])} + RoomsListed(rooms, ids - {first})
  }

  /** Listing may take the rooms in any order: taking out any one of them
      first gives the same multiset. */
  lemma {:induction false} RoomsListedTake(rooms: map<RoomId, RoomRecord>, ids: set<RoomId>, id: RoomId)
    requires ids <= rooms.Keys && id in ids
    ensures RoomsListed(rooms, ids) == multiset{Summary(rooms[id])} + RoomsListed(rooms, ids - {id})
    decreases ids
  {
    var other :| other in ids && RoomsListed(rooms, ids) == multiset{Summary(rooms[other])} + RoomsListed(rooms, ids - {other});
    if other != id {
      RoomsListedTake(rooms, ids - {other}, id);
      RoomsListedTake(rooms, ids - {id}, other);
      assert ids - {other} - {id} == ids - {id} - {other};
    }
  }

  /** The rooms among `ids` whose summary is `v`. */
  function WithSummary(rooms: map<RoomId, RoomRecord>, ids: set<RoomId>, v: Room): set<RoomId>
    requires ids <= rooms.Keys
  {
    set id | id in ids && Summary(rooms[id]) == v
  }

  /** One entry per room: the listing has as many entries as there are
      rooms. */
  lemma {:induction false} RoomsListedSize(rooms: map<RoomId, RoomRecord>, ids: set<RoomId>)
    requires ids <= rooms.Keys
    ensures |RoomsListed(rooms, ids)| == |ids|
    decreases ids
  {
    if ids != {} {
      HasMember(ids);
      var id :| id in ids;
      RoomsListedTake(rooms, ids, id);
      RoomsListedSize(rooms, ids - {id});
    }
  }

  /** A summary occurs in the listing exactly as often as there are rooms
      with that summary, and no other entry occurs. */
  lemma {:induction false} RoomsListedCount(rooms: map<RoomId, RoomRecord>, ids: set<RoomId>, v: Room)
    requires ids <= rooms.Keys
    ensures RoomsListed(rooms, ids)[v] == |WithSummary(rooms, ids, v)|
    decreases ids
  {
    if ids != {} {
      HasMember(ids);
      var id :| id in ids;
      RoomsListedTake(rooms, ids, id);
      RoomsListedCount(rooms, ids - {id}, v);
      WithSummaryTake(rooms, ids, id, v);
    }
  }

  lemma WithSummaryTake(rooms: map<RoomId, RoomRecord>, ids: set<RoomId>, id: RoomId, v: Room)
    requires ids <= rooms.Keys && id in ids
    ensures |WithSummary(rooms, ids, v)| == |WithSummary(rooms, ids - {id}, v)| + if Summary(rooms[id]) == v then 1 else 0
  {
    var rest := WithSummary(rooms, ids - {id}, v);
    assert id !in rest;
    if Summary(rooms[id]) == v {
      assert WithSummary(rooms, ids, v) == rest + {id};
    } else {
      assert WithSummary(rooms, ids, v) == rest;
    }
  }

  /** Every joined room is listed; that nothing else is follows from
      `RoomsListedCount`. */
  lemma RoomsListedHas(rooms: map<RoomId, RoomRecord>, ids: set<RoomId>, id: RoomId)
    requires ids <= rooms.Keys && id in ids
    ensures Summary(rooms[id]) in RoomsListed(rooms, ids)
  {
    RoomsListedTake(rooms, ids, id);
  }
}
