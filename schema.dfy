/**
 * Consistency of the tables: what every reachable state of the store
 * satisfies, and the state the server starts from.
 */
module Schema {

  import opened Types
  import opened Queries
  import InvitationCodes

  /** No two users share an email. The `users` table does not declare the
      column UNIQUE; only the check in registration keeps this true. */
  predicate EmailsUnique(users: seq<User>) {
    forall i, j :: 0 <= i < j < |users| ==> users[i].email != users[j].email
  }

  predicate UsersConsistent(users: seq<User>) {
    IdsAscending(users) && EmailsUnique(users)
  }

  /** Every session belongs to a user. */
  predicate SessionsConsistent(t: Tables) {
    forall token | token in t.sessions :: t.sessions[token] in UserIds(t.users)
  }

  /** Room ids lie below the next id to hand out; every owner is a user and
      a member of the room. */
  predicate RoomsConsistent(t: Tables) {
    forall id | id in t.rooms ::
      id < t.nextRoomId
      && t.rooms[id].owner in UserIds(t.users)
      && Membership(id, t.rooms[id].owner) in t.members
  }

  /** Every membership names an existing room and an existing user. */
  predicate MembersConsistent(t: Tables) {
    forall m | m in t.members :: m.roomId in t.rooms && m.userId in UserIds(t.users)
  }

  /** Each invitation code row belongs to an existing room and holds a
      generated code; no room has two rows and no code is used twice, so
      code -> room is a function and room -> code is injective. */
  predicate CodesConsistent(t: Tables) {
    (forall row | row in t.codes :: row.roomId in t.rooms && InvitationCodes.IsInvitationCode(row.code))
    && (forall i, j :: 0 <= i < j < |t.codes| ==>
          t.codes[i].roomId != t.codes[j].roomId && t.codes[i].code != t.codes[j].code)
  }

  predicate Inv(t: Tables) {
    UsersConsistent(t.users)
    && SessionsConsistent(t)
    && RoomsConsistent(t)
    && MembersConsistent(t)
    && CodesConsistent(t)
  }

  /** The administrator row the server upserts at start-up. */
  const ADMIN: User := User(1, "Admin", "Admin", PasswordHash("passwd_hash"), "admin@example.com")

  /** The store when the server starts: the administrator alone, and the
      sessions table dropped and re-created. The room tables are taken to
      start empty. */
  function Init(): (t: Tables)
    ensures Inv(t)
  {
    Tables([ADMIN], map[], map[], {}, [], 1)
  }

  /** Under the invariant a room's code row is the only row of that room,
      and a code's row the only row with that code. */
  lemma CodeRowUnique(t: Tables, row: InvitationCode, other: InvitationCode)
    requires CodesConsistent(t)
    requires row in t.codes && other in t.codes
    ensures row.roomId == other.roomId <==> row == other
    ensures row.code == other.code <==> row == other
  {
    var i :| 0 <= i < |t.codes| && t.codes[i] == row;
    var j :| 0 <= j < |t.codes| && t.codes[j] == other;
    assert i != j ==> t.codes[i].roomId != t.codes[j].roomId && t.codes[i].code != t.codes[j].code;
  }
}
