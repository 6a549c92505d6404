/**
 * One client session against a fresh store: two users register, the
 * first opens a room and hands out its invitation code, the second joins
 * with it, and the owner's attempt to leave is refused. The bcrypt
 * service is stood in for by a hash that appends a fixed suffix. Each
 * phase states the tables it leaves behind, so the next phase starts
 * from a known state.
 */
module Walkthrough {

  import opened Types
  import opened Queries
  import opened Schema
  import InvitationCodes
  import Rooms
  import Store

  function Hash(password: string): PasswordHash {
    PasswordHash(password + "#bcrypt")
  }

  function Matches(password: string, hash: PasswordHash): Option<bool> {
    Some(hash == Hash(password))
  }

  const ALICE: User := User(2, "A", "A", Hash("pw1"), "a@x.com")
  const BOB: User := User(3, "B", "B", Hash("pw3"), "b@x.com")
  const OWNER: Token := "T"
  const GUEST: Token := "U"

  /** Register twice under one email, then a second user. */
  method SignUp(db: Store.Database)
    requires db.Snapshot() == Init()
    modifies db
    ensures db.Valid()
    ensures db.Snapshot() == Init().(users := [ADMIN, ALICE, BOB])
  {
    var reg := db.RegisterUser(NewUser("A", "A", "pw1", "a@x.com"), Some(Hash("pw1")));
    assert reg == Ok(RegisterOutcome.Success);
    assert db.users == [ADMIN, ALICE];
    reg := db.RegisterUser(NewUser("A", "A", "pw2", "a@x.com"), Some(Hash("pw2")));
    assert UserByEmail(db.users, "a@x.com") == Some(ALICE);
    assert reg == Ok(RegisterOutcome.UserAlreadyExists);
    assert forall u | u in db.users :: u.email != "b@x.com" by {
      assert "b@x.com"[0] != ADMIN.email[0] && "b@x.com"[0] != ALICE.email[0];
    }
    reg := db.RegisterUser(NewUser("B", "B", "pw3", "b@x.com"), Some(Hash("pw3")));
    assert reg == Ok(RegisterOutcome.Success);
  }

  /** The first user logs in; the second is turned away with a wrong
      password, then logs in with the right one. */
  method SignIn(db: Store.Database)
    requires db.Valid()
    requires db.Snapshot() == Init().(users := [ADMIN, ALICE, BOB])
    modifies db
    ensures db.Valid()
    ensures db.Snapshot() == Init().(users := [ADMIN, ALICE, BOB], sessions := map[OWNER := 2, GUEST := 3])
  {
    assert UserByEmail(db.users, "a@x.com") == Some(ALICE);
    assert UserByEmail(db.users, "b@x.com") == Some(BOB);
    var login := db.LoginUser("a@x.com", "pw1", OWNER, Matches);
    assert login == Ok(LoginOutcome.Success(OWNER));
    assert Hash("pw2").encoded[2] != BOB.passwordHash.encoded[2];
    login := db.LoginUser("b@x.com", "pw2", GUEST, Matches);
    assert login == Ok(LoginOutcome.InvalidCredentials);
    login := db.LoginUser("b@x.com", "pw3", GUEST, Matches);
    assert login == Ok(LoginOutcome.Success(GUEST));
  }

  const SIGNED_IN: Tables := Init().(users := [ADMIN, ALICE, BOB], sessions := map[OWNER := 2, GUEST := 3])
  const OPENED: Tables := SIGNED_IN.(rooms := map[1 := RoomRecord(2, "R1", "")], members := {Membership(1, 2)}, nextRoomId := 2)

  /** The first user opens room 1 and sees it listed. */
  method OpenRoom(db: Store.Database) returns (listed: seq<Room>)
    requires db.Valid()
    requires db.Snapshot() == SIGNED_IN
    modifies db
    ensures db.Valid()
    ensures multiset(listed) == multiset{Room("R1", "")}
    ensures db.Snapshot() == OPENED
  {
    var created := db.CreateRoom(OWNER, NewRoom("R1", ""));
    assert created == CreateRoomOutcome.Success;
    assert db.Snapshot() == OPENED;
    var rooms := db.GetRooms(OWNER);
    assert JoinedRoomIds(db.Snapshot(), 2) == {1};
    RoomsListedTake(db.rooms, {1}, 1);
    assert {1} - {1} == {};
    listed := rooms.rooms;
  }

  /** The characters of CHARSET the sample draw picks. */
  lemma SampleCharacters()
    ensures |InvitationCodes.CHARSET| == 62
    ensures InvitationCodes.CHARSET[0] == 'A' && InvitationCodes.CHARSET[1] == 'B'
    ensures InvitationCodes.CHARSET[2] == 'C' && InvitationCodes.CHARSET[53] == '1'
    ensures InvitationCodes.CHARSET[54] == '2' && InvitationCodes.CHARSET[55] == '3'
  {
    assert InvitationCodes.CHARSET[53] == InvitationCodes.DIGITS[1];
    assert InvitationCodes.CHARSET[54] == InvitationCodes.DIGITS[2];
    assert InvitationCodes.CHARSET[55] == InvitationCodes.DIGITS[3];
  }

  /** The draw A, B, C, 1, 2, 3: the digits start at index 52. */
  lemma SampleDraw(draw: seq<nat>)
    requires draw == [0, 1, 2, 53, 54, 55]
    ensures InvitationCodes.IsDraw(draw)
    ensures InvitationCodes.GenerateInvitationCode(draw) == "ABC123"
  {
    SampleCharacters();
    var code := InvitationCodes.GenerateInvitationCode(draw);
    Spelled(code);
  }

  lemma Spelled(code: string)
    requires |code| == 6
    requires code[0] == 'A' && code[1] == 'B' && code[2] == 'C'
    requires code[3] == '1' && code[4] == '2' && code[5] == '3'
    ensures code == "ABC123"
  {
  }

  /** The owner fetches the room's code; the first draw is fresh. */
  method IssueCode(db: Store.Database) returns (code: Code)
    requires db.Valid()
    requires db.Snapshot() == OPENED
    modifies db
    ensures db.Valid()
    ensures code == "ABC123"
    ensures db.Snapshot() == OPENED.(codes := [InvitationCode(1, "ABC123")])
  {
    var draws := [[0, 1, 2, 53, 54, 55]];
    SampleDraw(draws[0]);
    assert Rooms.Candidates(draws)[0] == "ABC123";
    assert !CodeInUse(db.codes, Rooms.Candidates(draws)[0]);
    var issued := db.GetInvitationCode(OWNER, 1, draws);
    code := issued.code;
  }

  /** The second user joins twice with the code; the owner cannot leave,
      the guest can; the owner logs out twice. */
  method JoinAndLeave(db: Store.Database)
    requires db.Valid()
    requires db.Snapshot() == OPENED.(codes := [InvitationCode(1, "ABC123")])
    modifies db
    ensures db.Valid()
    ensures db.members == {Membership(1, 2)}
    ensures db.sessions == map[GUEST := 3]
  {
    var joined := db.JoinRoom(GUEST, "ABC123");
    assert joined == JoinRoomOutcome.Success;
    joined := db.JoinRoom(GUEST, "ABC123");
    assert joined == JoinRoomOutcome.AlreadyMember;

    var left := db.LeaveRoom(OWNER, 1);
    assert left == LeaveRoomOutcome.OwnerCannotLeave;
    left := db.LeaveRoom(GUEST, 1);
    assert left == LeaveRoomOutcome.Success;

    var out := db.LogoutUser(OWNER);
    assert out == LogoutOutcome.Success;
    out := db.LogoutUser(OWNER);
    assert out == LogoutOutcome.NotLoggedIn;
  }

  method RoomLifecycle() returns (code: Code, listed: seq<Room>)
    ensures code == "ABC123"
    ensures multiset(listed) == multiset{Room("R1", "")}
  {
    var db := new Store.Database();
    SignUp(db);
    SignIn(db);
    listed := OpenRoom(db);
    code := IssueCode(db);
    JoinAndLeave(db);
  }
}
