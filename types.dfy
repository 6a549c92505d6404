/**
 * The records of the service's store and the outcome of each database
 * operation. Rows are values; the tables holding them are gathered in
 * `Tables`, the abstract state every operation reads and updates.
 */
module Types {

  datatype Option<T> = None | Some(value: T)

  /** `anyhow::Result` of the operations that can fail inside the core:
      the only failures modelled are the bcrypt primitive's and a clash of
      a new session token with an existing primary key. */
  datatype Result<T> = Ok(value: T) | Err

  type UserId = int
  type RoomId = int
  /** A session UUID as the client presents it. */
  type Token = string
  /** An invitation code as the client presents it. */
  type Code = string

  /** A bcrypt digest. A distinct type, so the users table cannot hold a
      plain password. */
  datatype PasswordHash = PasswordHash(encoded: string)

  /** Registration request body. */
  datatype NewUser = NewUser(name: string, surname: string, password: string, email: string)

  /** One row of `users`. */
  datatype User = User(id: UserId, name: string, surname: string, passwordHash: PasswordHash, email: string)

  /** Room creation request body. */
  datatype NewRoom = NewRoom(name: string, description: string)

  /** What `get_rooms` reports for one room. */
  datatype Room = Room(name: string, description: string)

  /** One row of `rooms` (its id is the key of the `rooms` map). */
  datatype RoomRecord = RoomRecord(owner: UserId, name: string, description: string)

  /** One row of `room_members`. */
  datatype Membership = Membership(roomId: RoomId, userId: UserId)

  /** One row of `invitation_codes`. */
  datatype InvitationCode = InvitationCode(roomId: RoomId, code: Code)

  /** The store: `users` and `invitation_codes` in row order (lookups on
      them by a non-key column return the first matching row),
      `sessions` keyed by UUID, `rooms` keyed by id, `room_members` as a
      set of pairs, and the id the next inserted room receives. */
  datatype Tables = Tables(
    users: seq<User>,
    sessions: map<Token, UserId>,
    rooms: map<RoomId, RoomRecord>,
    members: set<Membership>,
    codes: seq<InvitationCode>,
    nextRoomId: RoomId)

  /** The tables after an operation together with what it returned. */
  datatype Step<O> = Step(tables: Tables, outcome: O)

  datatype RegisterOutcome = Success | UserAlreadyExists

  datatype LoginOutcome = Success(token: Token) | InvalidCredentials | UserDoesNotExist

  datatype LogoutOutcome = Success | NotLoggedIn | InternalServerError

  datatype CreateRoomOutcome = Success | NotLoggedIn

  datatype GetRoomOutcome = Success(rooms: seq<Room>) | NotLoggedIn

  datatype InvitationCodeOutcome = Success(code: Code) | NotLoggedIn | NotOwner

  datatype JoinRoomOutcome = Success | AlreadyMember | InvalidCode | NotLoggedIn

  datatype LeaveRoomOutcome = Success | NotLoggedIn | NotMember | OwnerCannotLeave
}
