# Sessions and room membership of the tc-assignment backend, in Dafny

The backend of tc-assignment keeps its state in five SQLite tables:

- `users`: id, name, surname, password hash, email;
- `sessions`: token to user id;
- `rooms`: id to owner, name, description;
- `room_members`: pairs of room and user;
- `invitation_codes`: pairs of room and code.

Every method of its `Database` runs a short chain of queries. It returns an
outcome at the first guard that fails, and otherwise does one insert or one
delete. The guards come in this order: session, then owner or code, then
membership. This project models those methods and proves what the backend
promises about them.

Modules:

- `Types` (types.dfy): the records and the outcome enums, with the same variant names as the source. Also the `Tables` value, which holds one field per table.
- `InvitationCodes` (invitation_codes.dfy): the 62-character alphabet and `generate_invitation_code`. The random indices are an input.
- `Queries` (queries.dfy): the lookups the methods share. These are the session lookup, the fail-closed owner test, the first-row lookups by email, room and code, and the rooms a user has joined.
- `Schema` (schema.dfy): the store invariant `Inv` and the start-up state `Init`. The invariant says:
  - emails are unique and ids ascend;
  - sessions and memberships name existing users and rooms;
  - every room's owner is a member of it;
  - no room has two codes and no code is used twice.
- `Accounts` (accounts.dfy) and `Rooms` (rooms.dfy): one function per operation, from the tables before the call to the tables after it and the outcome (`Step`). Their contracts state each outcome as an if-and-only-if, together with the new tables. Lemmas beside them prove that each operation keeps `Inv`, and prove the properties that relate several calls.
- `Store` (database.dfy): the class `Database`. It has one field per table and one method per operation, each written as the source's guard chain followed by an update in place. Each method is proved to give exactly the outcome and tables of its function in `Accounts` or `Rooms`, and to keep `Inv`. Two methods have loops:
  - `GetRooms` builds its result one row at a time, as `get_rooms` pushes into a `Vec`;
  - `DrawUnusedCode` is the retry loop of `get_invitation_code`.
- `Requests` (requests.dfy): any sequence of calls starting from `Init`. Every reachable store satisfies `Inv`, and a session token stays valid, bound to the same user, until that token is logged out.
- `Walkthrough` (walkthrough.dfy): one concrete client session driven through the class:
  - two registrations under one email;
  - a correct login for the first user, then a wrong and a correct password for the second;
  - creating and listing a room;
  - issuing the code `ABC123`;
  - joining twice;
  - the owner's refused leave, then the guest's leave;
  - logging out twice.

Foreign services are inputs:

- The bcrypt hash of a new password is a parameter `hashed: Option<PasswordHash>`. `None` stands for a `BcryptError`, which makes the call fail.
- bcrypt's `verify` is a function parameter returning `Option<bool>`. `None` again stands for an error.
- The UUID of a new session is a parameter. A token that is already a key of `sessions` breaks the table's primary key, and the call fails.
- The random generator is a list of draws, each of six indices below 62. The retry loop takes the first draw whose code is not in use. A fresh draw is required only of a call that actually reaches the loop.

## Model

Three of the shared queries are definitions without a contract of their
own, so the rows below name the members that state their properties:

- `Queries.IsOwner` is the fail-closed owner test of `invitation_code.rs:38-47` and `leave.rs:38-47`. See `Rooms.GetInvitationCode` (`NotOwner` exactly when the caller does not own an existing room), `Rooms.OwnerStaysMember` and `Rooms.LeaveMissingRoom`.
- `Queries.CodeInUse` is the existence test of `invitation_code.rs:72-81`. See `Queries.CodeInUseIffFound`, `Rooms.FirstFresh` and `Store.Database.DrawUnusedCode`.
- `Queries.RoomsListed` is the result of the join at `get.rs:33-56`, as a multiset. See `Queries.RoomsListedTake`, `Queries.RoomsListedSize`, `Queries.RoomsListedCount` and `Queries.RoomsListedHas`.

| member | source | states |
|---|---|---|
| InvitationCodes.CharsetIndex | backend/src/data/utils.rs:5-6 | a character has a position in the alphabet exactly when it is an ASCII letter or digit |
| InvitationCodes.CharsetLayout | backend/src/data/utils.rs:5-6 | the alphabet has 62 characters, pairwise distinct, every one an ASCII letter or digit |
| InvitationCodes.GenerateInvitationCode | backend/src/data/utils.rs:4-16 | the code has exactly 6 characters; the i-th is the alphabet character at the i-th drawn index, so every character is an ASCII letter or digit |
| InvitationCodes.DrawRecoverable | backend/src/data/utils.rs:10-15 | the drawn indices can be read back from the code, so distinct draws give distinct codes |
| Queries.ResolveSession | backend/src/data/rooms/join.rs:22-36 | the session lookup gives a user exactly when the token is a key of `sessions`, and then gives that key's user |
| Queries.CodeOfRoom | backend/src/data/rooms/invitation_code.rs:53-63 | the code found is the code of a row for that room; nothing is found exactly when no row names the room |
| Queries.RoomOfCode | backend/src/data/rooms/join.rs:38-48 | the room found is the room of a row with that code; nothing is found exactly when no row has the code |
| Queries.CodeInUseIffFound | backend/src/data/rooms/invitation_code.rs:72-81 | the existence test of the retry loop holds for a code exactly when the lookup of `join_room` finds a room for it |
| Queries.UserByEmail | backend/src/data/session/login.rs:18-28 | the user found is a stored user with that email; nothing is found exactly when no user has it |
| Queries.NextUserIdFresh | backend/src/data/user/register.rs:48-53 | the id SQLite gives the inserted user is larger than every stored id, so it is new |
| Queries.JoinedRoomIds | backend/src/data/rooms/get.rs:36-41 | the join of `rooms` with the caller's `room_members` rows only yields existing rooms |
| Queries.RoomsListedTake | backend/src/data/rooms/get.rs:51-54 | the listing is the same whichever joined room is taken first: one summary plus the listing of the rest |
| Queries.RoomsListedSize | backend/src/data/rooms/get.rs:51-56 | the listing has one entry per joined room |
| Queries.RoomsListedCount | backend/src/data/rooms/get.rs:33-56 | each (name, description) occurs in the listing exactly as often as the joined rooms that carry it |
| Queries.RoomsListedHas | backend/src/data/rooms/get.rs:36-41 | every joined room occurs in the listing |
| Schema.Init | backend/src/data/database.rs:29-47 | the start-up store (the admin as user 1, no sessions) satisfies the invariant |
| Schema.CodeRowUnique | backend/src/data/rooms/invitation_code.rs:53-96 | under the invariant two code rows with the same room, or the same code, are the same row |
| Accounts.RegisterUser | backend/src/data/user/register.rs:26-58 | `UserAlreadyExists` exactly when the email is taken; an error exactly when it is free and hashing fails; otherwise one user row is appended with the given name, surname and email and the hash, not the password, and nothing else changes |
| Accounts.LoginUser | backend/src/data/session/login.rs:15-52 | `UserDoesNotExist` exactly when no user has the email; `InvalidCredentials` exactly when `verify` rejects the stored hash; success exactly when it accepts and the token is new, and then sessions gain exactly that token for the user's id; users never change; otherwise nothing changes |
| Accounts.LogoutUser | backend/src/data/session/logout.rs:28-46 | `Success` exactly when the token had a session, `NotLoggedIn` exactly when not (never `InternalServerError`); the tables afterwards are the old ones without that one token |
| Accounts.VerifySession | backend/src/data/session/verify.rs:17-33 | true exactly when the token is a key of `sessions` |
| Accounts.UserByEmailAppend | backend/src/data/session/login.rs:18-28 | appending a user does not change whom an already-taken email finds |
| Accounts.UserByEmailNew | backend/src/data/session/login.rs:18-28 | after registering a free email, looking it up finds the new row |
| Accounts.RegisterPreservesInv | backend/src/data/user/register.rs:30-57 | registration keeps the invariant, in particular unique emails, which only the check at lines 30-44 enforces; the new id is fresh |
| Accounts.RegisterTwice | backend/src/data/user/register.rs:30-57 | after a successful registration, a second one with the same email is `UserAlreadyExists` and changes nothing, and exactly one user has that email |
| Accounts.EmailAtMostOnce | backend/src/data/register_user.rs:17-32 | in a consistent store no email belongs to two users: the existence check of either copy of `register_user` is the only guard, as the schema has no UNIQUE constraint |
| Accounts.LoginPreservesInv | backend/src/data/session/login.rs:36-43 | login keeps the invariant: the new session names an existing user |
| Accounts.LogoutPreservesInv | backend/src/data/session/logout.rs:31-39 | logout keeps the invariant |
| Accounts.RegisterThenLogin | backend/src/data/session/login.rs:18-45 | a user who has just registered logs in with the same password, when `verify` accepts the hash; the token resolves to the new user's id |
| Accounts.LoginThenVerify | backend/src/data/session/verify.rs:20-32 | after a successful login the token verifies and resolves to that user, and earlier sessions, including the same user's, remain |
| Accounts.LogoutTwice | backend/src/data/session/logout.rs:31-45 | logging out twice gives `Success` then `NotLoggedIn` and changes nothing the second time; afterwards the token does not verify; every other session is kept |
| Rooms.CreateRoom | backend/src/data/rooms/create.rs:14-59 | `NotLoggedIn` exactly when the token has no session, with nothing changed; otherwise the rooms gain one record under the next room id, owned by the caller and with the given name and description, every existing room keeps its record, the caller becomes a member of the new room, and the other tables do not change; `Rooms.CreateRoomPreservesInv` shows that the id was not in use |
| Rooms.CandidatesDistinct | backend/src/data/rooms/invitation_code.rs:68-69 | every code the loop generates is a well-formed invitation code, and two generated codes are equal exactly when their draws are |
| Rooms.FirstFresh | backend/src/data/rooms/invitation_code.rs:68-86 | the loop stops at a candidate no row holds, and every earlier candidate was in use |
| Rooms.GetInvitationCode | backend/src/data/rooms/invitation_code.rs:15-99 | `NotLoggedIn` exactly when the token has no session; `NotOwner` exactly when the caller does not own the room, including when it does not exist; neither changes anything; an existing code is returned unchanged; otherwise exactly one row is appended, holding a code no row held before |
| Rooms.JoinRoom | backend/src/data/rooms/join.rs:15-79 | `NotLoggedIn` exactly when the token has no session, whatever the code; `InvalidCode` exactly when no row holds the code; `AlreadyMember` exactly when the membership exists; none of these changes anything; on `Success` the memberships grow by exactly the caller in the code's room and nothing else changes |
| Rooms.LeaveRoom | backend/src/data/rooms/leave.rs:15-68 | `NotLoggedIn` exactly when the token has no session; `OwnerCannotLeave` exactly when the caller owns the room; `NotMember` exactly when the caller neither owns nor belongs to it; none of these changes anything; on `Success` exactly that one membership is removed |
| Rooms.CreateRoomPreservesInv | backend/src/data/rooms/create.rs:37-56 | room creation keeps the invariant; the new room id was not in use |
| Rooms.GetInvitationCodePreservesInv | backend/src/data/rooms/invitation_code.rs:53-96 | issuing a code keeps the invariant: code to room stays a function and no room gets a second code |
| Rooms.JoinRoomPreservesInv | backend/src/data/rooms/join.rs:69-76 | joining keeps the invariant |
| Rooms.LeaveRoomPreservesInv | backend/src/data/rooms/leave.rs:53-61 | leaving keeps the invariant: an owner's membership is never deleted |
| Rooms.CodeLookupsAgree | backend/src/data/rooms/join.rs:38-48 | under the invariant, a stored row is what both lookups find: its room's code and its code's room |
| Rooms.GetInvitationCodeTwice | backend/src/data/rooms/invitation_code.rs:53-98 | after a successful call, a second call for the same room returns the identical code and changes nothing, whatever the draws |
| Rooms.CodesOfDistinctRoomsDiffer | backend/src/data/rooms/invitation_code.rs:68-96 | codes returned for two different rooms differ |
| Rooms.JoinTwice | backend/src/data/rooms/join.rs:54-78 | joining twice with one code gives `Success` then `AlreadyMember`, with nothing changed |
| Rooms.LeaveTwice | backend/src/data/rooms/leave.rs:53-65 | leaving twice gives `Success` then `NotMember`; the first leave removes exactly the caller's row and keeps all other memberships |
| Rooms.OwnerStaysMember | backend/src/data/rooms/leave.rs:38-51 | the owner is refused with `OwnerCannotLeave` and keeps the membership row |
| Rooms.LeaveMissingRoom | backend/src/data/rooms/leave.rs:38-65 | leaving a room that does not exist gives `NotMember` and changes nothing |
| Rooms.CreatedRoomListed | backend/src/data/rooms/get.rs:36-41 | after creating a room, the creator's listing is the old listing plus that room |
| Rooms.OwnerListsOwnRooms | backend/src/data/rooms/create.rs:47-51 | every room's owner sees the room in their listing |
| Store.Database.constructor | backend/src/data/database.rs:29-47 | the store starts as `Init`: the admin row alone, no sessions, and the invariant holds |
| Store.Database.RegisterUser | backend/src/data/register_user.rs:14-46 | the check-then-insert, identical in this older copy and in `user/register.rs`, leaves the outcome and tables `Accounts.RegisterUser` gives, and keeps the invariant |
| Store.Database.LoginUser | backend/src/data/session/login.rs:15-52 | lookup, verify and insert give the outcome and tables `Accounts.LoginUser` gives, and keep the invariant |
| Store.Database.LogoutUser | backend/src/data/session/logout.rs:28-46 | the delete and the branch on the deleted-row count give what `Accounts.LogoutUser` gives, and keep the invariant |
| Store.Database.CreateRoom | backend/src/data/rooms/create.rs:14-59 | the two inserts, under the generated row id, give what `Rooms.CreateRoom` gives, and keep the invariant |
| Store.Database.GetRooms | backend/src/data/rooms/get.rs:14-62 | `NotLoggedIn` exactly when the token has no session; otherwise the rows pushed one by one are, as a multiset, the caller's listing; no table changes |
| Store.Database.DrawUnusedCode | backend/src/data/rooms/invitation_code.rs:68-86 | the retry loop returns the first candidate no row holds, and that code is a well-formed invitation code |
| Store.Database.GetInvitationCode | backend/src/data/rooms/invitation_code.rs:15-99 | the guard chain, the loop and the insert give what `Rooms.GetInvitationCode` gives, and keep the invariant |
| Store.Database.JoinRoom | backend/src/data/rooms/join.rs:15-79 | the guard chain and the insert give what `Rooms.JoinRoom` gives, and keep the invariant |
| Store.Database.LeaveRoom | backend/src/data/rooms/leave.rs:15-68 | the owner guard, the delete and the branch on the affected-row count give what `Rooms.LeaveRoom` gives, and keep the invariant |
| Requests.ApplyPreservesInv | backend/src/data/mod.rs:1-19 | every operation of the database layer keeps the invariant |
| Requests.RunPreservesInv | backend/src/data/mod.rs:1-19 | any sequence of operations keeps the invariant |
| Requests.ReachableIsConsistent | backend/src/data/database.rs:29-47 | every store reachable from start-up is consistent and has at most one user per email |
| Requests.ApplyKeepsSession | backend/src/data/session/logout.rs:31-39 | only a logout of a token ends that token's session; every other operation keeps it and its user |
| Requests.SessionValidUntilLogout | backend/src/data/session/verify.rs:20-32 | a token that verifies keeps verifying, bound to the same user, through any calls that do not log it out |

## Left out

- Delete-room: `backend/src/data/rooms/delete.rs` is not part of this model. Its semantics are unknown, so rooms are never removed here, and the walkthrough stops before any room is deleted.
- Connection-pool, `interact` and SQL errors are not modelled: every query is taken to succeed. The errors that are modelled are a failed bcrypt hash or verify, and a clashing session token.
- Concurrency: each call runs to completion before the next starts. The check-then-insert races in registration, joining and the code retry loop, which parallel requests can hit, are not captured.
- Integer widths: ids are unbounded integers, where the source uses `i32` room ids and `i64` user ids. Overflow is not modelled.
- bcrypt `hash_password` and `verify`, `Uuid::new_v4` and the `rand` generator are not implemented; their results are inputs to the calls.
- Store.Database.GetInvitationCode: requires a draw that yields a fresh code whenever the retry loop is reached. The source loops until the generator produces one; with no such draw the call never returns, and the request model treats that call as storing nothing.
- Rooms.GetInvitationCode: carries the same requirement of a fresh draw, for the same reason.
- Store.Database.GetRooms: the result is specified as a multiset, because the source's query has no ORDER BY and its row order is unspecified.
- The `users` table survives restarts, and `database.rs` upserts the admin row into whatever is there. `Init` models a fresh database file only. The rooms, room_members and invitation_codes tables are not created in `database.rs` and are taken to start empty.
- Room ids come from a counter that starts at 1, as for a fresh table. SQLite's reuse of the largest rowid after a delete cannot arise here, because rooms are never deleted.
- The HTTP handlers under `backend/src/routes/`, and the cookie and status-code mapping they do, are not part of this model.
