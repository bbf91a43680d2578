# User management: delete-user command and get-users query

This project models the user-management application layer of a room-based gift-exchange backend.
It models two handlers.

- **Delete user.** The command loads the caller's room by their authentication code (user code).
  The room aggregate decides whether the named user may be removed, and the room is then persisted
  and loaded again. The first step that fails decides the answer.
- **Get users.** The query resolves the caller by code. It then lists the caller's room, or returns
  the requested user together with the caller when both are in the same room.

Every outcome is a `Result` holding either a value or one `ValidationError`. An error has one of
three kinds (`NotFound`, `BadRequest`, `NotAuthorized`) and a list of (property, message) failures.

Modules:

- `Validation`: `Option`, `Result` and the error taxonomy.
- `Users`: the `User` entity and first-match lookups by id and by code.
- `Rooms`: the stored value `RoomRecord`, the deletion rule `DeleteRule` as a function, and the
  `Room` class whose `DeleteUser` method changes its `users` in place.
- `RoomRepositories`: `RoomRepository`, a class over `map<RoomId, RoomRecord>`. It has a
  configurable update outcome and a log of every call made on it.
- `DeleteUserHandlers`: `HandleSpec`, which gives the outcome of the four steps (result, stored
  rooms, calls made). The `DeleteUserHandler.Handle` method is proved to match it.
- `UserRepositories`: read-only queries over a table of users.
- `GetUsersHandlers`: `Handle`, a pure function of the table and the query. It returns the result
  and the queries it made. It has no store to return, so it cannot change repository state.

`Room.DeleteUser` is not modelled from its code; its rule is taken from the handler tests. It is given an explicit acting user: the handler resolves that user from
the loaded room by the request's user code. Rule order, first failure wins:

1. Room closed: `BadRequest` on `room.ClosedOn`.
2. No id, or no such member: `NotFound` on `userId`.
3. Actor not an admin: `NotAuthorized` on `UserCode`.
4. Actor is the target: `BadRequest` on `userId`.
5. Otherwise the target is removed.

The order of steps 2 and 3 is not evidenced by the tests. This model checks not-found first, and
the not-found lemmas are stated for admin actors only. The self-check comes after the admin check:
the test at
`backend/ApiService/Tests/Application.Tests/UserCases/Commands/DeleteUserFromRoomHandlerTests.cs:121-153`
shows that a non-admin deleting themselves gets `NotAuthorized`, not `BadRequest`.

## Model

| member | source | states |
|---|---|---|
| `Users.FindById` | backend/ApiService/Tests/Application.Tests/UserCases/Commands/DeleteUserFromRoomHandlerTests.cs:91-119 | the index found is of the first user with that id; no index exactly when no user has it |
| `Users.FindByCode` | backend/ApiService/Source/Application/UseCases/User/Handlers/DeleteUserHandler.cs:24 | the index found is of the first user with that code; no index exactly when no user has it |
| `Users.UserByCode` | backend/ApiService/Source/Application/UseCases/User/Handlers/DeleteUserHandler.cs:24 | the acting user resolved by code is a member carrying that code |
| `Users.RemoveAt` | backend/ApiService/Tests/Application.Tests/UserCases/Commands/DeleteUserFromRoomHandlerTests.cs:186-219 | the removal inside the room's deletion: one member fewer, and the old multiset of members is the new one plus exactly the removed member; `RemoveAtIndex` and `RemoveAtMembers` state order and membership |
| `Users.RemoveAtIndex` | backend/ApiService/Tests/Application.Tests/UserCases/Commands/DeleteUserFromRoomHandlerTests.cs:186-219 | removal shortens the list by one and keeps the order of the rest |
| `Users.RemoveAtMembers` | backend/ApiService/Tests/Application.Tests/UserCases/Commands/DeleteUserFromRoomHandlerTests.cs:186-219 | with unique ids, removal drops exactly the target's id, keeps every other member, adds none, and keeps ids unique |
| `Rooms.DeleteRule` | backend/ApiService/Tests/Application.Tests/UserCases/Commands/DeleteUserFromRoomHandlerTests.cs:61-219 | every refusal carries exactly one (property, message) entry, with a non-empty property; a success keeps the room id and closing state and has one member fewer |
| `Rooms.DeleteRuleSucceedsIff` | backend/ApiService/Tests/Application.Tests/UserCases/Commands/DeleteUserFromRoomHandlerTests.cs:61-219 | deletion succeeds if and only if the room is open, the id is given and present, the actor is admin, and the id is not the actor's |
| `Rooms.ClosedRoomRejects` | backend/ApiService/Tests/Application.Tests/UserCases/Commands/DeleteUserFromRoomHandlerTests.cs:61-89 | a closed room gives BadRequest on `room.ClosedOn` for every actor and target |
| `Rooms.MissingTargetNotFound` | backend/ApiService/Tests/Application.Tests/UserCases/Commands/DeleteUserFromRoomHandlerTests.cs:91-119 | an admin with a null or absent id gets NotFound on `userId` |
| `Rooms.NonAdminNotAuthorized` | backend/ApiService/Tests/Application.Tests/UserCases/Commands/DeleteUserFromRoomHandlerTests.cs:121-153 | a non-admin naming any member, themselves included, gets NotAuthorized on `UserCode` |
| `Rooms.AdminSelfDeleteRejected` | backend/ApiService/Tests/Application.Tests/UserCases/Commands/DeleteUserFromRoomHandlerTests.cs:155-184 | an admin naming their own id gets BadRequest on `userId` |
| `Rooms.AdminDeletesOther` | backend/ApiService/Tests/Application.Tests/UserCases/Commands/DeleteUserFromRoomHandlerTests.cs:186-219 | an admin removing another member of an open room succeeds; that id is gone, all others remain, nothing is added, the room stays valid |
| `Rooms.DeleteRulePreservesValid` | backend/ApiService/Tests/Application.Tests/UserCases/Commands/DeleteUserFromRoomHandlerTests.cs:186-219 | a successful deletion keeps member ids unique and members pointing at the room |
| `Rooms.Room.DeleteUser` | backend/ApiService/Source/Application/UseCases/User/Handlers/DeleteUserHandler.cs:30-36 | the in-place deletion returns the room itself with the members the rule gives, or the rule's error with members unchanged |
| `RoomRepositories.LoadByUserCode` | backend/ApiService/Source/Application/UseCases/User/Handlers/DeleteUserHandler.cs:24 | loading fails with NotFound exactly when no stored room has a member with the code; a loaded room is a stored one holding the code |
| `RoomRepositories.LoadByUserCodeUnique` | backend/ApiService/Source/Application/UseCases/User/Handlers/DeleteUserHandler.cs:24 | in a consistent store the room holding a code is the one loaded |
| `RoomRepositories.RemovalKeepsStoreValid` | backend/ApiService/Source/Application/UseCases/User/Handlers/DeleteUserHandler.cs:39 | writing back a room minus one member keeps the store consistent |
| `RoomRepositories.RoomRepository.GetByUserCode` | backend/ApiService/Source/Application/UseCases/User/Handlers/DeleteUserHandler.cs:24 | logs the call and every aggregate it hands out; fails exactly when no room holds the code; otherwise returns a new aggregate equal to a stored room holding the code, which in a consistent store is exactly what `LoadByUserCode` gives |
| `RoomRepositories.RoomRepository.Update` | backend/ApiService/Source/Application/UseCases/User/Handlers/DeleteUserHandler.cs:39 | logs the call; either fails with the configured message and stores nothing, or writes the room's value under its id |
| `DeleteUserHandlers.UpdateFailedError` | backend/ApiService/Source/Application/UseCases/User/Handlers/DeleteUserHandler.cs:40-44 | a failed update becomes a BadRequest with one failure: empty property, the update's message |
| `DeleteUserHandlers.DeletionKeepsStoreValid` | backend/ApiService/Source/Application/UseCases/User/Handlers/DeleteUserHandler.cs:32-39 | persisting an accepted deletion keeps the store consistent, under the room's own id |
| `DeleteUserHandlers.HandleSpec` | backend/ApiService/Source/Application/UseCases/User/Handlers/DeleteUserHandler.cs:20-50 | the four steps in order, first failure wins: every failure carries an entry, the first call is always the load by code, the store changes only after a successful update, and a third call is always the re-load by the same code; the `Handle*` lemmas below state each branch |
| `DeleteUserHandlers.HandleLoadFailure` | backend/ApiService/Source/Application/UseCases/User/Handlers/DeleteUserHandler.cs:24-28 | an unknown code gives the load's NotFound on `userCode`; one call, nothing stored |
| `DeleteUserHandlers.HandleDeleteFailure` | backend/ApiService/Source/Application/UseCases/User/Handlers/DeleteUserHandler.cs:32-36 | the room's refusal is returned unchanged; no update, no re-load, nothing stored |
| `DeleteUserHandlers.HandleUpdateFailure` | backend/ApiService/Source/Application/UseCases/User/Handlers/DeleteUserHandler.cs:39-45 | a failed update gives BadRequest with one failure ("", message); exactly load and update calls |
| `DeleteUserHandlers.HandleSuccessReloads` | backend/ApiService/Source/Application/UseCases/User/Handlers/DeleteUserHandler.cs:47-49 | on success the answer is a second load by the same code, after load and update; that load returns exactly the persisted room |
| `DeleteUserHandlers.HandleErrorsWellFormed` | backend/ApiService/Source/Application/UseCases/User/Handlers/DeleteUserHandler.cs:20-50 | every failure the handler returns carries at least one (property, message) entry |
| `DeleteUserHandlers.HandleClosedRoom` | backend/ApiService/Tests/Application.Tests/UserCases/Commands/DeleteUserFromRoomHandlerTests.cs:61-89 | through the handler: a closed room gives BadRequest on `room.ClosedOn`; nothing stored |
| `DeleteUserHandlers.HandleAdminTargetMissing` | backend/ApiService/Tests/Application.Tests/UserCases/Commands/DeleteUserFromRoomHandlerTests.cs:91-119 | through the handler: an admin with a null or absent id gets NotFound on `userId` |
| `DeleteUserHandlers.HandleNonAdmin` | backend/ApiService/Tests/Application.Tests/UserCases/Commands/DeleteUserFromRoomHandlerTests.cs:121-153 | through the handler: a non-admin naming a present member, themselves included, gets NotAuthorized on `UserCode` |
| `DeleteUserHandlers.HandleAdminSelf` | backend/ApiService/Tests/Application.Tests/UserCases/Commands/DeleteUserFromRoomHandlerTests.cs:155-184 | through the handler: an admin naming themselves gets BadRequest on `userId` |
| `DeleteUserHandlers.HandleAdminDeletesOther` | backend/ApiService/Tests/Application.Tests/UserCases/Commands/DeleteUserFromRoomHandlerTests.cs:186-219 | through the handler: success, the returned room lacks the id, keeps every other member, and is what was stored |
| `DeleteUserHandlers.ScenarioAdminRemovesMember` | backend/ApiService/Tests/Application.Tests/UserCases/Commands/DeleteUserFromRoomHandlerTests.cs:186-219 | admin 1 removing member 2 leaves the room with the admin alone |
| `DeleteUserHandlers.ScenarioMemberDeletesSelf` | backend/ApiService/Tests/Application.Tests/UserCases/Commands/DeleteUserFromRoomHandlerTests.cs:121-153 | a non-admin member removing themselves gets NotAuthorized |
| `DeleteUserHandlers.DeleteUserHandler.Handle` | backend/ApiService/Source/Application/UseCases/User/Handlers/DeleteUserHandler.cs:20-50 | the method's stored rooms, call log and result are those of the four-step specification; a success is the aggregate handed out by the second load, not the one from the first; the store stays consistent |
| `UserRepositories.GetByCode` | backend/ApiService/Source/Application/UseCases/User/Handlers/GetUsersHandler.cs:23-24 | returns a user with the code, or NotFound exactly when none has it |
| `UserRepositories.GetById` | backend/ApiService/Source/Application/UseCases/User/Handlers/GetUsersHandler.cs:39-40 | returns a user with the id, or NotFound exactly when none has it |
| `UserRepositories.UsersInRoom` | backend/ApiService/Source/Application/UseCases/User/Handlers/GetUsersHandler.cs:33-34 | the listing holds exactly the table's users of that room |
| `UserRepositories.GetManyByRoomId` | backend/ApiService/Source/Application/UseCases/User/Handlers/GetUsersHandler.cs:33-34 | the in-memory room listing always succeeds |
| `UserRepositories.GetByIdOfMember` | backend/ApiService/Source/Application/UseCases/User/Handlers/GetUsersHandler.cs:39-40 | with unique ids, looking up a member's id yields that member |
| `GetUsersHandlers.Handle` | backend/ApiService/Source/Application/UseCases/User/Handlers/GetUsersHandler.cs:20-54 | the query as a function of the user table, so it cannot change repository state: every failure carries an entry, the first query is always the lookup by code, at most two queries are made, and a success for a given id holds exactly two users; the `Handle*` lemmas below state each branch |
| `GetUsersHandlers.HandleUnknownCaller` | backend/ApiService/Source/Application/UseCases/User/Handlers/GetUsersHandler.cs:23-28 | an unknown caller code gives the lookup's failure after that single query |
| `GetUsersHandlers.HandleListsRoom` | backend/ApiService/Source/Application/UseCases/User/Handlers/GetUsersHandler.cs:30-36 | with no id the result is exactly the room listing's result, the members of the caller's room, and no id lookup is made |
| `GetUsersHandlers.HandleUnknownTarget` | backend/ApiService/Source/Application/UseCases/User/Handlers/GetUsersHandler.cs:38-44 | a failed id lookup is returned unchanged after the two lookups |
| `GetUsersHandlers.HandleDifferentRooms` | backend/ApiService/Source/Application/UseCases/User/Handlers/GetUsersHandler.cs:46-51 | a target in another room gives NotAuthorized with the single failure on `id` and the fixed message |
| `GetUsersHandlers.HandleSameRoom` | backend/ApiService/Source/Application/UseCases/User/Handlers/GetUsersHandler.cs:53 | a target in the caller's room gives exactly [target, caller], after exactly two lookups |
| `GetUsersHandlers.HandleOwnId` | backend/ApiService/Source/Application/UseCases/User/Handlers/GetUsersHandler.cs:38-53 | asking for one's own id returns the caller twice; there is no deduplication |
| `GetUsersHandlers.HandleErrorsWellFormed` | backend/ApiService/Source/Application/UseCases/User/Handlers/GetUsersHandler.cs:23-53 | every failure the query returns carries at least one (property, message) entry |

## Left out

- Asynchrony, cancellation tokens and request dispatch: they carry no decision logic. Each awaited repository call is one step.
- Real persistence: the room repository is an in-memory map and the user repository an in-memory table. The update's outcome is a field, `updateFailure`, that the caller sets.
- `includeRoom` / `includeWishes` eager-loading flags, wishes, and the other profile fields of a user: they do not affect any decision here.
- The error messages of the room rule and of the repositories: neither handler fixes these texts, so they are placeholders. The different-rooms message is the handler's own.
- The property names and kinds of the room rule's errors and of the room repository's not-found error follow the handler tests. The user repository's not-found errors (`"userCode"` for `GetByCode`, `"id"` for `GetById`) are placeholders: no test covers the get-users query.
- The repository returning a room for a code that none of its members has: the tests' mocks do this (the closed-room test passes an empty code). In this model a loaded room always contains the caller, so the acting user always exists.
- `UserRepositories.GetManyByRoomId`: the in-memory listing never fails. The handler lemma still states that the result equals the listing's result, whatever that is.
- Concurrent requests against the same room: the model handles one request at a time.
- The front-end delete-participant modal and the application configuration: presentation and wiring only.
