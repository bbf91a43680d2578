/**
 * The delete-user command: load the caller's room by user code, let the room decide the
 * deletion, persist it, and answer with the room as re-loaded from the repository.
 */
module DeleteUserHandlers {
  import opened Validation
  import opened Users
  import opened Rooms
  import opened RoomRepositories

  /** The command: who asks (by authentication code) and which user to remove. */
  datatype DeleteUserRequest = DeleteUserRequest(userCode: string, userId: Option<UserId>)

  /** What handling a request does: its result, the stored rooms after it, and the calls made. */
  datatype Outcome = Outcome(result: Result<RoomRecord, ValidationError>, rooms: map<RoomId, RoomRecord>, calls: seq<RoomCall>)

  /** A failed update, reported as a bad request with no property and the update's message. */
  function UpdateFailedError(message: string): (e: ValidationError)
    ensures IsSingle(e, BadRequest, "") && e.errors[0].errorMessage == message
  {
    ValidationError(BadRequest, [ValidationFailure("", message)])
  }

  /** The four steps in order; the first that fails decides the result. */
  ghost function HandleSpec(rooms: map<RoomId, RoomRecord>, updateFailure: Option<string>, request: DeleteUserRequest): (o: Outcome)
    ensures o.result.Failure? ==> WellFormed(o.result.error)
    ensures 1 <= |o.calls| <= 3 && o.calls[0] == GetByUserCodeCall(request.userCode)
    ensures (|o.calls| < 3 || updateFailure.Some?) ==> o.rooms == rooms
    ensures |o.calls| == 3 ==> o.calls[2] == GetByUserCodeCall(request.userCode)
  {
    var code := request.userCode;
    var loaded := LoadByUserCode(rooms, code);
    if loaded.Failure? then Outcome(Failure(loaded.error), rooms, [GetByUserCodeCall(code)])
    else
      var room := loaded.value;
      var deleted := DeleteRule(room, UserByCode(room.users, code), request.userId);
      if deleted.Failure? then Outcome(Failure(deleted.error), rooms, [GetByUserCodeCall(code)])
      else if updateFailure.Some? then
        Outcome(Failure(UpdateFailedError(updateFailure.value)), rooms,
                [GetByUserCodeCall(code), UpdateCall(deleted.value)])
      else
        var stored := rooms[deleted.value.id := deleted.value];
        Outcome(LoadByUserCode(stored, code), stored,
                [GetByUserCodeCall(code), UpdateCall(deleted.value), GetByUserCodeCall(code)])
  }

  /** Persisting a successful deletion keeps a consistent store consistent. */
  lemma DeletionKeepsStoreValid(rooms: map<RoomId, RoomRecord>, k: RoomId, actor: User, userId: Option<UserId>)
    requires StoreValid(rooms) && k in rooms && DeleteRule(rooms[k], actor, userId).Success?
    ensures var after := DeleteRule(rooms[k], actor, userId).value;
      after.id == k && StoreValid(rooms[k := after])
  {
    RemovalKeepsStoreValid(rooms, k, FindById(rooms[k].users, userId.value).value);
  }

  /** A failed load is returned as it is, and nothing else is asked of the repository. */
  lemma HandleLoadFailure(rooms: map<RoomId, RoomRecord>, updateFailure: Option<string>, request: DeleteUserRequest)
    requires !HoldsCode(rooms, request.userCode)
    ensures HandleSpec(rooms, updateFailure, request) ==
      Outcome(Failure(RoomNotFoundError), rooms, [GetByUserCodeCall(request.userCode)])
    ensures IsSingle(RoomNotFoundError, NotFound, "userCode")
  {
  }

  /** A refusal by the room is returned as it is, and no update is made. */
  lemma HandleDeleteFailure(rooms: map<RoomId, RoomRecord>, updateFailure: Option<string>, request: DeleteUserRequest)
    requires LoadByUserCode(rooms, request.userCode).Success?
    requires var room := LoadByUserCode(rooms, request.userCode).value;
      DeleteRule(room, UserByCode(room.users, request.userCode), request.userId).Failure?
    ensures var room := LoadByUserCode(rooms, request.userCode).value;
      var o := HandleSpec(rooms, updateFailure, request);
      o.result == Failure(DeleteRule(room, UserByCode(room.users, request.userCode), request.userId).error) &&
      o.rooms == rooms && o.calls == [GetByUserCodeCall(request.userCode)]
  {
  }

  /** A failed update becomes a bad request with one failure: empty property, the update's message. */
  lemma HandleUpdateFailure(rooms: map<RoomId, RoomRecord>, message: string, request: DeleteUserRequest)
    requires LoadByUserCode(rooms, request.userCode).Success?
    requires var room := LoadByUserCode(rooms, request.userCode).value;
      DeleteRule(room, UserByCode(room.users, request.userCode), request.userId).Success?
    ensures var room := LoadByUserCode(rooms, request.userCode).value;
      var after := DeleteRule(room, UserByCode(room.users, request.userCode), request.userId).value;
      var o := HandleSpec(rooms, Some(message), request);
      o.result == Failure(ValidationError(BadRequest, [ValidationFailure("", message)])) &&
      o.rooms == rooms && o.calls == [GetByUserCodeCall(request.userCode), UpdateCall(after)]
  {
  }

  /**
   * When every step succeeds, the answer is the second load of the room by the same code,
   * and that load gives back exactly the room that was persisted.
   */
  lemma HandleSuccessReloads(rooms: map<RoomId, RoomRecord>, request: DeleteUserRequest)
    requires StoreValid(rooms) && LoadByUserCode(rooms, request.userCode).Success?
    requires var room := LoadByUserCode(rooms, request.userCode).value;
      DeleteRule(room, UserByCode(room.users, request.userCode), request.userId).Success?
    ensures var room := LoadByUserCode(rooms, request.userCode).value;
      var after := DeleteRule(room, UserByCode(room.users, request.userCode), request.userId).value;
      var o := HandleSpec(rooms, None, request);
      o.rooms == rooms[room.id := after] && StoreValid(o.rooms) &&
      o.calls == [GetByUserCodeCall(request.userCode), UpdateCall(after), GetByUserCodeCall(request.userCode)] &&
      o.result == LoadByUserCode(o.rooms, request.userCode) &&
      o.result == Success(after)
  {
    var code := request.userCode;
    var room := LoadByUserCode(rooms, code).value;
    var actor := UserByCode(room.users, code);
    var after := DeleteRule(room, actor, request.userId).value;
    var k :| k in rooms && rooms[k] == room;
    DeletionKeepsStoreValid(rooms, k, actor, request.userId);
    AdminDeletesOther(room, actor, request.userId.value);
    assert actor in after.users;
    LoadByUserCodeUnique(rooms[k := after], code, k);
  }

  /** Every failure the handler reports carries at least one (property, message) entry. */
  lemma HandleErrorsWellFormed(rooms: map<RoomId, RoomRecord>, updateFailure: Option<string>, request: DeleteUserRequest)
    requires HandleSpec(rooms, updateFailure, request).result.Failure?
    ensures WellFormed(HandleSpec(rooms, updateFailure, request).result.error)
  {
  }

  /** A closed room: BadRequest on room.ClosedOn whatever the target, and no update. */
  lemma HandleClosedRoom(rooms: map<RoomId, RoomRecord>, updateFailure: Option<string>, request: DeleteUserRequest, k: RoomId)
    requires StoreValid(rooms) && k in rooms && FindByCode(rooms[k].users, request.userCode).Some?
    requires rooms[k].closedOn.Some?
    ensures var o := HandleSpec(rooms, updateFailure, request);
      o.result == Failure(RoomClosedError) && o.rooms == rooms
  {
    LoadByUserCodeUnique(rooms, request.userCode, k);
  }

  /** An admin naming no user, or one not in the room: NotFound on userId. */
  lemma HandleAdminTargetMissing(rooms: map<RoomId, RoomRecord>, updateFailure: Option<string>, request: DeleteUserRequest, k: RoomId)
    requires StoreValid(rooms) && k in rooms && FindByCode(rooms[k].users, request.userCode).Some?
    requires rooms[k].closedOn.None? && UserByCode(rooms[k].users, request.userCode).isAdmin
    requires request.userId.None? || !HasId(rooms[k].users, request.userId.value)
    ensures var o := HandleSpec(rooms, updateFailure, request);
      o.result == Failure(UserNotFoundError) && o.rooms == rooms
  {
    LoadByUserCodeUnique(rooms, request.userCode, k);
  }

  /** A non-admin naming any member, themselves included: NotAuthorized on UserCode. */
  lemma HandleNonAdmin(rooms: map<RoomId, RoomRecord>, updateFailure: Option<string>, request: DeleteUserRequest, k: RoomId)
    requires StoreValid(rooms) && k in rooms && FindByCode(rooms[k].users, request.userCode).Some?
    requires rooms[k].closedOn.None? && !UserByCode(rooms[k].users, request.userCode).isAdmin
    requires request.userId.Some? && HasId(rooms[k].users, request.userId.value)
    ensures var o := HandleSpec(rooms, updateFailure, request);
      o.result == Failure(NotAdminError) && o.rooms == rooms
  {
    LoadByUserCodeUnique(rooms, request.userCode, k);
  }

  /** An admin naming their own id: BadRequest on userId. */
  lemma HandleAdminSelf(rooms: map<RoomId, RoomRecord>, updateFailure: Option<string>, request: DeleteUserRequest, k: RoomId)
    requires StoreValid(rooms) && k in rooms && FindByCode(rooms[k].users, request.userCode).Some?
    requires rooms[k].closedOn.None? && UserByCode(rooms[k].users, request.userCode).isAdmin
    requires request.userId == Some(UserByCode(rooms[k].users, request.userCode).id)
    ensures var o := HandleSpec(rooms, updateFailure, request);
      o.result == Failure(SelfDeleteError) && o.rooms == rooms
  {
    LoadByUserCodeUnique(rooms, request.userCode, k);
  }

  /**
   * An admin removing another member of an open room: the answer is the stored room without
   * that user, and with everyone else.
   */
  lemma HandleAdminDeletesOther(rooms: map<RoomId, RoomRecord>, request: DeleteUserRequest, k: RoomId)
    requires StoreValid(rooms) && k in rooms && FindByCode(rooms[k].users, request.userCode).Some?
    requires rooms[k].closedOn.None? && UserByCode(rooms[k].users, request.userCode).isAdmin
    requires request.userId.Some? && HasId(rooms[k].users, request.userId.value)
    requires request.userId.value != UserByCode(rooms[k].users, request.userCode).id
    ensures var o := HandleSpec(rooms, None, request);
      o.result.Success? && o.rooms == rooms[k := o.result.value] &&
      !HasId(o.result.value.users, request.userId.value) &&
      (forall u :: u in rooms[k].users && u.id != request.userId.value ==> u in o.result.value.users) &&
      (forall u :: u in o.result.value.users ==> u in rooms[k].users)
  {
    var actor := UserByCode(rooms[k].users, request.userCode);
    LoadByUserCodeUnique(rooms, request.userCode, k);
    AdminDeletesOther(rooms[k], actor, request.userId.value);
    HandleSuccessReloads(rooms, request);
  }

  /** Room 1 holds an admin (id 1) and a member (id 2); the admin removes the member. */
  lemma ScenarioAdminRemovesMember()
    ensures var admin := User(1, 1, "admin-code", true);
      var member := User(2, 1, "member-code", false);
      var rooms := map[1 := RoomRecord(1, [admin, member], None)];
      HandleSpec(rooms, None, DeleteUserRequest("admin-code", Some(2))).result ==
        Success(RoomRecord(1, [admin], None))
  {
    var admin := User(1, 1, "admin-code", true);
    var member := User(2, 1, "member-code", false);
    var rooms := map[1 := RoomRecord(1, [admin, member], None)];
    var request := DeleteUserRequest("admin-code", Some(2));
    assert FindByCode(rooms[1].users, "admin-code") == Some(0);
    assert FindById(rooms[1].users, 2) == Some(1);
    assert RemoveAt([admin, member], 1) == [admin];
    assert StoreValid(rooms);
    LoadByUserCodeUnique(rooms, request.userCode, 1);
    assert DeleteRule(rooms[1], admin, Some(2)) == Success(RoomRecord(1, [admin], None));
    HandleSuccessReloads(rooms, request);
  }

  /** In the same room the member asks to remove themselves: NotAuthorized on UserCode. */
  lemma ScenarioMemberDeletesSelf()
    ensures var admin := User(1, 1, "admin-code", true);
      var member := User(2, 1, "member-code", false);
      var rooms := map[1 := RoomRecord(1, [admin, member], None)];
      HandleSpec(rooms, None, DeleteUserRequest("member-code", Some(2))).result == Failure(NotAdminError)
  {
    var admin := User(1, 1, "admin-code", true);
    var member := User(2, 1, "member-code", false);
    var rooms := map[1 := RoomRecord(1, [admin, member], None)];
    assert FindByCode(rooms[1].users, "member-code") == Some(1);
    assert rooms[1].users[1].id == 2;
    HandleNonAdmin(rooms, None, DeleteUserRequest("member-code", Some(2)), 1);
  }

  /** The handler, over the repository it was built with. */
  class DeleteUserHandler {
    const repository: RoomRepository

    constructor (repository: RoomRepository)
      ensures this.repository == repository
    {
      this.repository := repository;
    }

    /**
     * Handles one request. The repository ends as HandleSpec says, with exactly HandleSpec's
     * calls appended; a success is a newly loaded room whose value is HandleSpec's result.
     */
    method Handle(request: DeleteUserRequest) returns (r: Result<Room, ValidationError>)
      requires StoreValid(repository.rooms)
      modifies repository
      ensures StoreValid(repository.rooms)
      ensures var o := HandleSpec(old(repository.rooms), old(repository.updateFailure), request);
        repository.rooms == o.rooms &&
        repository.calls == old(repository.calls) + o.calls &&
        repository.updateFailure == old(repository.updateFailure) &&
        (r.Success? <==> o.result.Success?) &&
        (r.Failure? ==> r.error == o.result.error) &&
        (r.Success? ==> fresh(r.value) && r.value.State() == o.result.value)
      ensures r.Success? ==>
        |repository.loaded| == |old(repository.loaded)| + 2 &&
        r.value == repository.loaded[|repository.loaded| - 1] &&
        r.value != repository.loaded[|repository.loaded| - 2]
    {
      ghost var rooms0 := repository.rooms;
      ghost var calls0 := repository.calls;
      // 1. Load the room by the caller's user code.
      var roomResult := repository.GetByUserCode(request.userCode);
      if roomResult.Failure? {
        return Failure(roomResult.error);
      }
      var room := roomResult.value;
      ghost var k := room.id;

      // 2. Let the room decide, on behalf of the user the code belongs to.
      var actor := UserByCode(room.users, request.userCode);
      var deleteResult := room.DeleteUser(actor, request.userId);
      if deleteResult.Failure? {
        return Failure(deleteResult.error);
      }
      DeletionKeepsStoreValid(rooms0, k, actor, request.userId);
      ghost var after := room.State();
      assert after == DeleteRule(rooms0[k], actor, request.userId).value;

      // 3. Persist the room.
      var updateResult := repository.Update(room);
      if updateResult.Failure? {
        return Failure(UpdateFailedError(updateResult.error));
      }

      assert repository.rooms == rooms0[k := after];
      assert repository.calls == calls0 + [GetByUserCodeCall(request.userCode), UpdateCall(after)];
      // 4. Answer with the room as loaded again.
      var reloaded := repository.GetByUserCode(request.userCode);
      assert repository.calls ==
        calls0 + [GetByUserCodeCall(request.userCode), UpdateCall(after), GetByUserCodeCall(request.userCode)];
      return reloaded;
    }
  }
}
