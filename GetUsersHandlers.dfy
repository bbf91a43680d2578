/**
 * The get-users query: resolve the caller by code, then list the caller's room, or return the
 * requested user together with the caller when both are in the same room.
 */
module GetUsersHandlers {
  import opened Validation
  import opened Users
  import opened UserRepositories

  /** The query: who asks, and optionally which user they ask about. */
  datatype GetUsersQuery = GetUsersQuery(userCode: string, userId: Option<UserId>)

  /** The answer and the queries made to reach it, in order. */
  datatype GetUsersOutcome = GetUsersOutcome(result: Result<seq<User>, ValidationError>, calls: seq<UserQuery>)

  const DifferentRoomsMessage := "User with userCode and user with Id belongs to different rooms."
  const DifferentRoomsError := ValidationError(NotAuthorized, [ValidationFailure("id", DifferentRoomsMessage)])

  /** The query handler, over a snapshot of the user table; it changes nothing. */
  function Handle(table: seq<User>, query: GetUsersQuery): (o: GetUsersOutcome)
    ensures o.result.Failure? ==> WellFormed(o.result.error)
    ensures 1 <= |o.calls| <= 2 && o.calls[0] == GetByCodeQuery(query.userCode)
    ensures query.userId.Some? && o.result.Success? ==> |o.result.value| == 2
  {
    var authUser := GetByCode(table, query.userCode);
    if authUser.Failure? then
      GetUsersOutcome(Failure(authUser.error), [GetByCodeQuery(query.userCode)])
    else if query.userId.None? then
      var roomId := authUser.value.roomId;
      GetUsersOutcome(GetManyByRoomId(table, roomId), [GetByCodeQuery(query.userCode), GetManyByRoomIdQuery(roomId)])
    else
      var calls := [GetByCodeQuery(query.userCode), GetByIdQuery(query.userId.value)];
      var requested := GetById(table, query.userId.value);
      if requested.Failure? then GetUsersOutcome(Failure(requested.error), calls)
      else if requested.value.roomId != authUser.value.roomId then GetUsersOutcome(Failure(DifferentRoomsError), calls)
      else GetUsersOutcome(Success([requested.value, authUser.value]), calls)
  }

  /** An unknown caller code: that failure, after a single query. */
  lemma HandleUnknownCaller(table: seq<User>, query: GetUsersQuery)
    requires GetByCode(table, query.userCode).Failure?
    ensures Handle(table, query) ==
      GetUsersOutcome(Failure(UserCodeNotFoundError), [GetByCodeQuery(query.userCode)])
  {
  }

  /**
   * No id: exactly the room listing query's result, the members of the caller's room,
   * and no lookup by id.
   */
  lemma HandleListsRoom(table: seq<User>, query: GetUsersQuery)
    requires GetByCode(table, query.userCode).Success? && query.userId.None?
    ensures var caller := GetByCode(table, query.userCode).value;
      var o := Handle(table, query);
      o.result == GetManyByRoomId(table, caller.roomId) &&
      o.calls == [GetByCodeQuery(query.userCode), GetManyByRoomIdQuery(caller.roomId)] &&
      o.result.Success? && caller in o.result.value &&
      (forall u :: u in o.result.value <==> u in table && u.roomId == caller.roomId)
  {
  }

  /** An id with no user behind it: the lookup's failure, unchanged. */
  lemma HandleUnknownTarget(table: seq<User>, query: GetUsersQuery)
    requires GetByCode(table, query.userCode).Success?
    requires query.userId.Some? && !HasId(table, query.userId.value)
    ensures Handle(table, query).result == Failure(UserIdNotFoundError)
    ensures Handle(table, query).calls == [GetByCodeQuery(query.userCode), GetByIdQuery(query.userId.value)]
  {
  }

  /** A target in another room: NotAuthorized with one failure on id. */
  lemma HandleDifferentRooms(table: seq<User>, query: GetUsersQuery)
    requires GetByCode(table, query.userCode).Success?
    requires query.userId.Some? && GetById(table, query.userId.value).Success?
    requires GetById(table, query.userId.value).value.roomId != GetByCode(table, query.userCode).value.roomId
    ensures Handle(table, query).result == Failure(ValidationError(NotAuthorized, [ValidationFailure("id", DifferentRoomsMessage)]))
  {
  }

  /** A target in the caller's room: exactly two users, the target first, then the caller. */
  lemma HandleSameRoom(table: seq<User>, query: GetUsersQuery)
    requires GetByCode(table, query.userCode).Success?
    requires query.userId.Some? && GetById(table, query.userId.value).Success?
    requires GetById(table, query.userId.value).value.roomId == GetByCode(table, query.userCode).value.roomId
    ensures var o := Handle(table, query);
      o.result == Success([GetById(table, query.userId.value).value, GetByCode(table, query.userCode).value]) &&
      o.calls == [GetByCodeQuery(query.userCode), GetByIdQuery(query.userId.value)] &&
      |o.result.value| == 2 &&
      o.result.value[0] in table && o.result.value[0].id == query.userId.value &&
      o.result.value[1] in table && o.result.value[1].authCode == query.userCode &&
      o.result.value[0].roomId == o.result.value[1].roomId
  {
  }

  /** Asking about oneself returns the caller twice: the answer is not deduplicated. */
  lemma HandleOwnId(table: seq<User>, caller: User)
    requires UniqueIds(table) && caller in table
    requires GetByCode(table, caller.authCode) == Success(caller)
    ensures Handle(table, GetUsersQuery(caller.authCode, Some(caller.id))).result == Success([caller, caller])
  {
    GetByIdOfMember(table, caller);
  }

  /** Every failure the query reports carries at least one (property, message) entry. */
  lemma HandleErrorsWellFormed(table: seq<User>, query: GetUsersQuery)
    requires Handle(table, query).result.Failure?
    ensures WellFormed(Handle(table, query).result.error)
  {
  }
}
