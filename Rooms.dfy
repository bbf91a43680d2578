/** The Room aggregate: its membership, its closing state and the rule that decides a deletion. */
module Rooms {
  import opened Validation
  import opened Users

  /** A room as stored: id, ordered membership and the optional closing timestamp. */
  datatype RoomRecord = RoomRecord(id: RoomId, users: seq<User>, closedOn: Option<int>)

  /** A stored room: ids are unique and every member points back at the room. */
  predicate RecordValid(room: RoomRecord) {
    UniqueIds(room.users) &&
    forall i :: 0 <= i < |room.users| ==> room.users[i].roomId == room.id
  }

  const RoomClosedError := ValidationError(BadRequest, [ValidationFailure("room.ClosedOn", "Room is already closed.")])
  const UserNotFoundError := ValidationError(NotFound, [ValidationFailure("userId", "User with such id was not found in the room.")])
  const NotAdminError := ValidationError(NotAuthorized, [ValidationFailure("UserCode", "Only the room admin can delete users.")])
  const SelfDeleteError := ValidationError(BadRequest, [ValidationFailure("userId", "User cannot delete themselves.")])

  /**
   * The deletion rule, evaluated for an acting user. The first rule that fails wins:
   * a closed room, then a missing or absent target id, then an actor who is not an admin,
   * then an actor targeting themselves; otherwise the target leaves the room.
   */
  function DeleteRule(room: RoomRecord, actor: User, userId: Option<UserId>): (r: Result<RoomRecord, ValidationError>)
    ensures r.Failure? ==> WellFormed(r.error)
    ensures r.Failure? ==> |r.error.errors| == 1 && r.error.errors[0].propertyName != ""
    ensures r.Success? ==> r.value.id == room.id && r.value.closedOn == room.closedOn
    ensures r.Success? ==> |r.value.users| == |room.users| - 1
  {
    if room.closedOn.Some? then Failure(RoomClosedError)
    else
      var target := if userId.None? then None else FindById(room.users, userId.value);
      if target.None? then Failure(UserNotFoundError)
      else if !actor.isAdmin then Failure(NotAdminError)
      else if room.users[target.value].id == actor.id then Failure(SelfDeleteError)
      else Success(room.(users := RemoveAt(room.users, target.value)))
  }

  /** The rule accepts exactly an admin removing another, present user from an open room. */
  lemma DeleteRuleSucceedsIff(room: RoomRecord, actor: User, userId: Option<UserId>)
    ensures DeleteRule(room, actor, userId).Success? <==>
      room.closedOn.None? && userId.Some? && HasId(room.users, userId.value) &&
      actor.isAdmin && userId.value != actor.id
  {
  }

  /** A closed room rejects every deletion, whoever asks and whatever the target. */
  lemma ClosedRoomRejects(room: RoomRecord, actor: User, userId: Option<UserId>)
    requires room.closedOn.Some?
    ensures DeleteRule(room, actor, userId) == Failure(RoomClosedError)
    ensures IsSingle(RoomClosedError, BadRequest, "room.ClosedOn")
  {
  }

  /** An admin naming no id, or an id not in the room, gets NotFound on userId. */
  lemma MissingTargetNotFound(room: RoomRecord, actor: User, userId: Option<UserId>)
    requires room.closedOn.None? && actor.isAdmin
    requires userId.None? || !HasId(room.users, userId.value)
    ensures DeleteRule(room, actor, userId) == Failure(UserNotFoundError)
    ensures IsSingle(UserNotFoundError, NotFound, "userId")
  {
  }

  /** A non-admin naming a present user, themselves included, gets NotAuthorized on UserCode. */
  lemma NonAdminNotAuthorized(room: RoomRecord, actor: User, id: UserId)
    requires room.closedOn.None? && !actor.isAdmin && HasId(room.users, id)
    ensures DeleteRule(room, actor, Some(id)) == Failure(NotAdminError)
    ensures IsSingle(NotAdminError, NotAuthorized, "UserCode")
  {
  }

  /** An admin naming their own id gets BadRequest on userId. */
  lemma AdminSelfDeleteRejected(room: RoomRecord, actor: User)
    requires room.closedOn.None? && actor.isAdmin && actor in room.users
    ensures DeleteRule(room, actor, Some(actor.id)) == Failure(SelfDeleteError)
    ensures IsSingle(SelfDeleteError, BadRequest, "userId")
  {
  }

  /**
   * An admin removing another member of an open, valid room succeeds: exactly that user
   * is gone, everyone else stays in order, and the room stays valid.
   */
  lemma AdminDeletesOther(room: RoomRecord, actor: User, id: UserId)
    requires RecordValid(room) && room.closedOn.None? && actor.isAdmin
    requires HasId(room.users, id) && id != actor.id
    ensures DeleteRule(room, actor, Some(id)).Success?
    ensures var after := DeleteRule(room, actor, Some(id)).value;
      after.id == room.id && after.closedOn == room.closedOn &&
      !HasId(after.users, id) &&
      (forall u :: u in room.users && u.id != id ==> u in after.users) &&
      (forall u :: u in after.users ==> u in room.users) &&
      |after.users| == |room.users| - 1 &&
      RecordValid(after)
  {
    var t := FindById(room.users, id).value;
    RemoveAtMembers(room.users, t);
    RemoveAtIndex(room.users, t);
  }

  /** A successful deletion keeps the room valid. */
  lemma DeleteRulePreservesValid(room: RoomRecord, actor: User, userId: Option<UserId>)
    requires RecordValid(room) && DeleteRule(room, actor, userId).Success?
    ensures RecordValid(DeleteRule(room, actor, userId).value)
  {
    AdminDeletesOther(room, actor, userId.value);
  }

  /** The room aggregate as loaded for one request; deletion changes its members in place. */
  class Room {
    const id: RoomId
    var users: seq<User>
    var closedOn: Option<int>

    /** The room's current value. */
    function State(): RoomRecord
      reads this
    {
      RoomRecord(id, users, closedOn)
    }

    constructor (room: RoomRecord)
      ensures State() == room
    {
      id := room.id;
      users := room.users;
      closedOn := room.closedOn;
    }

    /**
     * Deletes the user with the given id on behalf of the acting user. On success the
     * members are those DeleteRule gives and the room itself is returned; on failure
     * nothing changes and the rule's error is returned.
     */
    method DeleteUser(actor: User, userId: Option<UserId>) returns (r: Result<Room, ValidationError>)
      modifies this`users
      ensures var d := DeleteRule(old(State()), actor, userId);
        (r.Success? <==> d.Success?) &&
        (r.Success? ==> r.value == this && State() == d.value) &&
        (r.Failure? ==> r.error == d.error && users == old(users))
    {
      if closedOn.Some? {
        return Failure(RoomClosedError);
      }
      var target := if userId.None? then None else FindById(users, userId.value);
      if target.None? {
        return Failure(UserNotFoundError);
      }
      if !actor.isAdmin {
        return Failure(NotAdminError);
      }
      if users[target.value].id == actor.id {
        return Failure(SelfDeleteError);
      }
      users := RemoveAt(users, target.value);
      return Success(this);
    }
  }
}
