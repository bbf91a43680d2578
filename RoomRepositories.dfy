/** An in-memory room repository: rooms keyed by id, a configurable update outcome, a call log. */
module RoomRepositories {
  import opened Validation
  import opened Users
  import opened Rooms

  /** One call made on the repository, in the order made. */
  datatype RoomCall = GetByUserCodeCall(code: string) | UpdateCall(room: RoomRecord)

  const RoomNotFoundError := ValidationError(NotFound, [ValidationFailure("userCode", "Room with such userCode was not found.")])

  /**
   * The stored rooms are consistent: each is stored under its own id and is valid, and an
   * authentication code identifies at most one user in the whole store.
   */
  predicate StoreValid(rooms: map<RoomId, RoomRecord>) {
    (forall k :: k in rooms ==> rooms[k].id == k && RecordValid(rooms[k])) &&
    (forall k1, k2, i, j ::
      (k1 in rooms && k2 in rooms && 0 <= i < |rooms[k1].users| && 0 <= j < |rooms[k2].users| &&
       rooms[k1].users[i].authCode == rooms[k2].users[j].authCode) ==> k1 == k2 && i == j)
  }

  /** Some stored room has a member with this code. */
  predicate HoldsCode(rooms: map<RoomId, RoomRecord>, code: string) {
    exists k :: k in rooms && FindByCode(rooms[k].users, code).Some?
  }

  /** What loading a room by a user code yields. */
  ghost function LoadByUserCode(rooms: map<RoomId, RoomRecord>, code: string): (r: Result<RoomRecord, ValidationError>)
    ensures r.Failure? <==> !HoldsCode(rooms, code)
    ensures r.Failure? ==> r.error == RoomNotFoundError
    ensures r.Success? ==> exists k :: k in rooms && rooms[k] == r.value
    ensures r.Success? ==> FindByCode(r.value.users, code).Some?
  {
    if HoldsCode(rooms, code) then
      var k :| k in rooms && FindByCode(rooms[k].users, code).Some?;
      Success(rooms[k])
    else Failure(RoomNotFoundError)
  }

  /** In a consistent store the room holding a code is the only one LoadByUserCode can give. */
  lemma LoadByUserCodeUnique(rooms: map<RoomId, RoomRecord>, code: string, k: RoomId)
    requires StoreValid(rooms) && k in rooms && FindByCode(rooms[k].users, code).Some?
    ensures LoadByUserCode(rooms, code) == Success(rooms[k])
  {
    var r := LoadByUserCode(rooms, code).value;
    var k' :| k' in rooms && rooms[k'] == r;
    var i := FindByCode(rooms[k].users, code).value;
    var j := FindByCode(r.users, code).value;
    assert rooms[k].users[i].authCode == rooms[k'].users[j].authCode;
  }

  /** Replacing one stored room by itself minus one member keeps the store consistent. */
  lemma RemovalKeepsStoreValid(rooms: map<RoomId, RoomRecord>, k: RoomId, t: nat)
    requires StoreValid(rooms) && k in rooms && t < |rooms[k].users|
    ensures StoreValid(rooms[k := rooms[k].(users := RemoveAt(rooms[k].users, t))])
  {
    var before := rooms[k];
    var stored := rooms[k := before.(users := RemoveAt(before.users, t))];
    RemoveAtIndex(before.users, t);
    RemoveAtMembers(before.users, t);
    // Where each member of the store now was before.
    var was := (key: RoomId, i: nat) => if key == k && i >= t then i + 1 else i;
    forall key, i | key in stored && 0 <= i < |stored[key].users|
      ensures was(key, i) < |rooms[key].users| && stored[key].users[i] == rooms[key].users[was(key, i)]
    {
    }
    forall key | key in stored ensures stored[key].id == key && RecordValid(stored[key]) {
      if key == k {
        forall i | 0 <= i < |stored[key].users| ensures stored[key].users[i].roomId == key {
          assert stored[key].users[i] == rooms[key].users[was(key, i)];
        }
      }
    }
    forall k1, k2, i, j |
      k1 in stored && k2 in stored && 0 <= i < |stored[k1].users| && 0 <= j < |stored[k2].users| &&
      stored[k1].users[i].authCode == stored[k2].users[j].authCode
      ensures k1 == k2 && i == j
    {
      assert stored[k1].users[i] == rooms[k1].users[was(k1, i)];
      assert stored[k2].users[j] == rooms[k2].users[was(k2, j)];
    }
  }

  /** The room persistence behind the handler, as in-memory state. */
  class RoomRepository {
    var rooms: map<RoomId, RoomRecord>
    /** The outcome every update reports: None writes the room, Some(message) fails with that message. */
    var updateFailure: Option<string>
    var calls: seq<RoomCall>
    /** Every aggregate a load has handed out, in order. */
    ghost var loaded: seq<Room>

    constructor (rooms: map<RoomId, RoomRecord>, updateFailure: Option<string>)
      ensures this.rooms == rooms && this.updateFailure == updateFailure && calls == [] && loaded == []
    {
      this.rooms := rooms;
      this.updateFailure := updateFailure;
      calls := [];
      loaded := [];
    }

    /** Loads, as a new aggregate, the stored room one of whose members has the given code. */
    method GetByUserCode(code: string) returns (r: Result<Room, ValidationError>)
      modifies this`calls, this`loaded
      ensures calls == old(calls) + [GetByUserCodeCall(code)]
      ensures loaded == old(loaded) + if r.Success? then [r.value] else []
      ensures r.Failure? <==> !HoldsCode(rooms, code)
      ensures r.Failure? ==> r.error == RoomNotFoundError
      ensures r.Success? ==> fresh(r.value) && exists k :: k in rooms && rooms[k] == r.value.State()
      ensures r.Success? ==> FindByCode(r.value.users, code).Some?
      ensures r.Success? && StoreValid(rooms) ==> r.value.State() == LoadByUserCode(rooms, code).value
    {
      calls := calls + [GetByUserCodeCall(code)];
      if k :| k in rooms && FindByCode(rooms[k].users, code).Some? {
        if StoreValid(rooms) {
          LoadByUserCodeUnique(rooms, code, k);
        }
        var room := new Room(rooms[k]);
        loaded := loaded + [room];
        return Success(room);
      }
      return Failure(RoomNotFoundError);
    }

    /** Writes the room's current value under its id, unless updates are set to fail. */
    method Update(room: Room) returns (r: Result<(), string>)
      modifies this`rooms, this`calls
      ensures calls == old(calls) + [UpdateCall(room.State())]
      ensures updateFailure.Some? ==> r == Failure(updateFailure.value) && rooms == old(rooms)
      ensures updateFailure.None? ==> r == Success(()) && rooms == old(rooms)[room.id := room.State()]
    {
      calls := calls + [UpdateCall(room.State())];
      if updateFailure.Some? {
        return Failure(updateFailure.value);
      }
      rooms := rooms[room.id := room.State()];
      return Success(());
    }
  }
}
