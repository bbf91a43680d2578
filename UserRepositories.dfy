/** A read-only user repository over an in-memory table of users, in table order. */
module UserRepositories {
  import opened Validation
  import opened Users

  /** One query made on the repository. */
  datatype UserQuery = GetByCodeQuery(code: string) | GetByIdQuery(id: UserId) | GetManyByRoomIdQuery(roomId: RoomId)

  const UserCodeNotFoundError := ValidationError(NotFound, [ValidationFailure("userCode", "User with such userCode was not found.")])
  const UserIdNotFoundError := ValidationError(NotFound, [ValidationFailure("id", "User with such id was not found.")])

  /** The user with the given authentication code, or NotFound. */
  function GetByCode(table: seq<User>, code: string): (r: Result<User, ValidationError>)
    ensures r.Success? ==> r.value in table && r.value.authCode == code
    ensures r.Failure? <==> forall u :: u in table ==> u.authCode != code
    ensures r.Failure? ==> r.error == UserCodeNotFoundError
  {
    match FindByCode(table, code)
    case None => Failure(UserCodeNotFoundError)
    case Some(i) => Success(table[i])
  }

  /** The user with the given id, or NotFound. */
  function GetById(table: seq<User>, id: UserId): (r: Result<User, ValidationError>)
    ensures r.Success? ==> r.value in table && r.value.id == id
    ensures r.Failure? <==> !HasId(table, id)
    ensures r.Failure? ==> r.error == UserIdNotFoundError
  {
    match FindById(table, id)
    case None => Failure(UserIdNotFoundError)
    case Some(i) => Success(table[i])
  }

  /** The members of a room, in table order. */
  function UsersInRoom(table: seq<User>, roomId: RoomId): (r: seq<User>)
    ensures forall u :: u in r <==> u in table && u.roomId == roomId
    ensures |r| <= |table|
  {
    if table == [] then []
    else if table[0].roomId == roomId then [table[0]] + UsersInRoom(table[1..], roomId)
    else UsersInRoom(table[1..], roomId)
  }

  /** Every user of the room; the in-memory table cannot fail this query. */
  function GetManyByRoomId(table: seq<User>, roomId: RoomId): (r: Result<seq<User>, ValidationError>)
    ensures r.Success?
  {
    Success(UsersInRoom(table, roomId))
  }

  /** In a table with unique ids, looking up a member's id gives that member. */
  lemma GetByIdOfMember(table: seq<User>, u: User)
    requires UniqueIds(table) && u in table
    ensures GetById(table, u.id) == Success(u)
  {
    var i :| 0 <= i < |table| && table[i] == u;
    var j := FindById(table, u.id).value;
    assert table[j].id == table[i].id;
  }
}
