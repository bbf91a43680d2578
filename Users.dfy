/** The User entity and the searches over a room's (or a table's) list of users. */
module Users {
  import opened Validation

  type UserId = nat
  type RoomId = nat

  /** A room participant; the wish list and the other profile fields are not modelled. */
  datatype User = User(id: UserId, roomId: RoomId, authCode: string, isAdmin: bool)

  /** No two users in the list share an id. */
  predicate UniqueIds(users: seq<User>) {
    forall i, j :: 0 <= i < j < |users| ==> users[i].id != users[j].id
  }

  /** The list holds a user with this id. */
  predicate HasId(users: seq<User>, id: UserId) {
    exists i :: 0 <= i < |users| && users[i].id == id
  }

  /** Index of the first user with the given id, as a first-match lookup does. */
  function FindById(users: seq<User>, id: UserId): (r: Option<nat>)
    ensures r.Some? ==> r.value < |users| && users[r.value].id == id
    ensures r.Some? ==> forall j :: 0 <= j < r.value ==> users[j].id != id
    ensures r.None? <==> !HasId(users, id)
  {
    if users == [] then None
    else if users[0].id == id then Some(0)
    else match FindById(users[1..], id)
      case None =>
        assert forall j :: 1 <= j < |users| ==> users[j] == users[1..][j - 1];
        None
      case Some(k) => Some(k + 1)
  }

  /** Index of the first user with the given authentication code. */
  function FindByCode(users: seq<User>, code: string): (r: Option<nat>)
    ensures r.Some? ==> r.value < |users| && users[r.value].authCode == code
    ensures r.Some? ==> forall j :: 0 <= j < r.value ==> users[j].authCode != code
    ensures r.None? <==> forall j :: 0 <= j < |users| ==> users[j].authCode != code
  {
    if users == [] then None
    else if users[0].authCode == code then Some(0)
    else match FindByCode(users[1..], code)
      case None =>
        assert forall j :: 1 <= j < |users| ==> users[j] == users[1..][j - 1];
        None
      case Some(k) => Some(k + 1)
  }

  /** The user a list resolves an authentication code to. */
  function UserByCode(users: seq<User>, code: string): (u: User)
    requires FindByCode(users, code).Some?
    ensures u in users && u.authCode == code
  {
    users[FindByCode(users, code).value]
  }

  /** The list with the element at index t taken out, order kept. */
  function RemoveAt(users: seq<User>, t: nat): (r: seq<User>)
    requires t < |users|
    ensures |r| == |users| - 1
    ensures multiset(r) + multiset{users[t]} == multiset(users)
  {
    assert users == users[..t] + [users[t]] + users[t + 1..];
    users[..t] + users[t + 1..]
  }

  /** Position by position, RemoveAt shifts the tail down by one. */
  lemma RemoveAtIndex(users: seq<User>, t: nat)
    requires t < |users|
    ensures |RemoveAt(users, t)| == |users| - 1
    ensures forall k :: 0 <= k < |users| - 1 ==>
      RemoveAt(users, t)[k] == users[if k < t then k else k + 1]
  {
  }

  /** With unique ids, removing the user at t removes that id and keeps every other user. */
  lemma {:induction false} RemoveAtMembers(users: seq<User>, t: nat)
    requires t < |users| && UniqueIds(users)
    ensures !HasId(RemoveAt(users, t), users[t].id)
    ensures forall u :: u in users && u.id != users[t].id ==> u in RemoveAt(users, t)
    ensures forall u :: u in RemoveAt(users, t) ==> u in users
    ensures UniqueIds(RemoveAt(users, t))
  {
    var rest := RemoveAt(users, t);
    RemoveAtIndex(users, t);
    forall u | u in users && u.id != users[t].id ensures u in rest {
      var j :| 0 <= j < |users| && users[j] == u;
      assert j != t;
      assert rest[if j < t then j else j - 1] == u;
    }
  }
}
