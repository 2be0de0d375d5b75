/**
 * `RoleRepository`: giving a user a role by the role's name, and reading the
 * roles a user holds.
 */
module RoleRepository {
  import opened Wrappers
  import Text
  import opened Store

  /** The two `ArgumentException`s `AssignRoleToUserAsync` throws. */
  datatype AssignError = UserNotFound | RoleNotFound

  function Message(e: AssignError): string {
    match e
    case UserNotFound => "User not found"
    case RoleNotFound => "Role not found"
  }

  /** The two errors read differently. */
  lemma MessagesDistinct(e1: AssignError, e2: AssignError)
    ensures Message(e1) == Message(e2) <==> e1 == e2
  {
    if e1 != e2 {
      assert Message(e1)[0] != Message(e2)[0];
    }
  }

  predicate NameMatches(r: Role, name: string) {
    Text.EqualsIgnoreCase(r.name, name)
  }

  /** The position of the first role whose name equals `name` ignoring case (`FirstOrDefaultAsync`). */
  function FindRole(roles: seq<Role>, name: string): (r: Option<nat>)
    ensures r.None? <==> forall i :: 0 <= i < |roles| ==> !NameMatches(roles[i], name)
    ensures r.Some? ==> r.value < |roles| && NameMatches(roles[r.value], name)
    ensures r.Some? ==> forall i :: 0 <= i < r.value ==> !NameMatches(roles[i], name)
  {
    if roles == [] then None
    else if NameMatches(roles[0], name) then Some(0)
    else match FindRole(roles[1..], name)
      case None => None
      case Some(k) => Some(k + 1)
  }

  /** Whether user `u` already has a join row for role `rid`, the check made before adding one. */
  predicate Holds(rows: seq<UserRole>, u: int, rid: int) {
    exists i :: 0 <= i < |rows| && rows[i] == UserRole(u, rid)
  }

  /**
   * `AssignRoleToUserAsync`: the user is looked up first, then the role by
   * name; a join row is added only when the user does not hold that role yet.
   */
  function AssignRole(db: Db, u: int, name: string): (r: Result<Db, AssignError>)
    ensures u !in db.users ==> r == Failure(UserNotFound)
    ensures u in db.users && FindRole(db.roles, name).None? ==> r == Failure(RoleNotFound)
    ensures r.Success? <==> u in db.users && FindRole(db.roles, name).Some?
    ensures r.Success? ==>
      && r.value.users == db.users && r.value.roles == db.roles && r.value.products == db.products
      && RoleIdsOf(r.value, u) == RoleIdsOf(db, u) + {db.roles[FindRole(db.roles, name).value].id}
      && (forall v :: v != u ==> RoleIdsOf(r.value, v) == RoleIdsOf(db, v))
  {
    if u !in db.users then Failure(UserNotFound)
    else match FindRole(db.roles, name)
      case None => Failure(RoleNotFound)
      case Some(k) =>
        var rid := db.roles[k].id;
        if Holds(db.userRoles, u, rid) then
          AlreadyHeld(db, u, rid);
          Success(db)
        else
          AppendRow(db, u, rid);
          Success(db.(userRoles := db.userRoles + [UserRole(u, rid)]))
  }

  lemma AlreadyHeld(db: Db, u: int, rid: int)
    requires Holds(db.userRoles, u, rid)
    ensures rid in RoleIdsOf(db, u)
  {
    var i :| 0 <= i < |db.userRoles| && db.userRoles[i] == UserRole(u, rid);
    assert db.userRoles[i].userId == u;
  }

  lemma AppendRow(db: Db, u: int, rid: int)
    ensures var db' := db.(userRoles := db.userRoles + [UserRole(u, rid)]);
      && RoleIdsOf(db', u) == RoleIdsOf(db, u) + {rid}
      && forall v :: v != u ==> RoleIdsOf(db', v) == RoleIdsOf(db, v)
  {
    var rows := db.userRoles;
    var db' := db.(userRoles := rows + [UserRole(u, rid)]);
    assert db'.userRoles[|rows|].roleId == rid;
    forall v
      ensures RoleIdsOf(db', v) == RoleIdsOf(db, v) + (if v == u then {rid} else {})
    {
      forall x | x in RoleIdsOf(db', v)
        ensures x in RoleIdsOf(db, v) + (if v == u then {rid} else {})
      {
        var i :| 0 <= i < |db'.userRoles| && db'.userRoles[i].userId == v && db'.userRoles[i].roleId == x;
        if i < |rows| { assert db.userRoles[i] == db'.userRoles[i]; }
      }
      forall x | x in RoleIdsOf(db, v)
        ensures x in RoleIdsOf(db', v)
      {
        var i :| 0 <= i < |rows| && rows[i].userId == v && rows[i].roleId == x;
        assert db'.userRoles[i] == rows[i];
      }
    }
  }

  /** A successful assignment keeps the store valid: in particular no (UserId, RoleId) key appears twice. */
  lemma AssignPreservesValid(db: Db, u: int, name: string)
    requires Valid(db)
    requires AssignRole(db, u, name).Success?
    ensures Valid(AssignRole(db, u, name).value)
  {
    var k := FindRole(db.roles, name).value;
    var rid := db.roles[k].id;
    if !Holds(db.userRoles, u, rid) {
      var rows := db.userRoles + [UserRole(u, rid)];
      assert AssignRole(db, u, name).value.userRoles == rows;
      assert IsRoleId(db.roles, rid);
      forall i, j | 0 <= i < j < |rows|
        ensures rows[i] != rows[j]
      {
        if j == |rows| - 1 {
          assert rows[i] == db.userRoles[i];
        }
      }
    }
  }

  /** Assigning a role twice leaves the store as the first assignment did. */
  lemma AssignIdempotent(db: Db, u: int, name: string)
    requires AssignRole(db, u, name).Success?
    ensures AssignRole(AssignRole(db, u, name).value, u, name) == AssignRole(db, u, name)
  {
    var db' := AssignRole(db, u, name).value;
    var k := FindRole(db.roles, name).value;
    var rid := db.roles[k].id;
    if !Holds(db.userRoles, u, rid) {
      assert db'.userRoles[|db.userRoles|] == UserRole(u, rid);
    }
    assert Holds(db'.userRoles, u, rid);
  }

  /** A failed assignment reports which lookup failed, the user's first. */
  lemma AssignFailureReason(db: Db, u: int, name: string)
    requires AssignRole(db, u, name).Failure?
    ensures AssignRole(db, u, name).error == (if u !in db.users then UserNotFound else RoleNotFound)
    ensures Message(AssignRole(db, u, name).error) == (if u !in db.users then "User not found" else "Role not found")
  {
  }

  /**
   * `GetUserRolesAsync`: the role of each of the user's join rows, in row
   * order; nothing for a user that does not exist. (A row whose role is
   * missing cannot occur in a valid store and is skipped.)
   */
  function UserRoles(db: Db, u: int): (rs: seq<Role>)
    ensures u !in db.users ==> rs == []
    ensures forall r :: r in rs ==> r in db.roles && r.id in RoleIdsOf(db, u)
  {
    if u !in db.users then [] else RolesOfRows(db.roles, db.userRoles, u)
  }

  function RolesOfRows(roles: seq<Role>, rows: seq<UserRole>, u: int): (rs: seq<Role>)
    ensures forall r :: r in rs ==> r in roles && exists i :: 0 <= i < |rows| && rows[i] == UserRole(u, r.id)
  {
    if rows == [] then []
    else
      var rest := RolesOfRows(roles, rows[1..], u);
      assert forall r :: r in rest ==> exists i :: 0 <= i < |rows| && rows[i] == UserRole(u, r.id) by {
        forall r | r in rest
          ensures exists i :: 0 <= i < |rows| && rows[i] == UserRole(u, r.id)
        {
          var k :| 0 <= k < |rows[1..]| && rows[1..][k] == UserRole(u, r.id);
          assert rows[k + 1] == UserRole(u, r.id);
        }
      }
      if rows[0].userId == u then
        match RoleById(roles, rows[0].roleId)
        case Some(role) => [role] + rest
        case None => rest
      else rest
  }

  /** Every role a user holds in a valid store is among the roles read back for it. */
  lemma {:induction false} RolesOfRowsComplete(roles: seq<Role>, rows: seq<UserRole>, u: int, i: int)
    requires 0 <= i < |rows| && rows[i].userId == u && IsRoleId(roles, rows[i].roleId)
    ensures exists r :: r in RolesOfRows(roles, rows, u) && r.id == rows[i].roleId
  {
    var rs := RolesOfRows(roles, rows, u);
    if i == 0 {
      var role := RoleById(roles, rows[0].roleId).value;
      assert rs[0] == role;
    } else {
      RolesOfRowsComplete(roles, rows[1..], u, i - 1);
      var r :| r in RolesOfRows(roles, rows[1..], u) && r.id == rows[i].roleId;
      assert r in rs;
    }
  }

  lemma UserRolesComplete(db: Db, u: int)
    requires Valid(db)
    ensures forall rid :: rid in RoleIdsOf(db, u) ==> exists r :: r in UserRoles(db, u) && r.id == rid
  {
    forall rid | rid in RoleIdsOf(db, u)
      ensures exists r :: r in UserRoles(db, u) && r.id == rid
    {
      var i :| 0 <= i < |db.userRoles| && db.userRoles[i].userId == u && db.userRoles[i].roleId == rid;
      RolesOfRowsComplete(db.roles, db.userRoles, u, i);
    }
  }
}
