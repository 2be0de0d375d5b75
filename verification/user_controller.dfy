/**
 * `UserController`: the user actions. The user repository's create, update,
 * delete and lookup are not part of this model, so the actions that use the
 * first three take their effect as a parameter; a lookup by id reads the
 * user table. Role assignment goes through the role repository.
 */
module UserController {
  import opened Wrappers
  import Text
  import opened Store
  import opened Actions
  import RoleRepo = RoleRepository

  /** `UserReadDTO`: it has no password field, so no action ever returns a password. */
  datatype UserRead = UserRead(id: int, firstName: string, lastName: string, email: string, roles: seq<string>)

  datatype UserCreate = UserCreate(firstName: string, lastName: string, email: string, password: string, roles: seq<string>)

  datatype UserUpdate = UserUpdate(id: int, firstName: string, lastName: string, email: string, password: string, roles: seq<string>)

  function Names(rs: seq<Role>): (ns: seq<string>)
    ensures |ns| == |rs| && forall i :: 0 <= i < |rs| ==> ns[i] == rs[i].name
  {
    if rs == [] then [] else [rs[0].name] + Names(rs[1..])
  }

  /**
   * The read DTO of a user, with the names of the roles it holds: only those,
   * and in a valid store all of them.
   */
  function ToRead(db: Db, u: User): (d: UserRead)
    ensures d.id == u.id && d.firstName == u.firstName && d.lastName == u.lastName && d.email == u.email
    ensures forall n :: n in d.roles ==> exists r :: r in db.roles && r.name == n && r.id in RoleIdsOf(db, u.id)
    ensures Valid(db) ==> forall r :: r in db.roles && r.id in RoleIdsOf(db, u.id) ==> r.name in d.roles
  {
    var rs := RoleRepo.UserRoles(db, u.id);
    var ns := Names(rs);
    assert forall n :: n in ns ==> exists r :: r in rs && r.name == n by {
      forall n | n in ns ensures exists r :: r in rs && r.name == n {
        var i :| 0 <= i < |ns| && ns[i] == n;
        assert rs[i] in rs;
      }
    }
    if Valid(db) then
      NamesComplete(db, u.id);
      UserRead(u.id, u.firstName, u.lastName, u.email, ns)
    else
      UserRead(u.id, u.firstName, u.lastName, u.email, ns)
  }

  /** In a valid store the names read for a user cover every role it holds. */
  lemma NamesComplete(db: Db, u: int)
    requires Valid(db)
    ensures forall r :: r in db.roles && r.id in RoleIdsOf(db, u) ==> r.name in Names(RoleRepo.UserRoles(db, u))
  {
    var rs := RoleRepo.UserRoles(db, u);
    RoleRepo.UserRolesComplete(db, u);
    forall r | r in db.roles && r.id in RoleIdsOf(db, u)
      ensures r.name in Names(rs)
    {
      var r' :| r' in rs && r'.id == r.id;
      var i :| 0 <= i < |db.roles| && db.roles[i] == r;
      var j :| 0 <= j < |db.roles| && db.roles[j] == r';
      assert i == j;
      var k :| 0 <= k < |rs| && rs[k] == r';
      assert Names(rs)[k] == r.name;
    }
  }

  /** What a read DTO shows does not depend on the password. */
  lemma ReadHidesPassword(db: Db, u: User, password: string)
    ensures ToRead(db, u.(password := password)) == ToRead(db, u)
  {
  }

  /** `GetAllUsersAsync`. */
  function GetAll(db: Db): (r: ActionResult<map<int, UserRead>>)
    ensures r.Ok? && r.body.Keys == db.users.Keys
    ensures forall k :: k in db.users ==> r.body[k] == ToRead(db, db.users[k])
  {
    Ok(map k | k in db.users :: ToRead(db, db.users[k]))
  }

  /** `GetUserByIdAsync`. */
  function GetById(db: Db, id: int): (r: ActionResult<UserRead>)
    ensures r.NotFound? <==> id !in db.users
    ensures r.Ok? <==> id in db.users
    ensures r.Ok? ==> r.body == ToRead(db, db.users[id])
  {
    if id !in db.users then NotFound else Ok(ToRead(db, db.users[id]))
  }

  /**
   * `Except`: the distinct elements of `xs` that are not in `excluded`, in the
   * order they first appear (ordinal comparison).
   */
  function Except(xs: seq<string>, excluded: set<string>): (r: seq<string>)
    ensures forall x :: x in r <==> x in xs && x !in excluded
    ensures forall i, j :: 0 <= i < j < |r| ==> r[i] != r[j]
  {
    if xs == [] then []
    else if xs[0] in excluded then Except(xs[1..], excluded)
    else [xs[0]] + Except(xs[1..], excluded + {xs[0]})
  }

  /** The ids of the roles the names pick out, each by its first case-insensitive match. */
  function MatchedIds(roles: seq<Role>, names: seq<string>): set<int> {
    set i, k | 0 <= i < |names| && 0 <= k < |roles| && RoleRepo.FindRole(roles, names[i]) == Some(k) :: roles[k].id
  }

  /**
   * The `foreach` over role names calling `AssignRoleToUserAsync`: stops at
   * the first name that throws, keeping the assignments made before it.
   */
  function AssignAll(db: Db, u: int, names: seq<string>): (r: (Db, Option<RoleRepo.AssignError>))
    ensures r.0.users == db.users && r.0.roles == db.roles && r.0.products == db.products
    ensures RoleIdsOf(db, u) <= RoleIdsOf(r.0, u)
    ensures forall v :: v != u ==> RoleIdsOf(r.0, v) == RoleIdsOf(db, v)
    ensures r.1.None? ==> RoleIdsOf(r.0, u) == RoleIdsOf(db, u) + MatchedIds(db.roles, names)
    ensures Valid(db) ==> Valid(r.0)
    decreases |names|
  {
    if names == [] then (db, None)
    else match RoleRepo.AssignRole(db, u, names[0])
      case Failure(e) => (db, Some(e))
      case Success(db1) =>
        assert Valid(db) ==> Valid(db1) by {
          if Valid(db) { RoleRepo.AssignPreservesValid(db, u, names[0]); }
        }
        var r := AssignAll(db1, u, names[1..]);
        MatchedIdsCons(db.roles, names);
        r
  }

  lemma MatchedIdsCons(roles: seq<Role>, names: seq<string>)
    requires names != [] && RoleRepo.FindRole(roles, names[0]).Some?
    ensures MatchedIds(roles, names) == {roles[RoleRepo.FindRole(roles, names[0]).value].id} + MatchedIds(roles, names[1..])
  {
    var k0 := RoleRepo.FindRole(roles, names[0]).value;
    forall x | x in MatchedIds(roles, names)
      ensures x in {roles[k0].id} + MatchedIds(roles, names[1..])
    {
      var i, k :| 0 <= i < |names| && 0 <= k < |roles| && RoleRepo.FindRole(roles, names[i]) == Some(k) && x == roles[k].id;
      if i > 0 {
        assert names[1..][i - 1] == names[i];
      }
    }
    forall x | x in MatchedIds(roles, names[1..])
      ensures x in MatchedIds(roles, names)
    {
      var i, k :| 0 <= i < |names[1..]| && 0 <= k < |roles| && RoleRepo.FindRole(roles, names[1..][i]) == Some(k) && x == roles[k].id;
      assert names[i + 1] == names[1..][i];
    }
    assert 0 < |names| && RoleRepo.FindRole(roles, names[0]) == Some(k0);
  }

  /**
   * `UpdateUserAsync`: validation, the route id against the body's id, the
   * repository update (`updateUser`, giving whether the user existed and the
   * store after it), then the role names in the body that the user does not
   * hold yet are assigned one by one. Roles are never removed.
   */
  function Update(db: Db, id: int, dto: UserUpdate, modelErrors: seq<string>, updateUser: (Db, User) -> (bool, Db)): (r: (ActionResult<()>, Db))
    ensures modelErrors != [] ==> r == (BadRequest(modelErrors), db)
    ensures modelErrors == [] && id != dto.id ==> r == (BadRequest(["ID in URL doesn't match ID in payload."]), db)
    ensures modelErrors == [] && id == dto.id
      && !updateUser(db, User(dto.id, dto.firstName, dto.lastName, dto.email, dto.password)).0
      ==> r == (NotFound, updateUser(db, User(dto.id, dto.firstName, dto.lastName, dto.email, dto.password)).1)
    ensures modelErrors == [] && id == dto.id
      && updateUser(db, User(dto.id, dto.firstName, dto.lastName, dto.email, dto.password)).0
      ==> r.0 == NoContent || r.0.ServerError?
    ensures var u := updateUser(db, User(dto.id, dto.firstName, dto.lastName, dto.email, dto.password));
      var a := AssignAll(u.1, dto.id, RolesToAdd(u.1, dto.id, dto.roles));
      modelErrors == [] && id == dto.id && u.0 ==>
        r == (if a.1.None? then NoContent else ServerError(RoleRepo.Message(a.1.value)), a.0)
  {
    if modelErrors != [] then (BadRequest(modelErrors), db)
    else if id != dto.id then (BadRequest(["ID in URL doesn't match ID in payload."]), db)
    else
      var (updated, db1) := updateUser(db, User(dto.id, dto.firstName, dto.lastName, dto.email, dto.password));
      if !updated then (NotFound, db1)
      else
        var (db2, err) := AssignAll(db1, dto.id, RolesToAdd(db1, dto.id, dto.roles));
        match err
        case Some(e) => (ServerError(RoleRepo.Message(e)), db2)
        case None => (NoContent, db2)
  }

  /** The requested role names, without repeats, that are not among the names of the roles the user holds. */
  function RolesToAdd(db: Db, id: int, requested: seq<string>): (ns: seq<string>)
    ensures forall n :: n in ns <==> n in requested && n !in Names(RoleRepo.UserRoles(db, id))
  {
    var held := Names(RoleRepo.UserRoles(db, id));
    Except(requested, set i | 0 <= i < |held| :: held[i])
  }

  /**
   * After the repository update, the user's roles only grow; when the action
   * succeeds they are the old roles plus those matched by the names not yet held,
   * and a role name that throws makes it a server error with the repository's message.
   */
  lemma UpdateOnlyAddsRoles(db: Db, dto: UserUpdate, updateUser: (Db, User) -> (bool, Db))
    requires updateUser(db, User(dto.id, dto.firstName, dto.lastName, dto.email, dto.password)).0
    ensures var db1 := updateUser(db, User(dto.id, dto.firstName, dto.lastName, dto.email, dto.password)).1;
      var r := Update(db, dto.id, dto, [], updateUser);
      && RoleIdsOf(db1, dto.id) <= RoleIdsOf(r.1, dto.id)
      && (r.0 == NoContent ==> RoleIdsOf(r.1, dto.id) == RoleIdsOf(db1, dto.id) + MatchedIds(db1.roles, RolesToAdd(db1, dto.id, dto.roles)))
      && (r.0.ServerError? || r.0 == NoContent)
      && var a := AssignAll(db1, dto.id, RolesToAdd(db1, dto.id, dto.roles));
      && (r.0 == NoContent <==> a.1.None?)
      && (a.1.Some? ==> r.0 == ServerError(RoleRepo.Message(a.1.value)))
      && r.1 == a.0
  {
  }

  /** `DeleteUserAsync`: `deleteUser` gives whether a user was deleted and the store after it. */
  function Delete(db: Db, id: int, deleteUser: (Db, int) -> (bool, Db)): (r: (ActionResult<()>, Db))
    ensures r.0.NotFound? <==> !deleteUser(db, id).0
    ensures r.0.NotFound? || r.0.NoContent?
    ensures r.1 == deleteUser(db, id).1
  {
    var (deleted, db1) := deleteUser(db, id);
    if !deleted then (NotFound, db1) else (NoContent, db1)
  }

  /** `AssignRoleToUserAsync`: the repository's `ArgumentException` becomes a bad request with its message. */
  function AssignRole(db: Db, id: int, roleName: string): (r: (ActionResult<string>, Db))
    ensures r.0.Ok? || r.0.BadRequest?
    ensures r.0.BadRequest? ==>
      && r.1 == db && RoleRepo.AssignRole(db, id, roleName).Failure?
      && r.0.errors == [RoleRepo.Message(RoleRepo.AssignRole(db, id, roleName).error)]
    ensures r.0.Ok? ==> RoleRepo.AssignRole(db, id, roleName) == Success(r.1)
    ensures r.0.Ok? ==> r.0.body == "Role '" + roleName + "' assigned to user with ID " + Text.IntToString(id) + "."
  {
    match RoleRepo.AssignRole(db, id, roleName)
    case Failure(e) => (BadRequest([RoleRepo.Message(e)]), db)
    case Success(db1) =>
      (Ok("Role '" + roleName + "' assigned to user with ID " + Text.IntToString(id) + "."), db1)
  }

  /** The message of the exception `CreatedAtAction` throws when no route matches the link it builds. */
  const NoRouteMessage: string := "No route matches the supplied values."

  /**
   * `CreateUserAsync` as written: `createUser` stores the user and gives the
   * store and the new id, and the requested roles are assigned. The last step
   * asks `CreatedAtAction` for a link to the action named "GetUserByIdAsync",
   * but ASP.NET Core registers that action as "GetUserById" (the "Async"
   * suffix is trimmed from action names by default), so no route matches and
   * the request ends in a server error after the user and its roles are stored.
   */
  function Create(db: Db, dto: UserCreate, modelErrors: seq<string>, createUser: (Db, User) -> (Db, int)): (r: (ActionResult<UserRead>, Db))
    ensures modelErrors != [] ==> r == (BadRequest(modelErrors), db)
    ensures !r.0.Created?
    ensures var c := createUser(db, User(0, dto.firstName, dto.lastName, dto.email, dto.password));
      var a := AssignAll(c.0, c.1, dto.roles);
      modelErrors == [] ==>
        && r.0.ServerError? && r.1 == a.0
        && (a.1.Some? ==> r.0 == ServerError(RoleRepo.Message(a.1.value)))
        && (a.1.None? && c.1 in c.0.users ==> r.0 == ServerError(NoRouteMessage))
  {
    match CreateIntended(db, dto, modelErrors, createUser)
    case (Created(_), db2) => (ServerError(NoRouteMessage), db2)
    case other => other
  }

  /**
   * `CreateUserAsync` with a link the router can build (the action named as
   * registered): the user is read back and returned with Created.
   */
  function CreateIntended(db: Db, dto: UserCreate, modelErrors: seq<string>, createUser: (Db, User) -> (Db, int)): (r: (ActionResult<UserRead>, Db))
    ensures modelErrors != [] ==> r == (BadRequest(modelErrors), db)
    ensures var c := createUser(db, User(0, dto.firstName, dto.lastName, dto.email, dto.password));
      r.0.Created? ==> c.1 in r.1.users && r.1.users == c.0.users && r.0.body == ToRead(r.1, r.1.users[c.1])
    ensures var c := createUser(db, User(0, dto.firstName, dto.lastName, dto.email, dto.password));
      modelErrors == [] && AssignAll(c.0, c.1, dto.roles).1.Some? ==>
        r == (ServerError(RoleRepo.Message(AssignAll(c.0, c.1, dto.roles).1.value)), AssignAll(c.0, c.1, dto.roles).0)
    ensures var c := createUser(db, User(0, dto.firstName, dto.lastName, dto.email, dto.password));
      var a := AssignAll(c.0, c.1, dto.roles);
      modelErrors == [] && a.1.None? && c.1 in c.0.users ==> r == (Created(ToRead(a.0, a.0.users[c.1])), a.0)
    ensures var c := createUser(db, User(0, dto.firstName, dto.lastName, dto.email, dto.password));
      modelErrors == [] && c.1 !in c.0.users ==> r.0.ServerError?
    ensures r.0.Created? || r.0.BadRequest? || r.0.ServerError?
  {
    if modelErrors != [] then (BadRequest(modelErrors), db)
    else
      var (db1, newId) := createUser(db, User(0, dto.firstName, dto.lastName, dto.email, dto.password));
      var (db2, err) := AssignAll(db1, newId, dto.roles);
      if err.Some? then (ServerError(RoleRepo.Message(err.value)), db2)
      else if newId !in db2.users then (ServerError("Object reference not set to an instance of an object."), db2)
      else (Created(ToRead(db2, db2.users[newId])), db2)
  }

  /**
   * The two differ only where the corrected action answers Created: there
   * the action as written fails to build its link, with the same store.
   */
  lemma CreateAgrees(db: Db, dto: UserCreate, modelErrors: seq<string>, createUser: (Db, User) -> (Db, int))
    ensures Create(db, dto, modelErrors, createUser).1 == CreateIntended(db, dto, modelErrors, createUser).1
    ensures CreateIntended(db, dto, modelErrors, createUser).0.Created? ==>
      Create(db, dto, modelErrors, createUser).0 == ServerError(NoRouteMessage)
    ensures !CreateIntended(db, dto, modelErrors, createUser).0.Created? ==>
      Create(db, dto, modelErrors, createUser) == CreateIntended(db, dto, modelErrors, createUser)
  {
  }

  /**
   * A valid request without roles for a user the repository stores: the
   * action as written answers with a server error although the user is
   * stored, where the corrected one answers Created with the user.
   */
  lemma CreateWithoutRolesFails(db: Db, dto: UserCreate, createUser: (Db, User) -> (Db, int))
    requires dto.roles == []
    requires createUser(db, User(0, dto.firstName, dto.lastName, dto.email, dto.password)).1
      in createUser(db, User(0, dto.firstName, dto.lastName, dto.email, dto.password)).0.users
    ensures var c := createUser(db, User(0, dto.firstName, dto.lastName, dto.email, dto.password));
      && Create(db, dto, [], createUser) == (ServerError(NoRouteMessage), c.0)
      && CreateIntended(db, dto, [], createUser) == (Created(ToRead(c.0, c.0.users[c.1])), c.0)
  {
  }

  /**
   * When every requested role is assigned, the new user holds the roles it
   * held after `createUser` plus exactly those the requested names match,
   * whether or not the response is built; other users are unchanged, and in
   * a valid store the corrected action's DTO names every matched role.
   */
  lemma CreateAssignsRequestedRoles(db: Db, dto: UserCreate, createUser: (Db, User) -> (Db, int))
    ensures var c := createUser(db, User(0, dto.firstName, dto.lastName, dto.email, dto.password));
      var r := Create(db, dto, [], createUser);
      var ri := CreateIntended(db, dto, [], createUser);
      AssignAll(c.0, c.1, dto.roles).1.None? ==>
        && r.1 == ri.1
        && RoleIdsOf(r.1, c.1) == RoleIdsOf(c.0, c.1) + MatchedIds(c.0.roles, dto.roles)
        && (forall v :: v != c.1 ==> RoleIdsOf(r.1, v) == RoleIdsOf(c.0, v))
        && (c.1 in c.0.users <==> ri.0.Created?)
        && (Valid(c.0) && ri.0.Created? ==>
              forall role :: role in r.1.roles && role.id in MatchedIds(c.0.roles, dto.roles) ==> role.name in ri.0.body.roles)
  {
  }
}
