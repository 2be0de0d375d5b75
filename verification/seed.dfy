/**
 * The data the database is seeded with: four users sharing one password,
 * the roles Admin and User, the users' role rows, and two products.
 */
module Seed {
  import opened Wrappers
  import opened Store
  import RoleRepo = RoleRepository
  import UserController
  import Policies
  import BasicAuth

  const SeedPassword: string := "password123"

  const John: User := User(1, "John", "Doe", "john.doe@example.com", SeedPassword)
  const Jane: User := User(2, "Jane", "Smith", "jane.smith@example.com", SeedPassword)
  const Hina: User := User(3, "Hina", "Sharma", "hina.sharma@example.com", SeedPassword)
  const Sara: User := User(4, "Sara", "Taylor", "sara.taylor@example.com", SeedPassword)

  const AdminRole: Role := Role(1, "Admin", "Admin Role Description")
  const UserRoleEntry: Role := Role(2, "User", "User Role Description")

  const SeedRoles: seq<Role> := [AdminRole, UserRoleEntry]
  const SeedRows: seq<UserRole> := [UserRole(1, 1), UserRole(2, 2), UserRole(3, 1), UserRole(3, 2)]

  const SeedDb: Db := Db(
    map[1 := John, 2 := Jane, 3 := Hina, 4 := Sara],
    SeedRoles,
    SeedRows,
    map[1 := Product(1, "Laptop", Some("A high-performance laptop."), 150000, 100),
        2 := Product(2, "Smartphone", Some("A latest model smartphone."), 80000, 50)])

  lemma SeedUserIds()
    ensures SeedDb.users.Keys == {1, 2, 3, 4}
  {
  }

  /** The seed satisfies the store's keys and foreign keys. */
  lemma SeedValid()
    ensures Valid(SeedDb)
  {
    assert IsRoleId(SeedDb.roles, 1) by { assert SeedDb.roles[0].id == 1; }
    assert IsRoleId(SeedDb.roles, 2) by { assert SeedDb.roles[1].id == 2; }
  }

  /** John holds Admin, Jane holds User, Hina holds both and Sara holds none. */
  lemma SeedRoleIds()
    ensures RoleIdsOf(SeedDb, 1) == {1}
    ensures RoleIdsOf(SeedDb, 2) == {2}
    ensures RoleIdsOf(SeedDb, 3) == {1, 2}
    ensures RoleIdsOf(SeedDb, 4) == {}
  {
    var rows := SeedDb.userRoles;
    assert rows[0] == UserRole(1, 1) && rows[1] == UserRole(2, 2) && rows[2] == UserRole(3, 1) && rows[3] == UserRole(3, 2);
  }

  /** The user record the store hands the handler for a seed user: its role names in row order. */
  function Record(u: User): BasicAuth.UserRecord {
    BasicAuth.UserRecord(u.id, u.email, UserController.Names(RoleRepo.UserRoles(SeedDb, u.id)))
  }

  /** The roles read back from the join rows for each seed user, row by row. */
  lemma JohnRows()
    ensures RoleRepo.RolesOfRows(SeedRoles, SeedRows, 1) == [AdminRole]
  {
    assert RoleById(SeedRoles, 1) == Some(AdminRole);
    var t1 := SeedRows[1..];
    var t2 := t1[1..];
    var t3 := t2[1..];
    assert t3[1..] == [];
    assert RoleRepo.RolesOfRows(SeedRoles, t3, 1) == [];
    assert RoleRepo.RolesOfRows(SeedRoles, t2, 1) == [];
    assert RoleRepo.RolesOfRows(SeedRoles, t1, 1) == [];
  }

  lemma JaneRows()
    ensures RoleRepo.RolesOfRows(SeedRoles, SeedRows, 2) == [UserRoleEntry]
  {
    assert RoleById(SeedRoles, 2) == Some(UserRoleEntry);
    var t1 := SeedRows[1..];
    var t2 := t1[1..];
    var t3 := t2[1..];
    assert t3[1..] == [];
    assert RoleRepo.RolesOfRows(SeedRoles, t3, 2) == [];
    assert RoleRepo.RolesOfRows(SeedRoles, t2, 2) == [];
    assert RoleRepo.RolesOfRows(SeedRoles, t1, 2) == [UserRoleEntry];
  }

  lemma HinaRows()
    ensures RoleRepo.RolesOfRows(SeedRoles, SeedRows, 3) == [AdminRole, UserRoleEntry]
  {
    assert RoleById(SeedRoles, 1) == Some(AdminRole);
    assert RoleById(SeedRoles, 2) == Some(UserRoleEntry);
    var t1 := SeedRows[1..];
    var t2 := t1[1..];
    var t3 := t2[1..];
    assert t3[1..] == [];
    assert RoleRepo.RolesOfRows(SeedRoles, t3, 3) == [UserRoleEntry];
    assert RoleRepo.RolesOfRows(SeedRoles, t2, 3) == [AdminRole, UserRoleEntry];
    assert RoleRepo.RolesOfRows(SeedRoles, t1, 3) == [AdminRole, UserRoleEntry];
  }

  lemma SaraRows()
    ensures RoleRepo.RolesOfRows(SeedRoles, SeedRows, 4) == []
  {
    var t1 := SeedRows[1..];
    var t2 := t1[1..];
    var t3 := t2[1..];
    assert t3[1..] == [];
    assert RoleRepo.RolesOfRows(SeedRoles, t3, 4) == [];
    assert RoleRepo.RolesOfRows(SeedRoles, t2, 4) == [];
    assert RoleRepo.RolesOfRows(SeedRoles, t1, 4) == [];
  }

  /** The role names in the record the store hands the handler for each seed user. */
  lemma JohnRecord() ensures Record(John).roleNames == ["Admin"] { SeedUserIds(); JohnRows(); }
  lemma JaneRecord() ensures Record(Jane).roleNames == ["User"] { SeedUserIds(); JaneRows(); }
  lemma HinaRecord() ensures Record(Hina).roleNames == ["Admin", "User"] { SeedUserIds(); HinaRows(); }
  lemma SaraRecord() ensures Record(Sara).roleNames == [] { SeedUserIds(); SaraRows(); }

  /** The role claims of each seed user's identity. */
  lemma JohnIdentity() ensures BasicAuth.BuildIdentity(Record(John)).roles == {"Admin"} { JohnRecord(); }
  lemma JaneIdentity() ensures BasicAuth.BuildIdentity(Record(Jane)).roles == {"User"} { JaneRecord(); }
  lemma HinaIdentity() ensures BasicAuth.BuildIdentity(Record(Hina)).roles == {"Admin", "User"} { HinaRecord(); }
  lemma SaraIdentity() ensures BasicAuth.BuildIdentity(Record(Sara)).roles == {} { SaraRecord(); }

  /** The role claims of seed user `u`'s identity. */
  function Held(u: int): set<string>
    requires u in SeedDb.users
  {
    BasicAuth.BuildIdentity(Record(SeedDb.users[u])).roles
  }

  lemma HeldByJohn() ensures Held(1) == {"Admin"} { JohnIdentity(); assert SeedDb.users[1] == John; }
  lemma HeldByJane() ensures Held(2) == {"User"} { JaneIdentity(); assert SeedDb.users[2] == Jane; }
  lemma HeldByHina() ensures Held(3) == {"Admin", "User"} { HinaIdentity(); assert SeedDb.users[3] == Hina; }
  lemma HeldBySara() ensures Held(4) == {} { SaraIdentity(); assert SeedDb.users[4] == Sara; }

  /** On the seed, AdminOnly passes John and Hina. */
  lemma AdminOnlyOnSeed()
    ensures forall u :: u in SeedDb.users ==> (u in {1, 3} <==> Policies.Evaluate(Held(u), "AdminOnly") == Some(true))
  {
    forall u | u in SeedDb.users
      ensures u in {1, 3} <==> Policies.Evaluate(Held(u), "AdminOnly") == Some(true)
    {
      assert u in {1, 2, 3, 4};
      if u == 1 { HeldByJohn(); } else if u == 2 { HeldByJane(); } else if u == 3 { HeldByHina(); } else { HeldBySara(); }
    }
  }

  /** On the seed, UserOnly passes Jane and Hina. */
  lemma UserOnlyOnSeed()
    ensures forall u :: u in SeedDb.users ==> (u in {2, 3} <==> Policies.Evaluate(Held(u), "UserOnly") == Some(true))
  {
    forall u | u in SeedDb.users
      ensures u in {2, 3} <==> Policies.Evaluate(Held(u), "UserOnly") == Some(true)
    {
      assert u in {1, 2, 3, 4};
      if u == 1 { HeldByJohn(); } else if u == 2 { HeldByJane(); } else if u == 3 { HeldByHina(); } else { HeldBySara(); }
    }
  }

  /** On the seed, AdminOrUser passes John, Jane and Hina. */
  lemma AdminOrUserOnSeed()
    ensures forall u :: u in SeedDb.users ==> (u in {1, 2, 3} <==> Policies.Evaluate(Held(u), "AdminOrUser") == Some(true))
  {
    forall u | u in SeedDb.users
      ensures u in {1, 2, 3} <==> Policies.Evaluate(Held(u), "AdminOrUser") == Some(true)
    {
      assert u in {1, 2, 3, 4};
      if u == 1 { HeldByJohn(); } else if u == 2 { HeldByJane(); } else if u == 3 { HeldByHina(); } else { HeldBySara(); }
    }
  }

  /** On the seed, AdminAndUser passes Hina alone. */
  lemma AdminAndUserOnSeed()
    ensures forall u :: u in SeedDb.users ==> (u in {3} <==> Policies.Evaluate(Held(u), "AdminAndUser") == Some(true))
  {
    forall u | u in SeedDb.users
      ensures u in {3} <==> Policies.Evaluate(Held(u), "AdminAndUser") == Some(true)
    {
      assert u in {1, 2, 3, 4};
      if u == 1 { HeldByJohn(); } else if u == 2 { HeldByJane(); } else if u == 3 { HeldByHina(); } else { HeldBySara(); }
    }
  }

  /** Sara, who holds no role, passes no policy. */
  lemma SaraPassesNothing(name: string)
    requires name in Policies.Registry
    ensures Policies.Evaluate(Held(4), name) == Some(false)
  {
    HeldBySara();
    Policies.NoRolesNoAccess(name);
  }
}
