/**
 * The database behind the repositories (`ApplicationDbContext`): users and
 * products by primary key, the roles in table order, and the `UserRole` join
 * rows in insertion order. The join table's primary key is the pair
 * (UserId, RoleId), so a valid store never holds the same pair twice.
 */
module Store {
  import opened Wrappers

  datatype User = User(id: int, firstName: string, lastName: string, email: string, password: string)

  datatype Role = Role(id: int, name: string, description: string)

  datatype UserRole = UserRole(userId: int, roleId: int)

  /** A product; the price is a whole number of cents (the column is `decimal(18, 2)`). */
  datatype Product = Product(id: int, name: string, description: Option<string>, price: int, quantity: int)

  datatype Db = Db(users: map<int, User>, roles: seq<Role>, userRoles: seq<UserRole>, products: map<int, Product>)

  /** No two rows carry the same (UserId, RoleId) key. */
  predicate KeysDistinct(rows: seq<UserRole>) {
    forall i, j :: 0 <= i < j < |rows| ==> rows[i] != rows[j]
  }

  predicate RoleIdsDistinct(roles: seq<Role>) {
    forall i, j :: 0 <= i < j < |roles| ==> roles[i].id != roles[j].id
  }

  predicate IsRoleId(roles: seq<Role>, id: int) {
    exists i :: 0 <= i < |roles| && roles[i].id == id
  }

  /** Keys match the entities they index, keys are unique, and every join row points at a user and a role. */
  predicate Valid(db: Db) {
    && (forall k :: k in db.users ==> db.users[k].id == k)
    && (forall k :: k in db.products ==> db.products[k].id == k)
    && RoleIdsDistinct(db.roles)
    && KeysDistinct(db.userRoles)
    && (forall i :: 0 <= i < |db.userRoles| ==>
          db.userRoles[i].userId in db.users && IsRoleId(db.roles, db.userRoles[i].roleId))
  }

  /** The ids of the roles user `u` holds. */
  function RoleIdsOf(db: Db, u: int): set<int> {
    set i | 0 <= i < |db.userRoles| && db.userRoles[i].userId == u :: db.userRoles[i].roleId
  }

  /**
   * In a valid store every role a user holds exists in the role table, and
   * only existing users hold roles: the join table's foreign keys.
   */
  lemma ValidRowsResolve(db: Db, u: int, rid: int)
    requires Valid(db) && rid in RoleIdsOf(db, u)
    ensures u in db.users && IsRoleId(db.roles, rid)
  {
    var i :| 0 <= i < |db.userRoles| && db.userRoles[i].userId == u && db.userRoles[i].roleId == rid;
  }

  /** The role with id `id`, if the table has one. */
  function RoleById(roles: seq<Role>, id: int): (r: Option<Role>)
    ensures r.None? <==> !IsRoleId(roles, id)
    ensures r.Some? ==> r.value.id == id && r.value in roles
  {
    if roles == [] then None
    else if roles[0].id == id then Some(roles[0])
    else
      var r := RoleById(roles[1..], id);
      assert r.None? ==> forall i :: 1 <= i < |roles| ==> roles[i].id == roles[1..][i - 1].id != id;
      assert r.Some? ==> IsRoleId(roles, id) by {
        if r.Some? {
          var k :| 0 <= k < |roles[1..]| && roles[1..][k].id == id;
          assert roles[k + 1].id == id;
        }
      }
      r
  }

  /** The names of the roles user `u` holds. */
  function RoleNamesOf(db: Db, u: int): set<string> {
    set i | 0 <= i < |db.roles| && db.roles[i].id in RoleIdsOf(db, u) :: db.roles[i].name
  }
}
