/**
 * The authorization policies registered at start-up: three that require one
 * of a set of roles (`RequireRole`) and one that requires two roles at once
 * (`RequireAssertion` over `IsInRole`). A principal's roles are its Role
 * claims, compared by exact (case-sensitive) string equality.
 */
module Policies {
  import opened Wrappers

  /** `RequireRole(r1, ..., rn)` holds for any one of the roles; the assertion needs all of them. */
  datatype Requirement = AnyOf(anyRoles: set<string>) | AllOf(allRoles: set<string>)

  predicate Satisfies(held: set<string>, req: Requirement) {
    match req
    case AnyOf(rs) => exists r :: r in rs && r in held
    case AllOf(rs) => rs <= held
  }

  const Admin: string := "Admin"
  const User: string := "User"

  /** The policy table, by name. */
  const Registry: map<string, Requirement> := map[
    "AdminOnly" := AnyOf({Admin}),
    "UserOnly" := AnyOf({User}),
    "AdminOrUser" := AnyOf({Admin, User}),
    "AdminAndUser" := AllOf({Admin, User})
  ]

  /**
   * Whether roles `held` pass the policy called `name`; `None` when no policy
   * has that name (the framework throws when an endpoint names one).
   */
  function Evaluate(held: set<string>, name: string): (r: Option<bool>)
    ensures r.Some? <==> name in {"AdminOnly", "UserOnly", "AdminOrUser", "AdminAndUser"}
    ensures name == "AdminOnly" ==> r == Some(Admin in held)
    ensures name == "UserOnly" ==> r == Some(User in held)
    ensures name == "AdminOrUser" ==> r == Some(Admin in held || User in held)
    ensures name == "AdminAndUser" ==> r == Some(Admin in held && User in held)
  {
    if name in Registry then Some(Satisfies(held, Registry[name])) else None
  }

  /** A principal holding both roles passes each single-role policy, and a holder of Admin passes AdminOrUser. */
  lemma PolicyImplications(held: set<string>)
    ensures Evaluate(held, "AdminAndUser") == Some(true) ==>
      Evaluate(held, "AdminOnly") == Some(true) && Evaluate(held, "UserOnly") == Some(true)
    ensures Evaluate(held, "AdminOnly") == Some(true) ==> Evaluate(held, "AdminOrUser") == Some(true)
    ensures Evaluate(held, "UserOnly") == Some(true) ==> Evaluate(held, "AdminOrUser") == Some(true)
  {
  }

  /** With no roles every registered policy refuses; so does every requirement that names a role. */
  lemma NoRolesNoAccess(name: string)
    requires name in Registry
    ensures Evaluate({}, name) == Some(false)
  {
  }

  /** Holding more roles never loses access: every registered policy is monotone in the role set. */
  lemma {:induction false} Monotone(held: set<string>, more: set<string>, req: Requirement)
    requires held <= more
    requires Satisfies(held, req)
    ensures Satisfies(more, req)
  {
    match req
    case AnyOf(rs) =>
      var r :| r in rs && r in held;
      assert r in more;
    case AllOf(rs) =>
  }

  /** Role names are compared exactly: "admin" is not "Admin". */
  lemma RolesAreCaseSensitive()
    ensures Evaluate({"admin", "user"}, "AdminOrUser") == Some(false)
  {
    assert Admin != "admin" && Admin != "user" && User != "admin" && User != "user";
  }

  /** The scheme registered as the default (`AddAuthentication`) and as the only scheme (`AddScheme`). */
  const DefaultScheme: string := "BasicAuthentication"
  const RegisteredSchemes: set<string> := {"BasicAuthentication"}
}
