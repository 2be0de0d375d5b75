/**
 * The request pipeline in front of the controllers: authentication runs
 * first (`UseAuthentication`), then authorization (`UseAuthorization`)
 * evaluates the endpoint's policy against the principal the handler built.
 * A principal that is not authenticated and fails the policy is challenged
 * (401 with `WWW-Authenticate: Basic`); an authenticated one that fails it is
 * forbidden (403); an exception from the handler becomes a server error.
 */
module Pipeline {
  import opened Wrappers
  import BasicAuth
  import Policies
  import AuthHeader
  import Text

  /** The controller actions, each with the policy its `[Authorize(Policy = ...)]` names. */
  datatype Endpoint =
    | GetAllProducts | GetProductById | CreateProduct | UpdateProduct | DeleteProduct
    | GetAllUsers | GetUserById | CreateUser | UpdateUser | DeleteUser | AssignRoleToUser

  function PolicyOf(e: Endpoint): (p: string)
    ensures p in Policies.Registry
  {
    match e
    case GetAllProducts => "AdminOrUser"
    case GetProductById => "UserOnly"
    case CreateProduct => "AdminOnly"
    case UpdateProduct => "AdminOrUser"
    case DeleteProduct => "AdminAndUser"
    case GetAllUsers => "AdminOnly"
    case GetUserById => "AdminOrUser"
    case CreateUser => "AdminOnly"
    case UpdateUser => "AdminOnly"
    case DeleteUser => "UserOnly"
    case AssignRoleToUser => "AdminOnly"
  }

  /** Both controllers name the authentication scheme at class level. */
  function SchemeOf(e: Endpoint): string {
    "BasicAuthentication"
  }

  /**
   * Every endpoint asks for the registered default scheme, under which the
   * handler issues identities, and names a policy of the policy table, so
   * evaluating it never throws.
   */
  lemma BindingsRegistered(e: Endpoint)
    ensures SchemeOf(e) in Policies.RegisteredSchemes
    ensures SchemeOf(e) == Policies.DefaultScheme == BasicAuth.SchemeName
    ensures PolicyOf(e) in Policies.Registry
    ensures Policies.Evaluate({}, PolicyOf(e)).Some?
  {
  }

  /** The request goes on to the action with its principal, or a response is written, or the server fails. */
  datatype Decision = Proceed(user: Option<BasicAuth.Identity>) | Refuse(response: BasicAuth.Response) | ServerError

  /** The response before the authentication handler touches it. */
  const Initial: BasicAuth.Response := BasicAuth.Response(200, map[])

  /**
   * The authorization middleware: a principal that is not authenticated has
   * no role claims; a failed policy forbids an authenticated principal and
   * challenges any other.
   */
  function Authorize(outcome: BasicAuth.Outcome, e: Endpoint): (d: Decision)
    ensures outcome.Raised? ==> d == ServerError
    ensures d.Proceed? ==> Policies.Evaluate(if d.user.Some? then d.user.value.roles else {}, PolicyOf(e)) == Some(true)
    ensures d.Refuse? ==> d.response == BasicAuth.Challenge(Initial) || d.response == BasicAuth.Forbid(Initial)
  {
    if outcome.Raised? then ServerError
    else
      var user := if outcome.Authenticated? then Some(outcome.identity) else None;
      var held := if outcome.Authenticated? then outcome.identity.roles else {};
      match Policies.Evaluate(held, PolicyOf(e))
      case None => ServerError
      case Some(true) => Proceed(user)
      case Some(false) =>
        if outcome.Authenticated? then Refuse(BasicAuth.Forbid(Initial)) else Refuse(BasicAuth.Challenge(Initial))
  }

  /** A request as the handler, as written, and then the middleware decide it. */
  function Handle(header: Option<string>, validate: (string, string) -> BasicAuth.StoreReply, e: Endpoint): (d: Decision)
    ensures d.Proceed? ==> BasicAuth.Authenticate(header, validate).Authenticated?
  {
    AnonymousNeverProceeds(BasicAuth.Authenticate(header, validate), e);
    Authorize(BasicAuth.Authenticate(header, validate), e)
  }

  /** The same with the corrected handler, whose malformed credentials are challenged instead of failing the server. */
  function HandleIntended(header: Option<string>, validate: (string, string) -> BasicAuth.StoreReply, e: Endpoint): (d: Decision)
    ensures d != ServerError
  {
    BindingsRegistered(e);
    Authorize(BasicAuth.AuthenticateIntended(header, validate), e)
  }

  /** No endpoint lets a request without an authenticated principal through. */
  lemma AnonymousNeverProceeds(outcome: BasicAuth.Outcome, e: Endpoint)
    ensures Authorize(outcome, e).Proceed? ==> outcome.Authenticated? && Authorize(outcome, e).user == Some(outcome.identity)
  {
    Policies.NoRolesNoAccess(PolicyOf(e));
  }

  /** A request whose authentication failed is challenged, whatever the endpoint. */
  lemma FailedAuthenticationChallenged(outcome: BasicAuth.Outcome, e: Endpoint)
    requires outcome.Failed?
    ensures Authorize(outcome, e).Refuse?
    ensures Authorize(outcome, e).response.status == 401
    ensures Authorize(outcome, e).response.headers == map[BasicAuth.ChallengeHeader := "Basic"]
  {
    Policies.NoRolesNoAccess(PolicyOf(e));
  }

  /** An authenticated request that fails its endpoint's policy is forbidden, without a challenge header. */
  lemma PolicyFailureForbidden(outcome: BasicAuth.Outcome, e: Endpoint)
    requires outcome.Authenticated?
    requires Policies.Evaluate(outcome.identity.roles, PolicyOf(e)) == Some(false)
    ensures Authorize(outcome, e).Refuse?
    ensures Authorize(outcome, e).response.status == 403
    ensures BasicAuth.ChallengeHeader !in Authorize(outcome, e).response.headers
  {
  }

  /** A request reaches the action exactly when it is authenticated and its roles pass the endpoint's policy. */
  lemma ProceedIff(outcome: BasicAuth.Outcome, e: Endpoint)
    ensures Authorize(outcome, e).Proceed? <==>
      outcome.Authenticated? && Policies.Evaluate(outcome.identity.roles, PolicyOf(e)) == Some(true)
  {
    AnonymousNeverProceeds(outcome, e);
  }

  /** A header with a scheme other than "Basic" is challenged, whatever the endpoint. */
  lemma OtherSchemeChallenged(header: string, validate: (string, string) -> BasicAuth.StoreReply, e: Endpoint)
    requires AuthHeader.TryParse(header).Some?
    requires !Text.EqualsIgnoreCase(BasicAuth.BasicScheme, AuthHeader.TryParse(header).value.scheme)
    ensures var d := Handle(Some(header), validate, e);
      d.Refuse? && d.response.status == 401 && d.response.headers == map[BasicAuth.ChallengeHeader := "Basic"]
  {
    FailedAuthenticationChallenged(BasicAuth.Failed(BasicAuth.InvalidScheme), e);
  }

  /** "Bearer x" in particular. */
  lemma BearerChallenged(validate: (string, string) -> BasicAuth.StoreReply, e: Endpoint)
    ensures var d := Handle(Some("Bearer" + " " + "x"), validate, e);
      d.Refuse? && d.response.status == 401 && d.response.headers == map[BasicAuth.ChallengeHeader := "Basic"]
  {
    BasicAuth.BearerFails(validate);
    FailedAuthenticationChallenged(BasicAuth.Failed(BasicAuth.InvalidScheme), e);
  }

  /** When authentication fails, the endpoint asked for makes no difference. */
  lemma FailureIndependentOfEndpoint(header: Option<string>, validate: (string, string) -> BasicAuth.StoreReply, e1: Endpoint, e2: Endpoint)
    requires !BasicAuth.Authenticate(header, validate).Authenticated?
    ensures Handle(header, validate, e1) == Handle(header, validate, e2)
  {
    var o := BasicAuth.Authenticate(header, validate);
    if o.Failed? {
      FailedAuthenticationChallenged(o, e1);
      FailedAuthenticationChallenged(o, e2);
    }
  }
}
