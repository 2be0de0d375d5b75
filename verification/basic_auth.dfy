/**
 * `BasicAuthenticationHandler`: the Basic scheme of section 2 of RFC 7617.
 * The handler reads the `Authorization` header, accepts the scheme "Basic" in
 * any letter case, decodes the parameter as base64 and then UTF-8, splits the
 * text at its first ':' into e-mail and password, asks the user store, and
 * turns the user it finds into an identity carrying one role claim per role.
 */
module BasicAuth {
  import opened Wrappers
  import Text
  import Utf8
  import Base64
  import AuthHeader

  /** The name the handler is registered under; every identity it issues carries it. */
  const SchemeName: string := "BasicAuthentication"

  /** The scheme token a client must send, compared ignoring case. */
  const BasicScheme: string := "Basic"

  /** A user as the store hands it back: the id, the e-mail and the names of the roles it holds. */
  datatype UserRecord = UserRecord(id: int, email: string, roleNames: seq<string>)

  /**
   * What `ValidateUserAsync` does with an e-mail and a password: finds no user,
   * finds one, or throws (the store itself, or reading the user's roles).
   */
  datatype StoreReply = NoMatch | Found(user: UserRecord) | Fault

  /** The claims identity: NameIdentifier, Name, the Role claims, and the scheme it was issued by. */
  datatype Identity = Identity(nameIdentifier: int, name: string, roles: set<string>, authenticationType: string)

  datatype Credentials = Credentials(email: string, password: string)

  /** The reasons `AuthenticateResult.Fail` is given. */
  datatype Failure =
    | MissingHeader
    | InvalidHeader
    | InvalidScheme
    | InvalidCredentials
    | InvalidUserOrPassword
    | AuthenticationError

  function Message(f: Failure): string {
    match f
    case MissingHeader => "Missing Authorization Header"
    case InvalidHeader => "Invalid Authorization Header"
    case InvalidScheme => "Invalid Authorization Scheme"
    case InvalidCredentials => "Invalid Basic Authentication Credentials"
    case InvalidUserOrPassword => "Invalid Username or Password"
    case AuthenticationError => "Error occurred during authentication"
  }

  /** Each reason has its own message, so a client can tell from the message alone why it failed. */
  lemma MessagesDistinct(f: Failure, g: Failure)
    ensures Message(f) == Message(g) <==> f == g
  {
    if f != g {
      var m, n := Message(f), Message(g);
      assert |m| != |n| || m[0] != n[0] || m[8] != n[8] || m[22] != n[22];
    }
  }

  /**
   * Exceptions that leave the handler instead of becoming a failure:
   * `Convert.FromBase64String` throws on a header without a parameter
   * (`ArgumentNullException`) and on text that is not base64 (`FormatException`).
   */
  datatype Escape = NullParameter | MalformedBase64

  datatype Outcome = Authenticated(identity: Identity) | Failed(reason: Failure) | Raised(error: Escape)

  /** A split into at most two parts: the text before the first separator and everything after it. */
  function SplitFirst(text: string, sep: char): (r: Option<(string, string)>)
    ensures r.None? <==> sep !in text
    ensures r.Some? ==> text == r.value.0 + [sep] + r.value.1 && sep !in r.value.0
  {
    if text == [] then None
    else if text[0] == sep then Some(([], text[1..]))
    else match SplitFirst(text[1..], sep)
      case None => None
      case Some((a, b)) => Some(([text[0]] + a, b))
  }

  /** A text joined at a separator that does not occur in its first part splits back into the two parts. */
  lemma {:induction false} SplitFirstJoin(a: string, b: string, sep: char)
    requires sep !in a
    ensures SplitFirst(a + [sep] + b, sep) == Some((a, b))
  {
    var t := a + [sep] + b;
    if a == [] {
      assert t[0] == sep && t[1..] == b;
    } else {
      assert t[0] == a[0] != sep;
      assert t[1..] == a[1..] + [sep] + b;
      SplitFirstJoin(a[1..], b, sep);
      assert [a[0]] + a[1..] == a;
    }
  }

  /**
   * Everything the handler does before it consults the store (lines 38 to 74).
   * `Failure(o)` carries the outcome the handler ends with; it is never `Authenticated`.
   */
  function ReadCredentials(header: Option<string>): (r: Result<Credentials, Outcome>)
    ensures header.None? ==> r == Failure(Failed(MissingHeader))
    ensures header.Some? && AuthHeader.TryParse(header.value).None? ==> r == Failure(Failed(InvalidHeader))
    ensures header.Some? && AuthHeader.TryParse(header.value).Some?
      && !Text.EqualsIgnoreCase(BasicScheme, AuthHeader.TryParse(header.value).value.scheme)
      ==> r == Failure(Failed(InvalidScheme))
    ensures r.Failure? ==> !r.error.Authenticated?
    ensures r.Failure? && r.error.Failed? ==> r.error.reason in {MissingHeader, InvalidHeader, InvalidScheme, InvalidCredentials}
    ensures header.Some? && AuthHeader.TryParse(header.value).Some?
      && Text.EqualsIgnoreCase(BasicScheme, AuthHeader.TryParse(header.value).value.scheme)
      ==> var p := AuthHeader.TryParse(header.value).value.parameter;
        && (p.None? ==> r == Failure(Raised(NullParameter)))
        && (p.Some? && Base64.Decode(p.value).None? ==> r == Failure(Raised(MalformedBase64)))
        && (p.Some? && Base64.Decode(p.value).Some? ==>
              (r.Success? <==> ':' in Utf8.Decode(Base64.Decode(p.value).value)))
    ensures r.Failure? && r.error.Raised? ==>
      && header.Some?
      && AuthHeader.TryParse(header.value).Some?
      && Text.EqualsIgnoreCase(BasicScheme, AuthHeader.TryParse(header.value).value.scheme)
      && (r.error == Raised(NullParameter) <==> AuthHeader.TryParse(header.value).value.parameter.None?)
      && (r.error == Raised(MalformedBase64) ==>
            && AuthHeader.TryParse(header.value).value.parameter.Some?
            && Base64.Decode(AuthHeader.TryParse(header.value).value.parameter.value).None?)
    ensures r == Failure(Failed(InvalidCredentials)) ==>
      && header.Some?
      && AuthHeader.TryParse(header.value).Some?
      && AuthHeader.TryParse(header.value).value.parameter.Some?
      && Base64.Decode(AuthHeader.TryParse(header.value).value.parameter.value).Some?
      && ':' !in Utf8.Decode(Base64.Decode(AuthHeader.TryParse(header.value).value.parameter.value).value)
    ensures r.Success? ==>
      && header.Some?
      && AuthHeader.TryParse(header.value).Some?
      && Text.EqualsIgnoreCase(BasicScheme, AuthHeader.TryParse(header.value).value.scheme)
      && AuthHeader.TryParse(header.value).value.parameter.Some?
      && Base64.Decode(AuthHeader.TryParse(header.value).value.parameter.value).Some?
      && Utf8.Decode(Base64.Decode(AuthHeader.TryParse(header.value).value.parameter.value).value)
         == r.value.email + ":" + r.value.password
      && ':' !in r.value.email
  {
    if header.None? then Failure(Failed(MissingHeader))
    else match AuthHeader.TryParse(header.value)
      case None => Failure(Failed(InvalidHeader))
      case Some(h) =>
        if !Text.EqualsIgnoreCase(BasicScheme, h.scheme) then Failure(Failed(InvalidScheme))
        else if h.parameter.None? then Failure(Raised(NullParameter))
        else match Base64.Decode(h.parameter.value)
          case None => Failure(Raised(MalformedBase64))
          case Some(bytes) =>
            match SplitFirst(Utf8.Decode(bytes), ':')
            case None => Failure(Failed(InvalidCredentials))
            case Some((email, password)) => Success(Credentials(email, password))
  }

  /** The identity built from a user the store found (lines 89 to 114). */
  function BuildIdentity(u: UserRecord): (id: Identity)
    ensures id.nameIdentifier == u.id && id.name == u.email
    ensures forall r :: r in id.roles <==> r in u.roleNames
    ensures id.authenticationType == SchemeName
  {
    Identity(u.id, u.email, set i | 0 <= i < |u.roleNames| :: u.roleNames[i], SchemeName)
  }

  /** What the store's reply makes of credentials that were read (the `try` at lines 76 to 124). */
  function Validate(c: Credentials, validate: (string, string) -> StoreReply): (r: Outcome)
    ensures r.Authenticated? <==> validate(c.email, c.password).Found?
    ensures r.Authenticated? ==> r.identity == BuildIdentity(validate(c.email, c.password).user)
    ensures r == Failed(InvalidUserOrPassword) <==> validate(c.email, c.password).NoMatch?
    ensures r == Failed(AuthenticationError) <==> validate(c.email, c.password).Fault?
    ensures r.Raised? == false
  {
    match validate(c.email, c.password)
    case NoMatch => Failed(InvalidUserOrPassword)
    case Found(u) => Authenticated(BuildIdentity(u))
    case Fault => Failed(AuthenticationError)
  }

  /** `HandleAuthenticateAsync` as written: the store is the `validate` parameter. */
  function Authenticate(header: Option<string>, validate: (string, string) -> StoreReply): (r: Outcome)
    ensures r.Authenticated? ==>
      && ReadCredentials(header).Success?
      && var c := ReadCredentials(header).value;
      && validate(c.email, c.password).Found?
      && r.identity == BuildIdentity(validate(c.email, c.password).user)
    ensures ReadCredentials(header).Success? ==> r == Validate(ReadCredentials(header).value, validate)
    ensures ReadCredentials(header).Failure? ==> r == ReadCredentials(header).error
  {
    match ReadCredentials(header)
    case Failure(o) => o
    case Success(c) => Validate(c, validate)
  }

  /**
   * The handler with the decoding moved inside the `try`: a parameter that is
   * missing or not base64 is caught there (lines 119 to 124) and reported as an
   * authentication error instead of escaping.
   */
  function AuthenticateIntended(header: Option<string>, validate: (string, string) -> StoreReply): (r: Outcome)
    ensures !r.Raised?
  {
    match Authenticate(header, validate)
    case Raised(_) => Failed(AuthenticationError)
    case o => o
  }

  /** A response as the challenge and forbid handlers leave it: a status code and the headers. */
  datatype Response = Response(status: int, headers: map<string, string>)

  const ChallengeHeader: string := "WWW-Authenticate"

  /** `HandleChallengeAsync`: sets `WWW-Authenticate: Basic`, then the base handler sets 401. */
  function Challenge(r: Response): (c: Response)
    ensures c.status == 401
    ensures ChallengeHeader in c.headers && c.headers[ChallengeHeader] == BasicScheme
    ensures forall k :: k in r.headers && k != ChallengeHeader ==> k in c.headers && c.headers[k] == r.headers[k]
    ensures forall k :: k in c.headers ==> k in r.headers || k == ChallengeHeader
  {
    Response(401, r.headers[ChallengeHeader := BasicScheme])
  }

  /** The inherited `HandleForbiddenAsync`: 403, headers left as they are. */
  function Forbid(r: Response): (f: Response)
    ensures f.status == 403 && f.headers == r.headers
  {
    Response(403, r.headers)
  }

  /** The base64 of the UTF-8 bytes of `text`, as the client computes it. */
  function TokenOf(text: string): (t: string)
    requires text != []
    ensures t != []
    ensures !Base64.IsSkipped(t[0]) && !Base64.IsSkipped(t[|t| - 1])
    ensures AuthHeader.IsBlob(t)
  {
    var bytes := Utf8.Encode(text);
    Base64.EncodeHasNoSkipped(bytes);
    assert Base64.SextetOf(',').None? && Base64.SextetOf('"').None?;
    Base64.Encode(bytes)
  }

  /** The token the client puts after "Basic": the e-mail and password joined by ':'. */
  function Token(email: string, password: string): (t: string)
    ensures t != []
    ensures !Base64.IsSkipped(t[0]) && !Base64.IsSkipped(t[|t| - 1])
    ensures AuthHeader.IsBlob(t)
  {
    TokenOf(email + ":" + password)
  }

  /** The header value the console client sends (`ApiConsumer/Program.cs`, lines 53 and 54). */
  function EncodeHeader(email: string, password: string): (h: string)
    ensures h == BasicScheme + " " + Token(email, password)
  {
    AuthHeader.Format(AuthHeader.HeaderValue(BasicScheme, Some(Token(email, password))))
  }

  /** A token decodes back to the text it was made from. */
  lemma TokenOfDecodes(text: string)
    requires text != []
    ensures Base64.Decode(TokenOf(text)).Some?
    ensures Utf8.Decode(Base64.Decode(TokenOf(text)).value) == text
  {
    Base64.DecodeEncode(Utf8.Encode(text));
    Utf8.DecodeEncode(text);
  }

  lemma TokenDecodes(email: string, password: string)
    ensures Base64.Decode(Token(email, password)).Some?
    ensures Utf8.Decode(Base64.Decode(Token(email, password)).value) == email + ":" + password
  {
    TokenOfDecodes(email + ":" + password);
  }

  /**
   * Well-formed base64 whose text has no ':' is not a pair of credentials:
   * the request fails before the store is asked.
   */
  lemma NoSeparatorRejected(text: string, validate: (string, string) -> StoreReply)
    requires text != [] && ':' !in text
    ensures Authenticate(Some(BasicScheme + " " + TokenOf(text)), validate) == Failed(InvalidCredentials)
  {
    SchemeIsToken(BasicScheme);
    AuthHeader.TryParseSchemeAndParameter(BasicScheme, TokenOf(text));
    TokenOfDecodes(text);
  }

  /**
   * Round trip: a "Basic" scheme in any letter case followed by the client's
   * token reads back exactly the e-mail and password, if the e-mail has no ':'.
   */
  lemma SchemeAccepted(scheme: string, email: string, password: string)
    requires Text.EqualsIgnoreCase(BasicScheme, scheme)
    requires ':' !in email
    ensures ReadCredentials(Some(scheme + " " + Token(email, password))) == Success(Credentials(email, password))
  {
    var token := Token(email, password);
    SchemeIsToken(scheme);
    AuthHeader.TryParseSchemeAndParameter(scheme, token);
    TokenDecodes(email, password);
    SplitFirstJoin(email, password, ':');
  }

  lemma CredentialsRoundTrip(email: string, password: string)
    requires ':' !in email
    ensures ReadCredentials(Some(EncodeHeader(email, password))) == Success(Credentials(email, password))
  {
    SchemeAccepted(BasicScheme, email, password);
  }

  /** The client's header for credentials the store accepts authenticates as the user the store found. */
  lemma FoundAuthenticates(email: string, password: string, validate: (string, string) -> StoreReply)
    requires ':' !in email && validate(email, password).Found?
    ensures Authenticate(Some(EncodeHeader(email, password)), validate)
      == Authenticated(BuildIdentity(validate(email, password).user))
  {
    CredentialsRoundTrip(email, password);
  }

  /** A header with another scheme, "Bearer x" say, fails as an invalid scheme before the store is asked. */
  lemma OtherSchemeFails(scheme: string, p: string, validate: (string, string) -> StoreReply)
    requires AuthHeader.IsToken(scheme) && AuthHeader.IsBlob(p)
    requires !Text.EqualsIgnoreCase(BasicScheme, scheme)
    ensures Authenticate(Some(scheme + " " + p), validate) == Failed(InvalidScheme)
  {
    AuthHeader.TryParseSchemeAndParameter(scheme, p);
  }

  lemma BearerFails(validate: (string, string) -> StoreReply)
    ensures Authenticate(Some("Bearer" + " " + "x"), validate) == Failed(InvalidScheme)
  {
    assert AuthHeader.IsTokenChar('B');
    OtherSchemeFails("Bearer", "x", validate);
  }

  /**
   * "Basic a,b" is not a single header value, since "b" is not a `name=value`
   * pair: the header is invalid, and the store is not asked.
   */
  lemma ListParameterFails(p: string, validate: (string, string) -> StoreReply)
    requires AuthHeader.IsTrimmed(p) && ',' in p && '=' !in p && '"' !in p
    ensures Authenticate(Some(BasicScheme + " " + p), validate) == Failed(InvalidHeader)
  {
    SchemeIsToken(BasicScheme);
    AuthHeader.TryParseRejectsList(BasicScheme, p);
  }

  /** Whatever matches "Basic" ignoring case is a token: only the letters of "Basic" in either case. */
  lemma SchemeIsToken(scheme: string)
    requires Text.EqualsIgnoreCase(BasicScheme, scheme)
    ensures AuthHeader.IsToken(scheme)
  {
    forall i | 0 <= i < |scheme|
      ensures AuthHeader.IsTokenChar(scheme[i])
    {
      assert Text.AsciiUpper(BasicScheme[i]) == Text.AsciiUpper(scheme[i]);
    }
  }

  /** "basic" and "BASIC" match the scheme name ignoring case. */
  lemma BasicSpellings()
    ensures Text.EqualsIgnoreCase(BasicScheme, "basic")
    ensures Text.EqualsIgnoreCase(BasicScheme, "BASIC")
  {
    assert forall i :: 0 <= i < 5 ==> Text.AsciiUpper("basic"[i]) == "BASIC"[i];
    assert forall i :: 0 <= i < 5 ==> Text.AsciiUpper(BasicScheme[i]) == "BASIC"[i];
  }

  /** "basic" and "BASIC" are accepted like "Basic". */
  lemma LowerAndUpperCaseAccepted(email: string, password: string)
    requires ':' !in email
    ensures ReadCredentials(Some("basic" + " " + Token(email, password))) == Success(Credentials(email, password))
    ensures ReadCredentials(Some("BASIC" + " " + Token(email, password))) == Success(Credentials(email, password))
  {
    BasicSpellings();
    SchemeAccepted("basic", email, password);
    SchemeAccepted("BASIC", email, password);
  }

  /** Only the first ':' separates: "a:b:c" is e-mail "a" and password "b:c". */
  lemma SplitFirstKeepsLaterSeparators()
    ensures SplitFirst("a:b:c", ':') == Some(("a", "b:c"))
  {
    SplitFirstJoin("a", "b:c", ':');
    assert "a" + [':'] + "b:c" == "a:b:c";
  }

  /** ":" splits into an empty e-mail and an empty password; text without ':' does not split. */
  lemma SplitFirstEdgeCases()
    ensures SplitFirst(":", ':') == Some(("", ""))
    ensures SplitFirst("john.doe@example.com", ':') == None
  {
    assert ':' !in "john.doe@example.com";
  }

  /** When the header is rejected before the store is asked, the store's answers make no difference. */
  lemma StoreNotConsulted(header: Option<string>, v1: (string, string) -> StoreReply, v2: (string, string) -> StoreReply)
    requires ReadCredentials(header).Failure?
    ensures Authenticate(header, v1) == Authenticate(header, v2)
    ensures !Authenticate(header, v1).Authenticated?
  {
  }

  /** No store at all is needed to reject a request without an `Authorization` header. */
  lemma MissingHeaderFails(validate: (string, string) -> StoreReply)
    ensures Authenticate(None, validate) == Failed(MissingHeader)
    ensures Message(Authenticate(None, validate).reason) == "Missing Authorization Header"
  {
  }

  /** A store that finds no user, or throws, never lets the request through. */
  lemma StoreRefusalFails(header: Option<string>, validate: (string, string) -> StoreReply)
    ensures var rc := ReadCredentials(header);
      rc.Success? && validate(rc.value.email, rc.value.password).NoMatch? ==>
        Authenticate(header, validate) == Failed(InvalidUserOrPassword)
    ensures var rc := ReadCredentials(header);
      rc.Success? && validate(rc.value.email, rc.value.password).Fault? ==>
        Authenticate(header, validate) == Failed(AuthenticationError)
  {
  }

  /**
   * A parameter the header parser accepts but that is not base64 escapes the
   * handler as an exception; it is neither a success nor a failure.
   */
  lemma MalformedParameterEscapes(p: string, validate: (string, string) -> StoreReply)
    requires AuthHeader.IsBlob(p) && Base64.Decode(p).None?
    ensures Authenticate(Some(BasicScheme + " " + p), validate) == Raised(MalformedBase64)
  {
    SchemeIsToken(BasicScheme);
    AuthHeader.TryParseSchemeAndParameter(BasicScheme, p);
  }

  /** "!!!!" has the length of a base64 group but none of its characters is in the alphabet. */
  lemma BangsAreNotBase64()
    ensures AuthHeader.IsBlob("!!!!") && Base64.Decode("!!!!").None?
  {
    Base64.DecodeRejectsForeign("!!!!", 0);
  }

  /** The header "Basic !!!!" makes the handler throw. */
  lemma MalformedBase64Escapes(validate: (string, string) -> StoreReply)
    ensures Authenticate(Some(BasicScheme + " " + "!!!!"), validate) == Raised(MalformedBase64)
  {
    BangsAreNotBase64();
    MalformedParameterEscapes("!!!!", validate);
  }

  /** A header with the scheme alone has no parameter, and decoding it throws. */
  lemma MissingParameterEscapes(validate: (string, string) -> StoreReply)
    ensures Authenticate(Some("Basic"), validate) == Raised(NullParameter)
  {
    AuthHeader.TryParseSchemeOnly("Basic");
  }

  /** The corrected handler turns those two escapes into failures and otherwise decides as the handler does. */
  lemma IntendedAgrees(header: Option<string>, validate: (string, string) -> StoreReply)
    ensures Authenticate(header, validate).Raised? ==> AuthenticateIntended(header, validate) == Failed(AuthenticationError)
    ensures !Authenticate(header, validate).Raised? ==> AuthenticateIntended(header, validate) == Authenticate(header, validate)
  {
  }

  lemma IntendedMalformedFails(validate: (string, string) -> StoreReply)
    ensures AuthenticateIntended(Some(BasicScheme + " " + "!!!!"), validate) == Failed(AuthenticationError)
    ensures AuthenticateIntended(Some("Basic"), validate) == Failed(AuthenticationError)
  {
    MalformedBase64Escapes(validate);
    MissingParameterEscapes(validate);
  }
}
