/** Requests made with the seed users' credentials, and the middleware's decision for their identities. */
module SeedRequests {
  import opened Wrappers
  import BasicAuth
  import Pipeline
  import Seed
  import Store
  import Utf8
  import Base64

  /** The identity the handler builds for a seed user. */
  function IdentityOf(u: Store.User): BasicAuth.Identity {
    BasicAuth.BuildIdentity(Seed.Record(u))
  }

  /** The header the client sends for a seed user. */
  function HeaderOf(u: Store.User): string {
    BasicAuth.EncodeHeader(u.email, Seed.SeedPassword)
  }

  /** A seed user whose credentials the store recognises is authenticated with its seed identity. */
  lemma SeedUserAuthenticated(u: Store.User, validate: (string, string) -> BasicAuth.StoreReply)
    requires ':' !in u.email
    requires validate(u.email, Seed.SeedPassword) == BasicAuth.Found(Seed.Record(u))
    ensures BasicAuth.Authenticate(Some(HeaderOf(u)), validate) == BasicAuth.Authenticated(IdentityOf(u))
  {
    BasicAuth.CredentialsRoundTrip(u.email, Seed.SeedPassword);
  }

  lemma JohnEmail()
    ensures ':' !in Seed.John.email
  {
    assert forall i :: 0 <= i < |Seed.John.email| ==> Seed.John.email[i] != ':';
  }

  lemma JaneEmail()
    ensures ':' !in Seed.Jane.email
  {
    assert forall i :: 0 <= i < |Seed.Jane.email| ==> Seed.Jane.email[i] != ':';
  }

  lemma HinaEmail()
    ensures ':' !in Seed.Hina.email
  {
    assert forall i :: 0 <= i < |Seed.Hina.email| ==> Seed.Hina.email[i] != ':';
  }

  /** The middleware's decision for each seed identity in the scenarios below. */
  lemma JohnCreates()
    ensures Pipeline.Authorize(BasicAuth.Authenticated(IdentityOf(Seed.John)), Pipeline.CreateProduct)
         == Pipeline.Proceed(Some(IdentityOf(Seed.John)))
  {
    Seed.JohnIdentity();
  }

  lemma JohnReadsById()
    ensures Pipeline.Authorize(BasicAuth.Authenticated(IdentityOf(Seed.John)), Pipeline.GetProductById)
         == Pipeline.Refuse(BasicAuth.Forbid(Pipeline.Initial))
  {
    Seed.JohnIdentity();
  }

  lemma HinaDeletes()
    ensures Pipeline.Authorize(BasicAuth.Authenticated(IdentityOf(Seed.Hina)), Pipeline.DeleteProduct)
         == Pipeline.Proceed(Some(IdentityOf(Seed.Hina)))
  {
    Seed.HinaIdentity();
  }

  lemma JaneDeletes()
    ensures Pipeline.Authorize(BasicAuth.Authenticated(IdentityOf(Seed.Jane)), Pipeline.DeleteProduct)
         == Pipeline.Refuse(BasicAuth.Forbid(Pipeline.Initial))
  {
    Seed.JaneIdentity();
  }

  /** The client's token for "notbase64", computed group by group. */
  lemma NotBase64Token()
    ensures BasicAuth.TokenOf("notbase64") == "bm90YmFzZTY0"
  {
    NotBase64Bytes();
    NotBase64Packed();
    NotBase64Rendered();
  }

  lemma NotBase64Bytes()
    ensures Utf8.Encode("notbase64") == [110, 111, 116, 98, 97, 115, 101, 54, 52]
  {
    Utf8.EncodeAscii("notbase64");
  }

  lemma NotBase64Packed()
    ensures Base64.Pack([110, 111, 116, 98, 97, 115, 101, 54, 52])
      == Base64.PackGroup(110, 111, 116, 3) + (Base64.PackGroup(98, 97, 115, 3) + Base64.PackGroup(101, 54, 52, 3))
  {
    var bs: seq<Base64.byte> := [110, 111, 116, 98, 97, 115, 101, 54, 52];
    Base64.PackCons(bs);
    assert bs[3..] == [98, 97, 115, 101, 54, 52];
    Base64.PackCons(bs[3..]);
    assert bs[3..][3..] == [101, 54, 52];
    assert Base64.Pack([101, 54, 52]) == Base64.PackGroup(101, 54, 52, 3);
  }

  lemma NotBase64Rendered()
    ensures Base64.Render(Base64.PackGroup(110, 111, 116, 3) + (Base64.PackGroup(98, 97, 115, 3) + Base64.PackGroup(101, 54, 52, 3)))
      == "bm90YmFzZTY0"
  {
    var g1, g2, g3 := Base64.PackGroup(110, 111, 116, 3), Base64.PackGroup(98, 97, 115, 3), Base64.PackGroup(101, 54, 52, 3);
    Base64.RenderGroup(110, 111, 116);
    Base64.RenderGroup(98, 97, 115);
    Base64.RenderGroup(101, 54, 52);
    Base64.RenderAppend(g2, g3);
    Base64.RenderAppend(g1, g2 + g3);
    assert "bm90" + ("YmFz" + "ZTY0") == "bm90YmFzZTY0";
  }
}

/**
 * Requests against the seed data, decided end to end: header parsing,
 * credential decoding, the store, identity building and the endpoint's policy.
 * The user store is a parameter; each scenario states the one answer it
 * needs from it (a seed user found for its e-mail and password).
 */
module Scenarios {
  import opened Wrappers
  import BasicAuth
  import Pipeline
  import Seed
  import SeedRequests

  /** John, an Admin, creates a product (AdminOnly) and gets through. */
  lemma AdminReachesAdminOnly(validate: (string, string) -> BasicAuth.StoreReply)
    requires validate(Seed.John.email, Seed.SeedPassword) == BasicAuth.Found(Seed.Record(Seed.John))
    ensures Pipeline.Handle(Some(SeedRequests.HeaderOf(Seed.John)), validate, Pipeline.CreateProduct)
         == Pipeline.Proceed(Some(SeedRequests.IdentityOf(Seed.John)))
  {
    SeedRequests.JohnEmail();
    SeedRequests.SeedUserAuthenticated(Seed.John, validate);
    SeedRequests.JohnCreates();
  }

  /** John asks for a product by id (UserOnly) and is forbidden, with no challenge. */
  lemma AdminForbiddenFromUserOnly(validate: (string, string) -> BasicAuth.StoreReply)
    requires validate(Seed.John.email, Seed.SeedPassword) == BasicAuth.Found(Seed.Record(Seed.John))
    ensures var d := Pipeline.Handle(Some(SeedRequests.HeaderOf(Seed.John)), validate, Pipeline.GetProductById);
      d.Refuse? && d.response.status == 403 && BasicAuth.ChallengeHeader !in d.response.headers
  {
    SeedRequests.JohnEmail();
    SeedRequests.SeedUserAuthenticated(Seed.John, validate);
    SeedRequests.JohnReadsById();
  }

  /** Hina, holding both roles, deletes a product (AdminAndUser). */
  lemma BothRolesReachAdminAndUser(validate: (string, string) -> BasicAuth.StoreReply)
    requires validate(Seed.Hina.email, Seed.SeedPassword) == BasicAuth.Found(Seed.Record(Seed.Hina))
    ensures Pipeline.Handle(Some(SeedRequests.HeaderOf(Seed.Hina)), validate, Pipeline.DeleteProduct)
         == Pipeline.Proceed(Some(SeedRequests.IdentityOf(Seed.Hina)))
  {
    SeedRequests.HinaEmail();
    SeedRequests.SeedUserAuthenticated(Seed.Hina, validate);
    SeedRequests.HinaDeletes();
  }

  /** Jane, holding User only, is forbidden from the same endpoint. */
  lemma OneRoleForbiddenFromAdminAndUser(validate: (string, string) -> BasicAuth.StoreReply)
    requires validate(Seed.Jane.email, Seed.SeedPassword) == BasicAuth.Found(Seed.Record(Seed.Jane))
    ensures var d := Pipeline.Handle(Some(SeedRequests.HeaderOf(Seed.Jane)), validate, Pipeline.DeleteProduct);
      d.Refuse? && d.response.status == 403 && BasicAuth.ChallengeHeader !in d.response.headers
  {
    SeedRequests.JaneEmail();
    SeedRequests.SeedUserAuthenticated(Seed.Jane, validate);
    SeedRequests.JaneDeletes();
  }

  /** Well-formed credentials whose text has no ':' are challenged, whatever the endpoint. */
  lemma NoSeparatorChallengedAny(text: string, validate: (string, string) -> BasicAuth.StoreReply, e: Pipeline.Endpoint)
    requires text != [] && ':' !in text
    ensures var d := Pipeline.Handle(Some(BasicAuth.BasicScheme + " " + BasicAuth.TokenOf(text)), validate, e);
      d.Refuse? && d.response.status == 401 && d.response.headers == map[BasicAuth.ChallengeHeader := "Basic"]
  {
    BasicAuth.NoSeparatorRejected(text, validate);
    Pipeline.FailedAuthenticationChallenged(BasicAuth.Failed(BasicAuth.InvalidCredentials), e);
  }

  /** The header "Basic bm90YmFzZTY0", whose credentials decode to "notbase64", is challenged, whatever the endpoint. */
  lemma NoSeparatorChallenged(validate: (string, string) -> BasicAuth.StoreReply, e: Pipeline.Endpoint)
    ensures BasicAuth.TokenOf("notbase64") == "bm90YmFzZTY0"
    ensures var d := Pipeline.Handle(Some(BasicAuth.BasicScheme + " " + "bm90YmFzZTY0"), validate, e);
      d.Refuse? && d.response.status == 401 && d.response.headers == map[BasicAuth.ChallengeHeader := "Basic"]
  {
    SeedRequests.NotBase64Token();
    assert ':' !in "notbase64";
    NoSeparatorChallengedAny("notbase64", validate, e);
  }

  /** A request without an `Authorization` header is challenged, whatever the endpoint. */
  lemma NoHeaderChallenged(validate: (string, string) -> BasicAuth.StoreReply, e: Pipeline.Endpoint)
    ensures var d := Pipeline.Handle(None, validate, e);
      d.Refuse? && d.response.status == 401 && d.response.headers == map[BasicAuth.ChallengeHeader := "Basic"]
  {
    Pipeline.FailedAuthenticationChallenged(BasicAuth.Failed(BasicAuth.MissingHeader), e);
  }

  /** A parameter that is not base64 fails the server as written, and is challenged once decoding is inside the `try`. */
  lemma MalformedBase64EndToEnd(validate: (string, string) -> BasicAuth.StoreReply, e: Pipeline.Endpoint)
    ensures Pipeline.Handle(Some(BasicAuth.BasicScheme + " " + "!!!!"), validate, e) == Pipeline.ServerError
    ensures var d := Pipeline.HandleIntended(Some(BasicAuth.BasicScheme + " " + "!!!!"), validate, e);
      d.Refuse? && d.response.status == 401
  {
    BasicAuth.MalformedBase64Escapes(validate);
    BasicAuth.IntendedMalformedFails(validate);
    Pipeline.FailedAuthenticationChallenged(BasicAuth.Failed(BasicAuth.AuthenticationError), e);
  }
}
