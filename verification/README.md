# Basic authentication and role policies of BasicRolesAuthenticationApp, in Dafny

BasicRolesAuthenticationApp is an ASP.NET Core web API. Users and products live in a database. Every request authenticates with HTTP Basic credentials: the `Authorization` header carries `Basic` and the base64 of `email:password`. The endpoints are guarded by four role policies.

This project models the core of that per-request decision, as pure functions over immutable data:

- **The authentication handler** (`BasicAuth`). It checks the header is present, parses it as an `AuthenticationHeaderValue` (`AuthHeader`), and matches the scheme "Basic" in any letter case. It decodes the parameter with `Convert.FromBase64String` (`Base64`) and then `Encoding.UTF8` (`Utf8`), splits the text at its first `:`, and asks the user store. A user it finds becomes an identity with one role claim per role name. The store is a function parameter. The handler's outcome is one of three kinds:
  - an identity;
  - one of the six failure reasons, each with its exact message;
  - an exception that escapes the handler.
- **The challenge and forbid responses**: 401 with `WWW-Authenticate: Basic`, and 403.
- **The policy table** (`Policies`): AdminOnly, UserOnly, AdminOrUser and AdminAndUser. Roles are compared exactly.
- **The endpoint-to-policy bindings of both controllers and the middleware order** (`Pipeline`): authentication runs first, then authorization.
- **The role repository** (`RoleRepository`): assigning a role by name, with the role name matched ignoring ASCII case, and reading a user's roles.
- **The product repository** (`ProductRepository`): the product table as a map from id to product.
- **The product and user controllers** (`ProductController`, `UserController`), including the role update, which only ever adds roles.
- **The data annotations of `ProductCreateDTO`** (`ProductDto`).
- **The seed data** (`Seed`), and requests made with the seed users' credentials, decided end to end (`SeedRequests`, `Scenarios`).

Supporting modules:

- `Wrappers`: `Option` and `Result`.
- `Text`: ordinal case folding, `char.IsWhiteSpace`, UTF-16 length and `int.ToString`.
- `Store`: the database rows and the validity of their keys.
- `Actions`: the action results.

The user store (`ValidateUserAsync`) and the user repository's create, update and delete are parameters of the functions that call them. The database-generated id of a new product is a parameter too.

## Model

| member | source | states |
|---|---|---|
| Text.Utf16Length | WebApplication1/DTOs/ProductCreateDTO.cs:8-11 | The length `[StringLength]` measures lies between the character count and twice it, and equals the character count for text inside the Basic Multilingual Plane |
| Text.Utf16LengthAppend | WebApplication1/DTOs/ProductCreateDTO.cs:8-11 | The UTF-16 length of a concatenation is the sum of the lengths of its parts |
| Text.Utf16LengthSnoc | WebApplication1/DTOs/ProductCreateDTO.cs:8-11 | Each character adds one UTF-16 unit, or two (a surrogate pair) for a character outside the Basic Multilingual Plane; with the append lemma this fixes the exact length of every string |
| Text.IntToString | WebApplication1/Controllers/UserController.cs:165 | The user id written into the assign-role message is a decimal numeral, with '-' exactly for a negative id, that reads back as the same id |
| Text.NatToString | WebApplication1/Controllers/UserController.cs:165 | The digits of a non-negative number have no leading zero and read back as that number |
| Utf8.Encode | ApiConsumer/Program.cs:53 | `Encoding.UTF8.GetBytes` writes between one and four bytes per character |
| Utf8.DecodeEncode | WebApplication1/Handler/BasicAuthenicationHandler.cs:64 | Decoding, as the handler does, the UTF-8 bytes the client wrote gives back exactly the client's text, for every string |
| Utf8.EncodeAppend | ApiConsumer/Program.cs:53 | The UTF-8 of a concatenation is the concatenation of the UTF-8 of its parts |
| Utf8.EncodeAscii | ApiConsumer/Program.cs:53 | ASCII text is written one byte per character, each byte the character's code |
| Utf8.Decode | WebApplication1/Handler/BasicAuthenicationHandler.cs:64 | `Encoding.UTF8.GetString` never fails; it yields no more characters than there are bytes, and nothing exactly for no bytes |
| Base64.Encode | ApiConsumer/Program.cs:53 | `Convert.ToBase64String` gives the empty string exactly for no bytes |
| Base64.PackLength | ApiConsumer/Program.cs:53 | Every three bytes, and a final one or two, become four characters: the output has 4·⌈n/3⌉ characters |
| Base64.ParseRender | WebApplication1/Handler/BasicAuthenicationHandler.cs:64 | Reading back the characters written for a sequence of 6-bit values gives the same values |
| Base64.UnpackPack | WebApplication1/Handler/BasicAuthenicationHandler.cs:64 | Regrouping the 6-bit values the encoder produced, including the padded final group, gives back the bytes |
| Base64.DecodeEncode | WebApplication1/Handler/BasicAuthenicationHandler.cs:64 | `Convert.FromBase64String` accepts everything `Convert.ToBase64String` writes and returns the original bytes |
| Base64.EncodeHasNoSkipped | ApiConsumer/Program.cs:53 | The encoder never writes space, tab, CR or LF, which the decoder would skip, and writes only characters of the alphabet and '=' |
| Base64.Decode | WebApplication1/Handler/BasicAuthenicationHandler.cs:64 | `Convert.FromBase64String` throws when the text, skipped characters aside, is not a whole number of four-character groups, and returns no bytes for blank text |
| Base64.DecodeRejectsForeign | WebApplication1/Handler/BasicAuthenicationHandler.cs:64 | A character that is neither skipped nor in the alphabet nor '=' makes `Convert.FromBase64String` throw, wherever it stands |
| Base64.RenderAppend | ApiConsumer/Program.cs:53 | The characters written for a concatenation of 6-bit values are those of each part, in order |
| Base64.RenderGroup | ApiConsumer/Program.cs:53 | Three bytes are written as the four alphabet characters of their 6-bit values |
| AuthHeader.TryParse | WebApplication1/Handler/BasicAuthenicationHandler.cs:48-52 | A header that parses yields a token scheme and, if there is one, a parameter without surrounding whitespace and without ',' or '"'; a blank header does not parse |
| AuthHeader.TryParseSchemeOnly | WebApplication1/Handler/BasicAuthenicationHandler.cs:48-52 | A header that is a bare scheme token parses with no parameter |
| AuthHeader.TryParseSchemeAndParameter | WebApplication1/Handler/BasicAuthenicationHandler.cs:48-52 | "scheme parameter" parses back to exactly that scheme and parameter, for a token scheme and a trimmed parameter without ',' or '"' |
| AuthHeader.TryParseRejectsList | WebApplication1/Handler/BasicAuthenicationHandler.cs:48-52 | A parameter holding ',' with no '=' and no '"' after the scheme makes the header fail to parse as a single value: what follows the comma is neither a `name=value` pair nor a quoted string, so the framework's parser refuses it too |
| AuthHeader.TryParseFormat | ApiConsumer/Program.cs:54 | Round trip: the header the client writes from a token scheme and a parameter without whitespace at its ends, ',' or '"' parses back to the same scheme and parameter |
| BasicAuth.SplitFirst | WebApplication1/Handler/BasicAuthenicationHandler.cs:64-70 | Splitting at ':' into at most two parts yields one part exactly when there is no ':'. Otherwise the parts rejoin around the separator into the text, and the first part has no ':' |
| BasicAuth.SplitFirstJoin | WebApplication1/Handler/BasicAuthenicationHandler.cs:64 | Joining an e-mail without ':' and any password with ':' splits back into the same two parts |
| BasicAuth.SplitFirstKeepsLaterSeparators | WebApplication1/Handler/BasicAuthenicationHandler.cs:64 | Only the first ':' separates: "a:b:c" gives e-mail "a" and password "b:c" |
| BasicAuth.SplitFirstEdgeCases | WebApplication1/Handler/BasicAuthenicationHandler.cs:64-70 | ":" gives an empty e-mail and an empty password; text without ':' does not split |
| BasicAuth.ReadCredentials | WebApplication1/Handler/BasicAuthenicationHandler.cs:38-74 | Every exit is stated in both directions. No header gives "Missing Authorization Header". A header that does not parse gives "Invalid Authorization Header". A scheme other than "Basic" (ignoring case) gives "Invalid Authorization Scheme". For a "Basic" header: no parameter throws the argument-null exception, a parameter that is not base64 throws the format exception, and base64 text yields credentials exactly when its decoded text holds a ':', failing otherwise with "Invalid Basic Authentication Credentials". Credentials that come out are the decoded text split at its first ':'. No other failure reason arises here, and nothing here authenticates anyone |
| BasicAuth.BuildIdentity | WebApplication1/Handler/BasicAuthenicationHandler.cs:89-114 | The identity's NameIdentifier is the user's id, its Name is the user's e-mail, its role claims are exactly the user's role names, and it is issued by the "BasicAuthentication" scheme |
| BasicAuth.Validate | WebApplication1/Handler/BasicAuthenicationHandler.cs:76-124 | Inside the `try`, a request is authenticated exactly when the store finds a user, with the identity built from that user. No user found gives "Invalid Username or Password" and a store exception gives "Error occurred during authentication", each exactly in its case. Nothing escapes |
| BasicAuth.Authenticate | WebApplication1/Handler/BasicAuthenicationHandler.cs:35-125 | A rejection before the `try` is the handler's result unchanged. An authenticated request had readable credentials for which the store found a user, and its identity is built from that user. Readable credentials are decided by the store's answer for them, as in the `try` |
| BasicAuth.AuthenticateIntended | WebApplication1/Handler/BasicAuthenicationHandler.cs:62-124 | With decoding inside the `try`, no header makes the handler throw: a missing or malformed parameter is caught and reported as "Error occurred during authentication" |
| BasicAuth.Challenge | WebApplication1/Handler/BasicAuthenicationHandler.cs:129-137 | The challenge sets status 401 and `WWW-Authenticate` to exactly "Basic", and keeps every other header |
| BasicAuth.Forbid | WebApplication1/Handler/BasicAuthenicationHandler.cs:14 | The inherited forbid handler sets 403 and adds no header |
| BasicAuth.TokenOf | ApiConsumer/Program.cs:53 | The client's token for non-empty text is non-empty, neither begins nor ends with whitespace, and holds no ',' or '"', so the header parser hands it back unchanged |
| BasicAuth.EncodeHeader | ApiConsumer/Program.cs:53-54 | The header the client sends is "Basic", one space, and the token of `email:password` |
| BasicAuth.TokenOfDecodes | WebApplication1/Handler/BasicAuthenicationHandler.cs:64 | The handler's decoding of a client token is valid base64 and gives back the client's text |
| BasicAuth.TokenDecodes | WebApplication1/Handler/BasicAuthenicationHandler.cs:64 | A client token made from an e-mail and a password decodes to `email:password` |
| BasicAuth.SchemeIsToken | WebApplication1/Handler/BasicAuthenicationHandler.cs:56 | Any scheme that equals "Basic" ignoring case is a valid header token |
| BasicAuth.BasicSpellings | WebApplication1/Handler/BasicAuthenicationHandler.cs:56 | "basic" and "BASIC" equal "Basic" under ordinal case-insensitive comparison |
| BasicAuth.SchemeAccepted | WebApplication1/Handler/BasicAuthenicationHandler.cs:54-74 | With the scheme in any letter case and the client's token, the handler reads back exactly the e-mail and password, provided the e-mail has no ':' |
| BasicAuth.CredentialsRoundTrip | ApiConsumer/Program.cs:53-54 | Round trip: the header the console client builds is read by the handler as the same e-mail and password, for every ':'-free e-mail and every password |
| BasicAuth.FoundAuthenticates | WebApplication1/Handler/BasicAuthenicationHandler.cs:64-117 | The client's header for an e-mail without ':' and any password authenticates exactly as the user the store finds for them |
| BasicAuth.OtherSchemeFails | WebApplication1/Handler/BasicAuthenicationHandler.cs:56-60 | A header with any other scheme token fails with "Invalid Authorization Scheme", whatever the store |
| BasicAuth.BearerFails | WebApplication1/Handler/BasicAuthenicationHandler.cs:56-60 | "Bearer x" fails with "Invalid Authorization Scheme" |
| BasicAuth.ListParameterFails | WebApplication1/Handler/BasicAuthenicationHandler.cs:48-52 | "Basic" followed by a parameter with ',' but no '=' and no '"' ("Basic a,b") fails with "Invalid Authorization Header", whatever the store |
| BasicAuth.LowerAndUpperCaseAccepted | WebApplication1/Handler/BasicAuthenicationHandler.cs:56-60 | Headers spelled "basic ..." and "BASIC ..." yield the same credentials as "Basic ..." |
| BasicAuth.NoSeparatorRejected | WebApplication1/Handler/BasicAuthenicationHandler.cs:67-70 | Well-formed base64 of text without ':' fails with "Invalid Basic Authentication Credentials", whatever the store would say |
| BasicAuth.StoreNotConsulted | WebApplication1/Handler/BasicAuthenicationHandler.cs:38-74 | When the header is rejected before the `try`, the outcome does not depend on the store, and no one is authenticated |
| BasicAuth.MissingHeaderFails | WebApplication1/Handler/BasicAuthenicationHandler.cs:38-42 | With no `Authorization` header the result is the failure "Missing Authorization Header", whatever the store |
| BasicAuth.StoreRefusalFails | WebApplication1/Handler/BasicAuthenicationHandler.cs:80-86 | If the store finds no user, the failure is "Invalid Username or Password". If it throws, the failure is "Error occurred during authentication" (lines 119-124) |
| BasicAuth.MalformedParameterEscapes | WebApplication1/Handler/BasicAuthenicationHandler.cs:64 | As written, any "Basic" header whose parameter the header parser accepts but is not base64 makes the handler throw; it neither succeeds nor fails |
| BasicAuth.BangsAreNotBase64 | WebApplication1/Handler/BasicAuthenicationHandler.cs:64 | "!!!!" is a parameter the header parser accepts and `Convert.FromBase64String` rejects |
| BasicAuth.MalformedBase64Escapes | WebApplication1/Handler/BasicAuthenicationHandler.cs:64-76 | As written, the header "Basic !!!!" makes the handler throw a format exception |
| BasicAuth.MissingParameterEscapes | WebApplication1/Handler/BasicAuthenicationHandler.cs:64 | As written, the header "Basic" with no parameter makes the handler throw an argument-null exception |
| BasicAuth.IntendedAgrees | WebApplication1/Handler/BasicAuthenicationHandler.cs:76-124 | The corrected handler decides every header the handler as written decides, in the same way; an escape becomes "Error occurred during authentication", the `catch` at lines 119-124 |
| BasicAuth.IntendedMalformedFails | WebApplication1/Handler/BasicAuthenicationHandler.cs:64-124 | The corrected handler fails "Basic !!!!" and a bare "Basic" with the message of the `catch` |
| BasicAuth.MessagesDistinct | WebApplication1/Handler/BasicAuthenicationHandler.cs:41-123 | The six failure reasons have six different messages |
| Policies.Evaluate | WebApplication1/Program.cs:45-52 | AdminOnly holds iff "Admin" is held. UserOnly holds iff "User" is held. AdminOrUser holds iff either is held. AdminAndUser holds iff both are held. Exactly the four names are policies |
| Policies.PolicyImplications | WebApplication1/Program.cs:47-51 | AdminAndUser implies AdminOnly and UserOnly, and each of those implies AdminOrUser |
| Policies.NoRolesNoAccess | WebApplication1/Program.cs:47-51 | A principal with no roles fails every registered policy |
| Policies.Monotone | WebApplication1/Program.cs:47-51 | Holding more roles never loses access to any "any of" or "all of" requirement |
| Policies.RolesAreCaseSensitive | WebApplication1/Program.cs:49 | The role claims "admin" and "user" do not satisfy AdminOrUser |
| Pipeline.BindingsRegistered | WebApplication1/Controllers/ProductController.cs:14-126 | Every endpoint of either controller asks for the registered default scheme, "BasicAuthentication", under which the handler issues identities (Program.cs lines 38-39, and line 14 of both controllers), and every policy it names is in the policy table |
| Pipeline.PolicyOf | WebApplication1/Controllers/UserController.cs:26-159 | Every endpoint of both controllers names a policy of the table: products (ProductController.cs lines 26, 45, 66, 98, 126) and users (lines 26, 46, 67, 106, 147, 159) |
| Pipeline.Authorize | WebApplication1/Program.cs:80-81 | A handler exception is a server error. A request proceeds only if its principal's roles pass the endpoint's policy. Any refusal is the challenge or the forbid response |
| Pipeline.Handle | WebApplication1/Program.cs:80-81 | With authentication before authorization, a request reaches an action only if the handler authenticated it |
| Pipeline.HandleIntended | WebApplication1/Handler/BasicAuthenicationHandler.cs:62-76 | With the corrected handler, no request ends in a server error |
| Pipeline.AnonymousNeverProceeds | WebApplication1/Program.cs:80-81 | No endpoint lets an unauthenticated request through; one that proceeds carries the handler's identity |
| Pipeline.FailedAuthenticationChallenged | WebApplication1/Handler/BasicAuthenicationHandler.cs:129-137 | A failed authentication ends in 401 with exactly the header `WWW-Authenticate: Basic`, whatever the endpoint's policy |
| Pipeline.OtherSchemeChallenged | WebApplication1/Handler/BasicAuthenicationHandler.cs:56-60 | A header that parses with a scheme other than "Basic" ends in 401 with exactly `WWW-Authenticate: Basic`, at every endpoint |
| Pipeline.BearerChallenged | WebApplication1/Handler/BasicAuthenicationHandler.cs:56-60 | "Bearer x" ends in 401 with exactly `WWW-Authenticate: Basic`, at every endpoint |
| Pipeline.PolicyFailureForbidden | WebApplication1/Program.cs:81 | An authenticated request failing its policy ends in 403 without a challenge header |
| Pipeline.ProceedIff | WebApplication1/Program.cs:80-81 | A request proceeds exactly when it is authenticated and its roles pass the endpoint's policy |
| Pipeline.FailureIndependentOfEndpoint | WebApplication1/Handler/BasicAuthenicationHandler.cs:35-125 | A request that is not authenticated gets the same decision at every endpoint |
| Store.RoleById | WebApplication1/Repositories/RoleRepository.cs:47 | The role a join row points at is found exactly when the role table has that id, and it has that id |
| Store.ValidRowsResolve | WebApplication1/Data/ApplicationDbContext.cs:16-27 | In a store that respects the composite key and the two foreign keys, every role a user holds is in the role table and only existing users hold roles |
| RoleRepository.FindRole | WebApplication1/Repositories/RoleRepository.cs:31 | Finds the first role whose name equals the given one ignoring case, or reports that none does |
| RoleRepository.MessagesDistinct | WebApplication1/Repositories/RoleRepository.cs:29-34 | "User not found" and "Role not found" tell the two errors apart |
| RoleRepository.AssignRole | WebApplication1/Repositories/RoleRepository.cs:22-41 | An unknown user fails with "User not found", checked before the role. An unknown role fails with "Role not found". It succeeds exactly when both exist. On success, only the join rows change: the user's role ids grow by exactly the named role, and other users' roles are unchanged |
| RoleRepository.AssignPreservesValid | WebApplication1/Repositories/RoleRepository.cs:36-40 | A successful assignment keeps the store valid; in particular no (UserId, RoleId) pair appears twice |
| RoleRepository.AssignIdempotent | WebApplication1/Repositories/RoleRepository.cs:36 | Assigning the same role twice leaves the store as one assignment did |
| RoleRepository.AssignFailureReason | WebApplication1/Repositories/RoleRepository.cs:28-34 | A failed assignment names the user if the user is missing, and otherwise the role, with the exception's message |
| RoleRepository.UserRoles | WebApplication1/Repositories/RoleRepository.cs:43-51 | A missing user has no roles; every role read back is in the role table and held by the user |
| RoleRepository.RolesOfRows | WebApplication1/Repositories/RoleRepository.cs:50 | Each role read from the join rows is in the role table and has a join row for the user |
| RoleRepository.RolesOfRowsComplete | WebApplication1/Repositories/RoleRepository.cs:50 | Every join row of the user that points at an existing role contributes that role |
| RoleRepository.UserRolesComplete | WebApplication1/Repositories/RoleRepository.cs:43-51 | In a valid store, every role the user holds is among the roles read back |
| ProductRepository.GetById | WebApplication1/Repositories/ProductRepository.cs:22-25 | Returns the product stored under the id, or nothing exactly when there is none |
| ProductRepository.Create | WebApplication1/Repositories/ProductRepository.cs:27-32 | The product is stored under its new id and returned with it; the other products are unchanged |
| ProductRepository.Overwrite | WebApplication1/Repositories/ProductRepository.cs:40-43 | The stored product keeps its id and takes the name, description, price and quantity sent |
| ProductRepository.Update | WebApplication1/Repositories/ProductRepository.cs:34-47 | An absent id gives false and an unchanged table. A present id gives true, overwrites that entry only and keeps the key set |
| ProductRepository.Delete | WebApplication1/Repositories/ProductRepository.cs:49-58 | An absent id gives false and an unchanged table. A present id gives true and removes exactly that key, keeping the other entries |
| ProductRepository.OperationsKeepKeys | WebApplication1/Repositories/ProductRepository.cs:27-58 | Create, update and delete keep every product stored under its own id |
| ProductRepository.ReadYourWrites | WebApplication1/Repositories/ProductRepository.cs:22-58 | A read after create, update or delete sees the write |
| ProductRepository.UpdateIdempotent | WebApplication1/Repositories/ProductRepository.cs:34-47 | Updating twice with the same values equals updating once |
| ProductRepository.DeleteTwice | WebApplication1/Repositories/ProductRepository.cs:49-58 | A second delete of the same id reports false and changes nothing |
| ProductDto.Report | WebApplication1/DTOs/ProductCreateDTO.cs:8 | An annotation contributes its message exactly when its check fails |
| ProductDto.Errors | WebApplication1/DTOs/ProductCreateDTO.cs:7-20 | Each of the five checks contributes at most one message, and only the five annotation messages occur |
| ProductDto.ValidProductCreate | WebApplication1/DTOs/ProductCreateDTO.cs:7-20 | A valid request has a name of at most 100 characters and a description, if any, of at most 500, since the limits count UTF-16 units |
| ProductDto.ErrorsEmptyIffValid | WebApplication1/DTOs/ProductCreateDTO.cs:7-20 | The model state is valid exactly when four conditions hold. The name is present, not blank and at most 100 long. A present description is at most 500 long. The price is at least 0. The quantity is in 0..1000 |
| ProductDto.ErrorMessages | WebApplication1/DTOs/ProductCreateDTO.cs:7-20 | Each message is reported exactly when its check fails. Price: negative. Quantity: outside 0..1000. Required name: missing or blank. Name length: a name over 100 UTF-16 units. Description length: a description over 500 |
| ProductDto.MessagesDistinct | WebApplication1/DTOs/ProductCreateDTO.cs:8-19 | The five annotation messages are pairwise different, so a message identifies the check that failed |
| ProductDto.BoundsInclusive | WebApplication1/DTOs/ProductCreateDTO.cs:11-20 | The bounds are inclusive: an empty description, price 0, quantity 0 and quantity 1000 pass; price -1 and quantity 1001 do not |
| ProductController.ToRead | WebApplication1/Controllers/ProductController.cs:53-59 | The read DTO carries the product's id, name, description, price and quantity |
| ProductController.GetAll | WebApplication1/Controllers/ProductController.cs:27-41 | Ok with one read DTO per stored product, for exactly the stored ids |
| ProductController.GetById | WebApplication1/Controllers/ProductController.cs:46-62 | NotFound exactly when the id is missing, otherwise Ok with that product's DTO |
| ProductController.Create | WebApplication1/Controllers/ProductController.cs:67-94 | An invalid body is refused with its messages before the table is touched. A valid one is stored and echoed back with Ok, carrying the new id and the name, description, price and quantity sent; the table gains exactly that id and keeps every other product |
| ProductController.Update | WebApplication1/Controllers/ProductController.cs:99-122 | Model errors, then an id mismatch ("Product ID mismatch."), give BadRequest with the table untouched. NotFound exactly for a missing id; a present id with no errors and a matching body gives NoContent, which overwrites that one product and nothing else |
| ProductController.Delete | WebApplication1/Controllers/ProductController.cs:127-134 | NotFound with the table unchanged exactly for a missing id; otherwise NoContent with exactly that product removed |
| ProductController.MissingProductNotFound | WebApplication1/Controllers/ProductController.cs:49-50 | A missing product is NotFound for GetById, Update and Delete (lines 118-119 and 130-131), and the table is unchanged |
| ProductController.UpdateThenGet | WebApplication1/Controllers/ProductController.cs:99-122 | After a successful update, GetById returns exactly the values sent |
| UserController.Names | WebApplication1/Controllers/UserController.cs:38 | The role names, one per role, in order |
| UserController.ToRead | WebApplication1/Controllers/UserController.cs:53-60 | The read DTO carries the user's id, names and e-mail. Each role name it lists is the name of a role the user holds, and in a valid store it lists the name of every role the user holds |
| UserController.NamesComplete | WebApplication1/Controllers/UserController.cs:38 | In a valid store the names read for a user include the name of every role the user holds |
| UserController.ReadHidesPassword | WebApplication1/Controllers/UserController.cs:31-39 | What a read DTO shows does not depend on the password |
| UserController.GetAll | WebApplication1/Controllers/UserController.cs:27-42 | Ok with one read DTO per user, for exactly the stored ids |
| UserController.GetById | WebApplication1/Controllers/UserController.cs:47-63 | NotFound exactly when the id is missing, otherwise Ok with that user's DTO |
| UserController.Except | WebApplication1/Controllers/UserController.cs:134 | `Except` keeps exactly the names not excluded, each once |
| UserController.AssignAll | WebApplication1/Controllers/UserController.cs:137-140 | Assigning names one by one changes only the join rows and never removes a role from the user, and leaves other users alone. Without an error it adds exactly the roles the names match. It keeps a valid store valid |
| UserController.MatchedIdsCons | WebApplication1/Controllers/UserController.cs:137-140 | The roles a list of names matches are those of its first name plus those of the rest |
| UserController.Update | WebApplication1/Controllers/UserController.cs:107-143 | Model errors, then an id mismatch ("ID in URL doesn't match ID in payload."), give BadRequest with the store untouched. A user the repository does not find gives NotFound with the repository's store. After a found user, the names not yet held are assigned in order: NoContent when all succeed, otherwise a server error with the message of the first that throws, keeping the assignments made before it |
| UserController.RolesToAdd | WebApplication1/Controllers/UserController.cs:134 | The roles to add are exactly the requested names the user does not hold yet |
| UserController.UpdateOnlyAddsRoles | WebApplication1/Controllers/UserController.cs:129-142 | After the user is updated, its roles only grow. The result is NoContent exactly when every new name is assigned, and then the roles are the old ones plus exactly those the new names match. A name that throws gives a server error with the repository's message |
| UserController.Delete | WebApplication1/Controllers/UserController.cs:148-155 | NotFound exactly when the repository deleted nothing, otherwise NoContent; either way the store is the one the repository left |
| UserController.AssignRole | WebApplication1/Controllers/UserController.cs:160-171 | A repository `ArgumentException` becomes BadRequest with its message and no change. Otherwise the result is Ok with the store the repository produced and the message "Role '<name>' assigned to user with ID <id>.", the id written in decimal |
| UserController.Create | WebApplication1/Controllers/UserController.cs:68-102 | As written, the action never answers Created. Model errors give BadRequest with no change. Otherwise the user is stored and its roles assigned, and the result is a server error in the store the assignments left: the repository's message when a role name throws, otherwise the link failure of `CreatedAtAction` at line 101, whose action name "GetUserByIdAsync" matches no route |
| UserController.CreateIntended | WebApplication1/Controllers/UserController.cs:68-101 | With a link that resolves: when every requested role is assigned to the stored user, the result is Created with the read DTO of that user, stored under the id `createUser` gave, in the store the assignments left. A failed role assignment is a server error with the repository's message, and so is a new id that is not in the user table. Created only ever carries the new user |
| UserController.CreateAgrees | WebApplication1/Controllers/UserController.cs:91-101 | The action as written and the corrected one leave the same store and give the same response, except that the corrected Created is the link-failure server error as written |
| UserController.CreateWithoutRolesFails | WebApplication1/Controllers/UserController.cs:82-101 | A valid request with no roles, for a user the repository stores, is a server error as written with the user stored, and Created with that user when corrected |
| UserController.CreateAssignsRequestedRoles | WebApplication1/Controllers/UserController.cs:85-101 | When every requested role is assigned, the new user holds what it held after `createUser` plus exactly the roles the requested names match, whatever the response; other users are unchanged; the corrected action answers Created exactly when the new id is in the user table, and then, in a valid store, its DTO names every matched role |
| Seed.SeedUserIds | WebApplication1/Data/ApplicationDbContext.cs:31-36 | The seed users have ids 1 to 4 |
| Seed.SeedValid | WebApplication1/Data/ApplicationDbContext.cs:15-56 | The seed respects the keys: no (UserId, RoleId) pair twice, and every join row points at a seeded user and role |
| Seed.SeedRoleIds | WebApplication1/Data/ApplicationDbContext.cs:45-50 | John holds role 1, Jane role 2, Hina roles 1 and 2, and Sara none |
| Seed.JohnIdentity | WebApplication1/Data/ApplicationDbContext.cs:46 | John's identity carries exactly the role claim "Admin" |
| Seed.JaneIdentity | WebApplication1/Data/ApplicationDbContext.cs:47 | Jane's identity carries exactly the role claim "User" |
| Seed.HinaIdentity | WebApplication1/Data/ApplicationDbContext.cs:48-49 | Hina's identity carries exactly the role claims "Admin" and "User" |
| Seed.SaraIdentity | WebApplication1/Data/ApplicationDbContext.cs:35 | Sara's identity carries no role claim |
| Seed.AdminOnlyOnSeed | WebApplication1/Data/ApplicationDbContext.cs:45-50 | Among the seed users, AdminOnly passes exactly John and Hina |
| Seed.UserOnlyOnSeed | WebApplication1/Data/ApplicationDbContext.cs:45-50 | Among the seed users, UserOnly passes exactly Jane and Hina |
| Seed.AdminOrUserOnSeed | WebApplication1/Data/ApplicationDbContext.cs:45-50 | Among the seed users, AdminOrUser passes exactly John, Jane and Hina |
| Seed.AdminAndUserOnSeed | WebApplication1/Data/ApplicationDbContext.cs:45-50 | Among the seed users, AdminAndUser passes exactly Hina |
| Seed.SaraPassesNothing | WebApplication1/Data/ApplicationDbContext.cs:35 | Sara, with no roles, fails every registered policy |
| SeedRequests.SeedUserAuthenticated | WebApplication1/Handler/BasicAuthenicationHandler.cs:64-117 | A seed user's client header, answered by the store with that user, authenticates as the identity built from its seed roles |
| SeedRequests.JohnCreates | WebApplication1/Controllers/ProductController.cs:66 | John's identity passes the create-product policy |
| SeedRequests.JohnReadsById | WebApplication1/Controllers/ProductController.cs:45 | John's identity is forbidden from reading a product by id |
| SeedRequests.HinaDeletes | WebApplication1/Controllers/ProductController.cs:126 | Hina's identity passes the delete-product policy |
| SeedRequests.JaneDeletes | WebApplication1/Controllers/ProductController.cs:126 | Jane's identity is forbidden from deleting a product |
| SeedRequests.NotBase64Token | ApiConsumer/Program.cs:53 | The client's token for "notbase64" is "bm90YmFzZTY0" |
| Scenarios.AdminReachesAdminOnly | WebApplication1/Controllers/ProductController.cs:66 | John, logging in with the seed password, reaches CreateProduct with his identity |
| Scenarios.AdminForbiddenFromUserOnly | WebApplication1/Controllers/ProductController.cs:45 | John asking for a product by id gets 403 and no challenge header |
| Scenarios.BothRolesReachAdminAndUser | WebApplication1/Controllers/ProductController.cs:126 | Hina reaches DeleteProduct |
| Scenarios.OneRoleForbiddenFromAdminAndUser | WebApplication1/Controllers/ProductController.cs:126 | Jane asking to delete a product gets 403 and no challenge header |
| Scenarios.NoSeparatorChallengedAny | WebApplication1/Handler/BasicAuthenicationHandler.cs:67-70 | Credentials without ':' end in 401 with `WWW-Authenticate: Basic`, at every endpoint |
| Scenarios.NoSeparatorChallenged | WebApplication1/Handler/BasicAuthenicationHandler.cs:67-70 | The header "Basic bm90YmFzZTY0", the client token of "notbase64", ends in 401 with `WWW-Authenticate: Basic`, at every endpoint |
| Scenarios.NoHeaderChallenged | WebApplication1/Handler/BasicAuthenicationHandler.cs:38-42 | A request without an `Authorization` header ends in 401 with `WWW-Authenticate: Basic`, at every endpoint |
| Scenarios.MalformedBase64EndToEnd | WebApplication1/Handler/BasicAuthenicationHandler.cs:64-76 | "Basic !!!!" is a server error as written, and a 401 challenge with the corrected handler |

## Left out

- The services (`UserService`, `RoleService`, `ProductService`) only forward to the repositories. The controllers here call the repositories directly.
- The interfaces: they hold signatures only.
- `UserRepository` is not part of this model.
  - `ValidateUserAsync` is the `validate` parameter of `BasicAuth.Authenticate`. It answers with no user, a user record (id, e-mail, role names) or an exception. No password comparison is invented.
  - The user repository's create, update and delete are parameters of `UserController.Create`, `Update` and `Delete`.
  - A lookup by id reads the user table.
- `RoleRepository.GetRolesAsync` and `ProductRepository.GetAllProductsAsync` return a whole table. `ProductController.GetAll` reads the table directly.
- Entity Framework is not modelled: change tracking, `SaveChangesAsync`, `AsNoTracking` and id generation.
- RoleRepository.FindRole, RoleRepository.AssignRole and UserController.AssignRole model the role lookup at RoleRepository.cs:31 as the comparison it is written as. On SQL Server, Entity Framework Core does not translate `string.Equals` with a `StringComparison` argument and throws `InvalidOperationException` instead, for every existing user. `UserController.cs:167` catches only `ArgumentException`, so assign-role, create with roles and update with new roles would end in a server error where the model gives Ok, a stored user or NoContent. Query translation belongs to the database provider, which is not part of this model.
  - The new product's id is the `newId` parameter, required to be fresh.
  - The new user's id comes from the `createUser` parameter.
- Host plumbing is not modelled: async/await, dependency injection, Swagger, HTTPS redirection, logging and `app.Run`.
- The console client's I/O (`ApiConsumer/Program.cs`) is left out. Only its header encoding at lines 53-54 is modelled, as `BasicAuth.EncodeHeader`.
- The `Authorization` header is one optional string. Several header values, which `StringValues.ToString()` would join with commas, are not modelled.
- AuthHeader.TryParse is simpler than the framework's parser. It accepts a scheme token followed, after spaces or tabs, by text without ',' or '"' as the parameter, and rejects any other text. The framework also accepts, as the parameter, a comma-separated list of `name=value` pairs and text holding a complete quoted string. For such a "Basic" header the handler would throw in base64 decoding; the model fails it as an invalid header instead. AuthHeader.TryParseRejectsList and BasicAuth.ListParameterFails are therefore stated only for a parameter with ',' and neither '=' nor '"', which both parsers refuse.
- `Text.EqualsIgnoreCase` folds ASCII letters only. Ordinal case-insensitive comparison also folds non-ASCII letters. That makes no difference when one side is the ASCII "Basic", but it does for role names with non-ASCII letters in `RoleRepository.FindRole`.
- Strings are sequences of Unicode scalar values. A lone UTF-16 surrogate cannot be represented. `Text.Utf16Length` counts two units for a character outside the Basic Multilingual Plane.
- `Base64.Decode` ignores the unused low bits of the last character before padding. It does not model .NET's other leniencies beyond skipping space, tab, CR and LF.
- Prices are whole numbers of cents instead of `decimal`. The `Range(0.0, double.MaxValue)` upper bound holds for every decimal, so only the lower bound is modelled.
- `[Required]` on the value-typed `Price` and `Quantity` of `ProductCreateDTO` can never fail, so it has no message.
- The data annotations of `ProductUpdateDTO`, `UserCreateDTO`, `UserUpdateDTO` and `User` are not part of this model. Their model-state errors are the `modelErrors` parameter. `ProductCreateDTO`'s are modelled.
- `BadRequest(ModelState)` returns a dictionary of messages keyed by property. The model returns the list of messages in property order.
- ProductController.GetAll and UserController.GetAll return a map keyed by id instead of a list in table order.
- `rolesToRemove` in `UpdateUserAsync` (UserController.cs:133) is computed and never used, so it is not modelled.
- UserController.Update: the repository update is the `updateUser` parameter, so the NotFound path is stated in terms of its answer. The roles after a found user are stated in `UserController.UpdateOnlyAddsRoles`.
- UserController.Create and UserController.CreateIntended: a user missing after creation gives a server error. The source would dereference a null there.
- UserController.Create: the link failure at line 101 rests on ASP.NET Core's default of trimming "Async" from action names (`SuppressAsyncSuffixInActionNames`), which `Program.cs` leaves unchanged; routing itself is not modelled.
- `DeleteUserAsync` is bound to UserOnly, as the code says (UserController.cs:147). The comment beside it says Admin; the model follows the code.
- The authorization middleware's other behaviour is not modelled: other requirement types, resource-based authorization, and endpoints without `[Authorize]`. An unregistered policy name is a server error, and the bindings lemma shows none is used.

## Findings

| source | as written | input that shows it | evidently intended | confidence | as-written member | corrected member |
|---|---|---|---|---|---|---|
| WebApplication1/Handler/BasicAuthenicationHandler.cs:64-76 | The base64 decoding of the parameter runs before the `try` that turns errors into authentication failures. A parameter the header parser accepts that is not base64 throws `FormatException` out of the handler, and a header with no parameter throws `ArgumentNullException`. Either way the request ends in a server error, not a 401 challenge | The header `Basic !!!!`, or the header `Basic` alone | A malformed credential is caught like any other error in the `try` and fails authentication with "Error occurred during authentication", so it is challenged with 401 | not executed | BasicAuth.MalformedBase64Escapes | BasicAuth.AuthenticateIntended |
| WebApplication1/Controllers/UserController.cs:101 | `CreatedAtAction(nameof(GetUserByIdAsync), ...)` names the action "GetUserByIdAsync", but ASP.NET Core registers it as "GetUserById" because the "Async" suffix is trimmed by default. No route matches, so building the Location link throws `InvalidOperationException` after the user is stored and its roles assigned, and the request ends in a server error | A valid create request with `Roles` empty | The new user is returned with 201 Created and a link to it, with the link naming the action as it is registered (the name "GetUserById", or the suffix kept by turning `SuppressAsyncSuffixInActionNames` off) | not executed | UserController.CreateWithoutRolesFails | UserController.CreateIntended |
