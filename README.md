# FootyTipping account flow, modelled in Dafny

This project models the server side of FootyTipping's account flow:

- the user service: register, authenticate, update, delete and look up users in the user table;
- the token utilities: issue a signed JSON Web Token that carries the user id, and validate one;
- the JWT middleware: take the bearer token from the `Authorization` header and attach the user it names to the request;
- the error-handling middleware: turn an exception into a status code and a `{ message }` JSON body.

Modules, one per component:

| module | file | models |
|---|---|---|
| `Base` | base.dfy | `Option`, `Result`, `Outcome`, C#'s `int` (`int32`), `byte` |
| `Entities` | entities.dfy | the `User` entity, request and response records, exception kinds and messages, the injected hasher |
| `IntText` | int_text.dfy | `int.ToString()` and `int.Parse` for the id claim |
| `Jwt` | jwt.dfy | `JwtUtilities.GenerateToken` and `ValidateToken` over an abstract token |
| `UserTable` | user_table.dfy | each `UserService` operation as a function of the table, with its lemmas |
| `Services` | user_service.dfy | the `UserService` class. Its `users` map field is the `Users` set; its methods are proved to follow `UserTable` |
| `RequestAuth` | jwt_middleware.dfy | `JwtMiddleware.Invoke`: header splitting, `HttpContext.Items`, hand-off to the next handler |
| `ErrorHandling` | error_handler.dfy | `ErrorHandlerMiddleware.Invoke` |
| `Flows` | flows.dfy | properties that cross components: status codes of service failures, and the register → sign in → authenticated request walk |

Modelling choices:

- **User table.** The table is a `map<int32, User>` keyed by primary key. Its invariant, `UserTable.Valid`, says two things. Every row is stored under its own id. No two rows share a username, compared exactly and case-sensitively. Register, Update and Delete keep this invariant.
- **New ids.** The store assigns the id of a new row on insert. `Register` receives that id as a parameter, and the id must not already be in use.
- **Hashing.** Password hashing and verification are a `Hasher`: two function values with no body behind them. `Sound(h)` is the one property assumed of them where it is needed: a password verifies against its own hash. `Update` hashes with `BCrypt.Net.BCrypt.HashPassword` directly, not with the injected hasher. The service therefore holds that function separately as `bcryptHash`.
- **Token text.** The token is a `SecurityToken` record with these parts:
  - the claims;
  - issuer and audience;
  - not-before and expiry times;
  - the key its HMAC-SHA256 signature was made with.

  Writing a token as text and reading it back is a `TokenCodec` of two function values. Two properties are assumed of it where needed:
  - `Faithful(codec)`: reading gives back what was written;
  - `Compact(codec)`: every written token is in the compact serialisation of section 7.1 of RFC 7515, base64url parts joined by dots.
- **Signing key.** The key is `Encoding.ASCII.GetBytes(secret)`: one byte per character, with `?` for each non-ASCII character. A signature checks out under a key when HMAC-SHA256 treats the two keys as the same. Section 2 of RFC 2104 pads a key of at most 64 bytes with zero bytes to 64, so a key followed by zero bytes signs like the key itself.
- **Blank tokens.** The token handler refuses a token that is empty or only white space, and the catch turns that into no id. The header "Bearer " gives exactly such a token.
- **Token lifetime.** `GenerateToken` sets the expiry to seven days after issue. The token handler also sets not-before to the issue time by default. Validation follows the lifetime rule of the validator the code configures, with `ClockSkew` zero:
  - an expiry is required;
  - the token is rejected before its not-before time;
  - it is rejected once its expiry is earlier than now.

  So a token is still accepted at the expiry instant, not only strictly before it. In the model, whose clock counts whole seconds, that is the whole second of the expiry.
- **Clock.** `DateTime.UtcNow` becomes a parameter `now`, in whole seconds since the epoch, which is the resolution JWT uses.
- **Exceptions.** Exceptions are `Exception(kind, message)` values, returned in a `Result` or `Outcome` instead of thrown.
  - The service throws a plain `Exception` for bad credentials and `ApplicationException` for a taken username. Neither is the application's own `AppException`, so the error handler answers 500 for both (`Flows.TakenUsernameIsServerError`, `Flows.BadCredentialsIsServerError`).
  - Only a missing id gives 404 (`Flows.UnknownIdIsNotFound`).
  - These are ErrorHandlerMiddleware's classifications. They are the response when that middleware is the first handler to catch the exception (see "## Left out" for the production pipeline).
- **Middleware hand-off.** `JwtMiddleware.Invoke` returns a `Handoff`:
  - `CallNext` when the next handler runs, exactly once, after the user is attached;
  - `Propagate(e)` when the user lookup throws. The next handler then does not run.

  `ErrorHandlerMiddleware.Invoke` receives the outcome of the rest of the pipeline as an `Outcome`.

## Model

| member | source | states |
|---|---|---|
| `IntText.NatToDigits` | src/Server/Authorization/JwtUtilities.cs:33 | `ToString()` of a non-negative id gives at least one decimal digit, only digits, and no leading zero unless the value is 0 |
| `IntText.DigitsValueOfDigits` | src/Server/Authorization/JwtUtilities.cs:33 | reading back the digits written for `n` gives `n` |
| `IntText.TrimStart` | src/Server/Authorization/JwtUtilities.cs:62 | the leading white space `int.Parse` skips: the result is a suffix of the input, every dropped character is white space, and the result does not start with white space |
| `IntText.TrimEnd` | src/Server/Authorization/JwtUtilities.cs:62 | the trailing white space `int.Parse` skips: the result is a prefix of the input, every dropped character is white space, and the result does not end with white space |
| `IntText.Int32ToString` | src/Server/Authorization/JwtUtilities.cs:33 | `id.ToString()` is non-empty and starts with a minus sign exactly when the id is negative. After the sign come only digits, with no leading zero on a negative value |
| `IntText.ParseOfDigits` | src/Server/Authorization/JwtUtilities.cs:62 | `int.Parse` (modelled by `ParseInt32`, which has no contract of its own) reads a plain string of digits exactly when its value fits in 32 bits, and gives that value |
| `IntText.ParseOfToString` | src/Server/Authorization/JwtUtilities.cs:33-62 | `int.Parse(id.ToString()) == id` for every 32-bit id, negative ones and `int.MinValue` included |
| `IntText.ParseNeedsADigit` | src/Server/Authorization/JwtUtilities.cs:62 | an id claim without any digit does not parse, so validation gives no id |
| `Jwt.AsciiBytes` | src/Server/Authorization/JwtUtilities.cs:30-49 | the signing key has one byte per secret character: the character's code when ASCII, `?` otherwise |
| `Jwt.NonAsciiSecretsShareKey` | src/Server/Authorization/JwtUtilities.cs:30-49 | any two secrets of the same length that differ only at positions where both hold a non-ASCII character give the same key |
| `Jwt.CompactIsNotBlank` | src/Server/Authorization/JwtUtilities.cs:39 | a token written in the compact serialisation (base64url parts joined by dots) is not blank and holds no space |
| `Jwt.SameHmacKey` | src/Server/Authorization/JwtUtilities.cs:49-55 | identical keys sign alike, and two different keys of the same length never do |
| `Jwt.ZeroPaddingSameKey` | src/Server/Authorization/JwtUtilities.cs:49-55 | a key of at most 64 bytes followed by zero bytes, up to 64, signs like the bare key, because HMAC pads keys with zero bytes |
| `Jwt.SignedWith` | src/Server/Authorization/JwtUtilities.cs:54-55 | a token signed with exactly the server's key passes the signature check, an unsigned token fails it, and a token signed with a key of the same length passes only if the keys are identical |
| `Jwt.LifetimeValid` | src/Server/Authorization/JwtUtilities.cs:58 | a token is live only when it has an expiry that is not earlier than now. With a not-before time no later than the expiry, it is live exactly from not-before to expiry, both included |
| `Jwt.IdClaim` | src/Server/Authorization/JwtUtilities.cs:62 | `Claims.First(x => x.Type == "id")` gives no value exactly when no claim has type "id", and otherwise the value of the first such claim |
| `Jwt.JwtUtilities.Issue` | src/Server/Authorization/JwtUtilities.cs:27-40 | a generated token carries the user's id as its "id" claim, expires 7 × 24 × 60 × 60 seconds after issue, and is signed with the server's key |
| `Jwt.JwtUtilities.Key` | src/Server/Authorization/JwtUtilities.cs:30 | the key has one byte per secret character, and an ASCII character's byte is its own code |
| `Jwt.JwtUtilities.GenerateToken` | src/Server/Authorization/JwtUtilities.cs:38-39 | with a faithful codec the text reads back as the issued token. With a compact codec it is not blank and holds no space |
| `Jwt.JwtUtilities.ValidateToken` | src/Server/Authorization/JwtUtilities.cs:44-45 | a null token gives no id, before any key or handler is involved. A blank token gives no id, since the handler throws on it and the catch returns null |
| `Jwt.ValidateFailsClosed` | src/Server/Authorization/JwtUtilities.cs:42-71 | an id comes back only from a well-formed token that is signed with the server's key and within its lifetime, and whose id claim parses to that id. Every failure gives no id |
| `Jwt.WrongSignatureRejected` | src/Server/Authorization/JwtUtilities.cs:49-55 | a token signed with another key, or not signed, gives no id |
| `Jwt.ExpiredRejected` | src/Server/Authorization/JwtUtilities.cs:58 | a token whose expiry is earlier than now gives no id, with no grace period |
| `Jwt.BadIdClaimRejected` | src/Server/Authorization/JwtUtilities.cs:62-69 | a missing id claim, or one that is not a 32-bit decimal, gives no id instead of an exception |
| `Jwt.IssuerAndAudienceIgnored` | src/Server/Authorization/JwtUtilities.cs:56-57 | changing a token's issuer or audience never changes the validation result |
| `Jwt.GenerateThenValidate` | src/Server/Authorization/JwtUtilities.cs:27-71 | under the same secret, a generated token validates to the user's id exactly from its issue time to its expiry seven days later, and to nothing outside that window |
| `Jwt.OtherSecretRejected` | src/Server/Authorization/JwtUtilities.cs:30-55 | a token generated under one secret gives no id under a secret whose key HMAC does not treat as the same. By `Jwt.SameHmacKey`, this covers every other secret of the same length with other key bytes |
| `Jwt.NulPaddedSecretAccepted` | src/Server/Authorization/JwtUtilities.cs:49-55 | a token generated under a secret still validates, within its lifetime, under that secret followed by NUL characters up to 64 bytes |
| `UserTable.SingleByUsername` | src/Server/Services/UserService.cs:37 | `SingleOrDefault` gives no row exactly when no row has the username. A row it gives has the username and is a row of the table. It throws only the more-than-one-match error, and never on a table with unique usernames |
| `UserTable.GetUser` | src/Server/Services/UserService.cs:100-106 | the lookup succeeds exactly when the id is in the table, and gives that row. Otherwise it throws KeyNotFoundException "User not found." |
| `UserTable.Register` | src/Server/Services/UserService.cs:65-80 | throws ApplicationException exactly when some row already has the username, leaving the table as it was. Otherwise it adds exactly one row with the request's names and `HashPassword(password)`, and keeps every other row |
| `UserTable.Update` | src/Server/Services/UserService.cs:82-98 | throws KeyNotFoundException for an unknown id, before any username check. For a known id it throws ApplicationException exactly when the username changes to one some row holds, so keeping one's own username never collides. Otherwise only that row changes: names and username from the request, and the hash kept for a null or empty password or replaced otherwise |
| `UserTable.Delete` | src/Server/Services/UserService.cs:48-53 | throws KeyNotFoundException exactly when the id is unknown. Otherwise it removes exactly that row and keeps the others |
| `UserTable.Authenticate` | src/Server/Services/UserService.cs:34-46 | a sign-in succeeds only for a username some row holds, and answers with that username. A failure is the bad-credentials error, or the more-than-one-match error that a valid table rules out |
| `UserTable.AtMostOneNamed` | src/Server/Services/UserService.cs:37 | with unique usernames, at most one row matches, so `SingleOrDefault` never throws |
| `UserTable.AuthenticateOutcome` | src/Server/Services/UserService.cs:34-46 | in a valid table, Authenticate succeeds exactly when a row has the username and the hasher accepts the password. The answer then has that row's names and a token generated for that row. Every failure is the same "Username or password is incorrect." error, whether the username was unknown or the password was wrong |
| `UserTable.RegisterKeepsValid` | src/Server/Services/UserService.cs:68-79 | Register keeps usernames unique and rows under their own ids |
| `UserTable.UpdateKeepsValid` | src/Server/Services/UserService.cs:84-97 | Update keeps usernames unique and rows under their own ids |
| `UserTable.DeleteKeepsValid` | src/Server/Services/UserService.cs:50-52 | Delete keeps usernames unique and rows under their own ids |
| `UserTable.RegisteredPasswordVerifies` | src/Server/Services/UserService.cs:75 | with a sound hasher, the registered password verifies against the stored hash |
| `UserTable.UpdatedPasswordVerifies` | src/Server/Services/UserService.cs:91-92 | after an update with a non-empty password, the injected verifier accepts that password against the stored hash, when it accepts bcrypt's hashes. That the stored hash is bcrypt's hash of the password is `UserTable.Update`'s contract |
| `Services.UserService.constructor` | src/Server/Services/UserService.cs:26-32 | the service starts over a valid table with the given hasher and token utilities |
| `Services.UserService.Authenticate` | src/Server/Services/UserService.cs:34-46 | the result is what `UserTable.Authenticate` says for the current table, and the table is only read |
| `Services.UserService.Delete` | src/Server/Services/UserService.cs:48-53 | the new table is what `UserTable.Delete` gives, or is unchanged when that throws. The table stays valid |
| `Services.UserService.GetAll` | src/Server/Services/UserService.cs:55-58 | every stored user is returned, and each returned user is the row stored under its own id |
| `Services.UserService.GetById` | src/Server/Services/UserService.cs:60-63 | gives the row with this id, or KeyNotFoundException. A found row has the requested id |
| `Services.UserService.Register` | src/Server/Services/UserService.cs:65-80 | the new table is what `UserTable.Register` gives, or is unchanged when that throws. The table stays valid |
| `Services.UserService.Update` | src/Server/Services/UserService.cs:82-98 | the new table is what `UserTable.Update` gives, or is unchanged when that throws. The table stays valid |
| `Services.UserService.GetUser` | src/Server/Services/UserService.cs:100-106 | the lookup agrees with `UserTable.GetUser` |
| `RequestAuth.Split` | src/Server/Authorization/JwtMiddleware.cs:16 | `Split(" ")` gives at least one piece, and no piece contains the separator |
| `RequestAuth.JoinSplit` | src/Server/Authorization/JwtMiddleware.cs:16 | joining the pieces with the separator gives back the header value, so splitting loses nothing |
| `RequestAuth.FinalRun` | src/Server/Authorization/JwtMiddleware.cs:16 | the characters after the last space contain no space |
| `RequestAuth.LastSegmentIsFinalRun` | src/Server/Authorization/JwtMiddleware.cs:16 | `.Split(" ").Last()` is exactly the run of characters after the last space |
| `RequestAuth.LastSegment` | src/Server/Authorization/JwtMiddleware.cs:16 | `.Split(" ").Last()` holds no space. `RequestAuth.LastSegmentIsFinalRun` says which characters it holds |
| `RequestAuth.ExtractToken` | src/Server/Authorization/JwtMiddleware.cs:16 | there is no token exactly when the header is absent. A token never contains a space |
| `RequestAuth.SchemeIgnored` | src/Server/Authorization/JwtMiddleware.cs:16 | the scheme word is not checked: "Bearer abc", "Basic abc" and "abc" all give the token "abc", and header values after the first are ignored |
| `RequestAuth.HttpContext.constructor` | src/Server/Authorization/JwtMiddleware.cs:14 | a request starts with its Authorization header values and no items |
| `RequestAuth.Invoke` | src/Server/Authorization/JwtMiddleware.cs:14-25 | with no id from validation, the items are unchanged and the next handler runs. With an id of a stored user, `Items["User"]` becomes that user and the next handler runs. With an id of a missing user, the lookup's KeyNotFoundException propagates, the items are unchanged and the next handler does not run. The user table is only read |
| `ErrorHandling.StatusCodeFor` | src/Server/Helpers/ErrorHandlerMiddleware.cs:28-42 | 400 exactly for AppException, 404 exactly for KeyNotFoundException, and 500 for every other kind |
| `ErrorHandling.HttpResponse.constructor` | src/Server/Helpers/ErrorHandlerMiddleware.cs:24 | a response starts with status 200, no content type and an empty body |
| `ErrorHandling.Invoke` | src/Server/Helpers/ErrorHandlerMiddleware.cs:16-48 | when the rest of the pipeline completes, the response is untouched. When it throws, the content type is `application/json`, the status code is the one for the exception's kind, and exactly `{ message }` with the exception's message is written |
| `Flows.UnknownIdIsNotFound` | src/Server/Services/UserService.cs:100-106 | ErrorHandlerMiddleware classifies an unknown id as 404, from GetById, Update and Delete alike |
| `Flows.TakenUsernameIsServerError` | src/Server/Services/UserService.cs:68-88 | ErrorHandlerMiddleware classifies a taken username, on Register or on Update, as 500, because ApplicationException is not AppException |
| `Flows.BadCredentialsIsServerError` | src/Server/Services/UserService.cs:40-41 | ErrorHandlerMiddleware classifies bad credentials as 500, because a plain Exception is not AppException |
| `Flows.RegisterThenSignIn` | src/Server/Services/UserService.cs:34-80 | after registering a fresh username, signing in with the same password succeeds. The token it returns validates to the new id throughout the next seven days |
| `Flows.BearerTokenResolvesUser` | src/Server/Authorization/JwtMiddleware.cs:16-21 | a header "scheme token", with a token issued to a stored user and still within its lifetime, resolves to that user's row |
| `Flows.SchemeWithoutTokenGivesNoId` | src/Server/Authorization/JwtMiddleware.cs:16-17 | a header holding only a scheme word and a space, such as "Bearer ", yields the empty token, which validation refuses |
| `Flows.DeletedUserTokenIsNotFound` | src/Server/Authorization/JwtMiddleware.cs:21 | after the user is deleted, their still-valid token makes the lookup throw KeyNotFoundException, which ends as 404 |

## Left out

- Password hashing internals (bcrypt): foreign code. The hasher is two function values, and the salt bcrypt draws at random is not modelled: hashing the same password twice gives the same hash here.
- JWT compact serialisation, base64url, and HMAC-SHA256: library code. They are hidden behind `TokenCodec`, and a decoded token records the key it was signed with.
- The key-length check the token handler makes for HMAC keys: library code, not modelled.
- `Jwt.KeyBlock`: HMAC replaces a key K longer than 64 bytes by the 32-byte key SHA-256(K), so K signs exactly like SHA-256(K), with or without up to 32 trailing zero bytes. SHA-256 is not part of this model: it does not relate the two keys and treats a long key as signing only like itself.
- `Jwt.OtherSecretRejected`: for an issuer key K longer than 64 bytes, the program also accepts the token under a secret whose key is SHA-256(K), possibly followed by zero bytes. The lemma claims rejection there, because `Jwt.KeyBlock` does not relate the two keys.
- `Jwt.JwtUtilities.ValidateToken`: the secret is always present. When the `SecuritySettings:Secret` setting is missing, the secret is null and the source throws ArgumentNullException at JwtUtilities.cs:49, outside the try, for every non-null token, instead of returning null. JwtMiddleware lets it propagate and it ends as 500. `GenerateToken` throws the same way at JwtUtilities.cs:30. So the model's "every failure gives no id" holds only with the setting present.
- `ErrorHandling.StatusCodeFor`: exception kinds are flat. The source's type patterns also match subclasses of AppException and KeyNotFoundException, giving them 400 and 404. A subclass is not modelled: any other kind gets 500.
- Registered claims the handler adds on its own (`iat`, and `nbf`/`exp` as claims): not modelled. Not-before and expiry are kept as record fields instead.
- Time below one second: `DateTime.UtcNow` becomes a whole-second parameter.
- EF Core change tracking, `SaveChanges` transactions and migrations: the store is a map, and each operation's change is applied as one step.
- Entity identity: `Update` overwrites the tracked entity's fields in place. The model replaces the row in the map. A `User` obtained earlier, such as the one in `Items["User"]`, is a copy and does not see later updates.
- Running out of identity values when the store assigns ids: not modelled. The assigned id is a parameter.
- The order in which `GetAll` enumerates users: not modelled. It returns a set.
- The check-then-act race between concurrent Register or Update requests: concurrency is out of scope.
- AutoMapper: the mapping profile is not part of this model. Each map copies `FirstName`, `LastName` and `Username` by name. Any further field of `AuthenticateResponse`, such as an id, is not modelled.
- `[StringLength(50)]` and column annotations on `User`: storage constraints, not enforced.
- The request header dictionary: only the values of the `Authorization` header are modelled. Its case-insensitive key lookup is not.
- `async`/`await` and the `RequestDelegate` itself: not modelled. The outcome of the next handler is a parameter or a returned `Handoff`.
- `JsonSerializer` escaping of the message text: not modelled. The body is the structured `{ message }` object.
- Effects of an exception thrown after the response has started, and a null exception message: not modelled.
- `int.Parse` details beyond the default style with invariant culture: trailing NUL characters and culture-specific signs are not modelled.
- Characters outside the Basic Multilingual Plane: they count as one character, not as two UTF-16 code units.
- Username comparison in the database: the model compares usernames exactly, as an in-memory store does. The program's `Any`, `SingleOrDefault` and equality tests on `Username` run as SQL on SQL Server, whose default collation ignores case and trailing spaces. There, registering "alice" while "Alice" exists throws ApplicationException, and signing in as "ALICE" finds that row. The model adds the row and rejects the sign-in.
- The production exception pipeline: outside Development, `Program.cs` registers `UseExceptionHandler("/Error")` after ErrorHandlerMiddleware and JwtMiddleware, so it runs inside them. It catches exceptions from the controllers first, so an unknown id in GetById, Update or Delete ends as 500 there, not 404. The status codes in `Flows` are ErrorHandlerMiddleware's classifications and apply when it catches the exception, as in Development and for the JwtMiddleware lookup. The `/Error` handler is not part of this model.
- The users controller, both `Program.cs` files, the client services and route views, and `DataContext.cs`: wiring and UI with no account logic.
