/** Properties that span components: the status code ErrorHandlerMiddleware gives
    each service failure when it is the handler that catches it, and the register,
    sign-in and authenticated-request walk from one end to the other. */
module Flows {
  import opened Base
  import opened Entities
  import opened Jwt
  import opened UserTable
  import opened ErrorHandling
  import opened RequestAuth

  /** An unknown id is classified as 404 from GetById, Update and Delete alike; Update
      finds the id missing before it looks at the username. */
  lemma UnknownIdIsNotFound(t: Table, id: int32, request: UpdateRequest, hash: string -> string)
    requires id !in t
    ensures GetUser(t, id).Failure? && StatusCodeFor(GetUser(t, id).error.kind) == NotFound
    ensures Update(t, id, request, hash).Failure? && StatusCodeFor(Update(t, id, request, hash).error.kind) == NotFound
    ensures Delete(t, id).Failure? && StatusCodeFor(Delete(t, id).error.kind) == NotFound
  {
  }

  /** A taken username is classified as 500, not 400: the service throws
      ApplicationException, which is not the application's own exception type. */
  lemma TakenUsernameIsServerError(t: Table, request: RegisterRequest, hashing: Hasher, newId: int32,
                                   id: int32, update: UpdateRequest, hash: string -> string)
    requires newId !in t
    ensures Register(t, request, hashing, newId).Failure? ==>
      StatusCodeFor(Register(t, request, hashing, newId).error.kind) == InternalServerError
    ensures id in t && Update(t, id, update, hash).Failure? ==>
      StatusCodeFor(Update(t, id, update, hash).error.kind) == InternalServerError
  {
  }

  /** Bad credentials are classified as 500: the service throws a plain Exception. */
  lemma BadCredentialsIsServerError(t: Table, request: AuthenticateRequest, hashing: Hasher, jwt: JwtUtilities, now: int)
    requires Valid(t)
    ensures Authenticate(t, request, hashing, jwt, now).Failure? ==>
      StatusCodeFor(Authenticate(t, request, hashing, jwt, now).error.kind) == InternalServerError
  {
    AuthenticateOutcome(t, request, hashing, jwt, now);
  }

  /** Registering a fresh username and then signing in with the same password succeeds,
      and the token it hands out validates to the new user's id for seven days. */
  lemma RegisterThenSignIn(t: Table, request: RegisterRequest, hashing: Hasher, newId: int32,
                           jwt: JwtUtilities, now: int, later: int)
    requires Valid(t) && newId !in t && !HasUsername(t, request.username)
    requires Sound(hashing) && Faithful(jwt.codec) && Compact(jwt.codec)
    requires now <= later <= now + Validity
    ensures Register(t, request, hashing, newId).Success?
    ensures var registered := Register(t, request, hashing, newId).value;
            var signIn := Authenticate(registered, AuthenticateRequest(request.username, request.password), hashing, jwt, now);
            && signIn.Success?
            && signIn.value.username == request.username
            && jwt.ValidateToken(Some(signIn.value.token), later) == Some(newId)
  {
    var registered := Register(t, request, hashing, newId).value;
    RegisterKeepsValid(t, request, hashing, newId);
    var signInRequest := AuthenticateRequest(request.username, request.password);
    AuthenticateOutcome(registered, signInRequest, hashing, jwt, now);
    GenerateThenValidate(jwt, registered[newId], now, later);
  }

  /** A request whose Authorization header holds "<scheme> <token>" with a token issued
      to a stored user resolves, within the token's lifetime, to that user's row. */
  lemma BearerTokenResolvesUser(t: Table, user: User, jwt: JwtUtilities, issuedAt: int, now: int, scheme: string)
    requires user.id in t && t[user.id] == user
    requires Faithful(jwt.codec) && Compact(jwt.codec)
    requires ' ' !in scheme
    requires issuedAt <= now <= issuedAt + Validity
    ensures var id := jwt.ValidateToken(ExtractToken([scheme + " " + jwt.GenerateToken(user, issuedAt)]), now);
            id == Some(user.id) && GetUser(t, id.value) == Success(user)
  {
    SchemeIgnored(scheme, jwt.GenerateToken(user, issuedAt), []);
    assert [scheme + " " + jwt.GenerateToken(user, issuedAt)] + [] == [scheme + " " + jwt.GenerateToken(user, issuedAt)];
    GenerateThenValidate(jwt, user, issuedAt, now);
  }

  /** A header holding a scheme word and nothing after the space, such as "Bearer ",
      yields the empty token, which validation refuses: the request goes on with no user. */
  lemma SchemeWithoutTokenGivesNoId(jwt: JwtUtilities, scheme: string, now: int)
    requires ' ' !in scheme
    ensures ExtractToken([scheme + " "]) == Some("")
    ensures jwt.ValidateToken(ExtractToken([scheme + " "]), now) == None
  {
    LastSegmentIsFinalRun(scheme + " ");
  }

  /** Once the user is deleted, a still-valid token of theirs makes the lookup fail with
      KeyNotFoundException, which the error handler turns into 404. */
  lemma DeletedUserTokenIsNotFound(t: Table, user: User, jwt: JwtUtilities, issuedAt: int, now: int)
    requires Valid(t) && user.id in t && t[user.id] == user
    requires Faithful(jwt.codec) && Compact(jwt.codec)
    requires issuedAt <= now <= issuedAt + Validity
    ensures Delete(t, user.id).Success?
    ensures var id := jwt.ValidateToken(Some(jwt.GenerateToken(user, issuedAt)), now);
            && id == Some(user.id)
            && GetUser(Delete(t, user.id).value, id.value) == Failure(UserNotFound)
            && StatusCodeFor(UserNotFound.kind) == NotFound
  {
    GenerateThenValidate(jwt, user, issuedAt, now);
  }
}
