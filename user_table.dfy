/** The user table and what each UserService operation does to it, as functions
    of the table before the call. The table maps each id (the primary key) to the
    stored row; the service class in module Services keeps one such table and is
    proved to follow these functions. */
module UserTable {
  import opened Base
  import opened Entities
  import opened Jwt

  type Table = map<int32, User>

  /** Every row is stored under its own id. */
  ghost predicate Keyed(t: Table) {
    forall id :: id in t ==> t[id].id == id
  }

  /** No two rows share a username (exact, case-sensitive comparison). */
  ghost predicate UniqueUsernames(t: Table) {
    forall a, b :: a in t && b in t && a != b ==> t[a].username != t[b].username
  }

  /** The invariant every operation keeps. */
  ghost predicate Valid(t: Table) {
    Keyed(t) && UniqueUsernames(t)
  }

  /** `Users.Any(x => x.Username == name)`. */
  predicate HasUsername(t: Table, name: string) {
    exists id :: id in t && t[id].username == name
  }

  /** The ids of the rows whose username is exactly `name`. */
  function IdsNamed(t: Table, name: string): set<int32> {
    set id | id in t && t[id].username == name
  }

  /** `GetUser`: the row with this id, or KeyNotFoundException. */
  function GetUser(t: Table, id: int32): (r: Result<User, Exception>)
    ensures r.Success? <==> id in t
    ensures r.Success? ==> r.value == t[id]
    ensures r.Failure? ==> r.error == UserNotFound
  {
    if id in t then Success(t[id]) else Failure(UserNotFound)
  }

  /** `Users.SingleOrDefault(x => x.Username == name)`: the one matching row, none,
      or InvalidOperationException when several match. */
  ghost function SingleByUsername(t: Table, name: string): (r: Result<Option<User>, Exception>)
    ensures r.Failure? ==> r.error == MoreThanOneMatch
    ensures r == Success(None) <==> !HasUsername(t, name)
    ensures r.Success? && r.value.Some? ==> exists id :: id in t && t[id] == r.value.value && t[id].username == name
    ensures UniqueUsernames(t) ==> r.Success?
  {
    var ids := IdsNamed(t, name);
    assert UniqueUsernames(t) ==> |ids| <= 1 by {
      if UniqueUsernames(t) { AtMostOneNamed(t, name); }
    }
    assert HasUsername(t, name) <==> |ids| > 0 by {
      if HasUsername(t, name) {
        var id :| id in t && t[id].username == name;
        assert id in ids;
      }
      if |ids| > 0 {
        var id :| id in ids;
      }
    }
    if |ids| == 0 then Success(None)
    else if |ids| == 1 then var id :| id in ids; Success(Some(t[id]))
    else Failure(MoreThanOneMatch)
  }

  /** `Authenticate`: the same BadCredentials error for an unknown username and for
      a password the hasher rejects; otherwise the user's public fields and a token
      generated for that user at time `now`. */
  ghost function Authenticate(t: Table, request: AuthenticateRequest, hashing: Hasher, jwt: JwtUtilities, now: int)
    : (r: Result<AuthenticateResponse, Exception>)
    ensures r.Failure? ==> r.error == BadCredentials || r.error == MoreThanOneMatch
    ensures r.Success? ==> HasUsername(t, request.username) && r.value.username == request.username
  {
    match SingleByUsername(t, request.username)
    case Failure(e) => Failure(e)
    case Success(None) => Failure(BadCredentials)
    case Success(Some(user)) =>
      if !hashing.verify(request.password, user.passwordHash) then Failure(BadCredentials)
      else Success(AuthenticateResponse(user.firstName, user.lastName, user.username, jwt.GenerateToken(user, now)))
  }

  /** `Register`: refused with ApplicationException when the username is taken;
      otherwise exactly one row is added, under the id the store assigns, with the
      request's names and the hash of its password, and every other row is kept. */
  function Register(t: Table, request: RegisterRequest, hashing: Hasher, newId: int32): (r: Result<Table, Exception>)
    requires newId !in t
    ensures r.Failure? <==> HasUsername(t, request.username)
    ensures r.Failure? ==> r.error == TakenError(request.username)
    ensures r.Success? ==>
      && r.value.Keys == t.Keys + {newId}
      && |r.value| == |t| + 1
      && (forall id :: id in t ==> r.value[id] == t[id])
      && r.value[newId] == User(newId, request.firstName, request.lastName, request.username, hashing.hashPassword(request.password))
  {
    if HasUsername(t, request.username) then Failure(TakenError(request.username))
    else
      var user := User(newId, request.firstName, request.lastName, request.username, hashing.hashPassword(request.password));
      Success(t[newId := user])
  }

  /** The password hash Update leaves: the old one for a null or empty password,
      a fresh hash of the new password otherwise. */
  function UpdatedHash(oldHash: string, password: Option<string>, hash: string -> string): string {
    if password.None? || password.value == "" then oldHash else hash(password.value)
  }

  /** `Update`: KeyNotFoundException for an unknown id, checked first;
      ApplicationException when the username changes to one that any row holds;
      otherwise only the row `id` changes: its names and username come from the
      request, and its hash is kept or replaced as `UpdatedHash` says. */
  function Update(t: Table, id: int32, request: UpdateRequest, hash: string -> string): (r: Result<Table, Exception>)
    ensures id !in t ==> r == Failure(UserNotFound)
    ensures id in t ==>
      (r.Failure? <==> request.username != t[id].username && HasUsername(t, request.username))
    ensures id in t && r.Failure? ==> r.error == TakenError(request.username)
    ensures r.Success? ==>
      && id in t
      && r.value.Keys == t.Keys
      && (forall other :: other in t && other != id ==> r.value[other] == t[other])
      && r.value[id] == User(t[id].id, request.firstName, request.lastName, request.username,
                             UpdatedHash(t[id].passwordHash, request.password, hash))
  {
    match GetUser(t, id)
    case Failure(e) => Failure(e)
    case Success(user) =>
      if request.username != user.username && HasUsername(t, request.username) then
        Failure(TakenError(request.username))
      else
        var hashed := user.(passwordHash := UpdatedHash(user.passwordHash, request.password, hash));
        Success(t[id := hashed.(firstName := request.firstName, lastName := request.lastName, username := request.username)])
  }

  /** `Delete`: KeyNotFoundException for an unknown id; otherwise exactly that row goes. */
  function Delete(t: Table, id: int32): (r: Result<Table, Exception>)
    ensures r.Failure? <==> id !in t
    ensures r.Failure? ==> r.error == UserNotFound
    ensures r.Success? ==>
      && r.value.Keys == t.Keys - {id}
      && |r.value| == |t| - 1
      && (forall other :: other in r.value ==> r.value[other] == t[other])
  {
    match GetUser(t, id)
    case Failure(e) => Failure(e)
    case Success(_) => Success(t - {id})
  }

  /** A set with two or more members holds two distinct ones. */
  lemma TwoMembers<T>(s: set<T>) returns (a: T, b: T)
    requires |s| >= 2
    ensures a in s && b in s && a != b
  {
    a :| a in s;
    assert |s - {a}| == |s| - 1;
    b :| b in s - {a};
  }

  /** A set with one member holds nothing else. */
  lemma OnlyMember<T>(s: set<T>, a: T, b: T)
    requires |s| == 1 && a in s && b in s
    ensures a == b
  {
    var rest := s - {a};
    assert |rest| == |s| - 1 == 0;
    assert b !in rest;
  }

  /** Under unique usernames at most one row matches a username, so
      SingleOrDefault never throws. */
  lemma {:induction false} AtMostOneNamed(t: Table, name: string)
    requires UniqueUsernames(t)
    ensures |IdsNamed(t, name)| <= 1
  {
    var ids := IdsNamed(t, name);
    if |ids| >= 2 {
      var a, b := TwoMembers(ids);
      assert false;
    }
  }

  /** In a valid table, Authenticate succeeds exactly when a row has the username and
      the hasher accepts the password for it; it then answers with that row's names and
      a token generated for that row. Every failure is the same BadCredentials error. */
  lemma AuthenticateOutcome(t: Table, request: AuthenticateRequest, hashing: Hasher, jwt: JwtUtilities, now: int)
    requires Valid(t)
    ensures Authenticate(t, request, hashing, jwt, now).Failure? ==>
      Authenticate(t, request, hashing, jwt, now).error == BadCredentials
    ensures Authenticate(t, request, hashing, jwt, now).Success? <==>
      exists id :: id in t && t[id].username == request.username && hashing.verify(request.password, t[id].passwordHash)
    ensures forall id :: id in t && t[id].username == request.username && hashing.verify(request.password, t[id].passwordHash) ==>
      Authenticate(t, request, hashing, jwt, now) ==
        Success(AuthenticateResponse(t[id].firstName, t[id].lastName, t[id].username, jwt.GenerateToken(t[id], now)))
  {
    var ids := IdsNamed(t, request.username);
    AtMostOneNamed(t, request.username);
    if |ids| == 1 {
      var chosen :| chosen in ids;
      forall id | id in t && t[id].username == request.username
        ensures id == chosen
      {
        OnlyMember(ids, id, chosen);
      }
    }
  }

  /** Register keeps every username unique and every row under its own id. */
  lemma RegisterKeepsValid(t: Table, request: RegisterRequest, hashing: Hasher, newId: int32)
    requires Valid(t) && newId !in t
    ensures Register(t, request, hashing, newId).Success? ==> Valid(Register(t, request, hashing, newId).value)
  {
  }

  /** Update keeps every username unique and every row under its own id. */
  lemma UpdateKeepsValid(t: Table, id: int32, request: UpdateRequest, hash: string -> string)
    requires Valid(t)
    ensures Update(t, id, request, hash).Success? ==> Valid(Update(t, id, request, hash).value)
  {
  }

  /** Delete keeps every username unique and every row under its own id. */
  lemma DeleteKeepsValid(t: Table, id: int32)
    requires Valid(t)
    ensures Delete(t, id).Success? ==> Valid(Delete(t, id).value)
  {
  }

  /** A registered password verifies against its stored hash when the hasher is sound. */
  lemma RegisteredPasswordVerifies(t: Table, request: RegisterRequest, hashing: Hasher, newId: int32)
    requires newId !in t && Sound(hashing)
    ensures Register(t, request, hashing, newId).Success? ==>
      hashing.verify(request.password, Register(t, request, hashing, newId).value[newId].passwordHash)
  {
  }

  /** After an Update that supplies a password, the stored hash is the direct bcrypt
      hash of it, which the injected verifier accepts when it accepts bcrypt hashes. */
  lemma UpdatedPasswordVerifies(t: Table, id: int32, request: UpdateRequest, hashing: Hasher, hash: string -> string)
    requires Accepts(hashing, hash)
    requires request.password.Some? && request.password.value != ""
    ensures Update(t, id, request, hash).Success? ==>
      hashing.verify(request.password.value, Update(t, id, request, hash).value[id].passwordHash)
  {
  }
}
