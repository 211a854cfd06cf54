/** UserService: the account operations over the user table it owns. Each
    mutating method checks, then changes the table field, and is proved to do what
    the matching function of module UserTable says while keeping the table valid. */
module Services {
  import opened Base
  import opened Entities
  import opened Jwt
  import UserTable

  class UserService {
    /** The `Users` set of the data context, keyed by id. */
    var users: UserTable.Table
    /** The injected hasher (HashPassword, Verify). */
    const hashing: Hasher
    /** `BCrypt.Net.BCrypt.HashPassword`, which Update calls directly instead of the injected hasher. */
    const bcryptHash: string -> string
    /** The injected token utilities. */
    const jwt: JwtUtilities

    ghost predicate Valid()
      reads this
    {
      UserTable.Valid(users)
    }

    constructor (initial: UserTable.Table, hashing: Hasher, bcryptHash: string -> string, jwt: JwtUtilities)
      requires UserTable.Valid(initial)
      ensures Valid()
      ensures users == initial && this.hashing == hashing && this.bcryptHash == bcryptHash && this.jwt == jwt
    {
      users := initial;
      this.hashing := hashing;
      this.bcryptHash := bcryptHash;
      this.jwt := jwt;
    }

    /** Authenticate at time `now`; reads the table only. */
    method Authenticate(request: AuthenticateRequest, now: int) returns (r: Result<AuthenticateResponse, Exception>)
      ensures r == UserTable.Authenticate(users, request, hashing, jwt, now)
    {
      var ids := set id | id in users && users[id].username == request.username;
      assert ids == UserTable.IdsNamed(users, request.username);
      if |ids| == 0 {
        return Failure(BadCredentials);
      } else if |ids| > 1 {
        return Failure(MoreThanOneMatch);
      }
      var id :| id in ids;
      forall other | other in ids
        ensures other == id
      {
        UserTable.OnlyMember(ids, other, id);
      }
      var user := users[id];
      if !hashing.verify(request.password, user.passwordHash) {
        return Failure(BadCredentials);
      }
      var response := AuthenticateResponse(user.firstName, user.lastName, user.username, "");
      r := Success(response.(token := jwt.GenerateToken(user, now)));
    }

    /** Delete the user with this id. */
    method Delete(id: int32) returns (r: Outcome<Exception>)
      requires Valid()
      modifies this
      ensures Valid()
      ensures match UserTable.Delete(old(users), id)
              case Failure(e) => r == Fail(e) && users == old(users)
              case Success(t) => r == Pass && users == t
    {
      var found := GetUser(id);
      if found.Failure? {
        return Fail(found.error);
      }
      UserTable.DeleteKeepsValid(users, id);
      users := users - {id};
      r := Pass;
    }

    /** Every stored user; each one is the row stored under its own id. */
    method GetAll() returns (r: set<User>)
      requires Valid()
      ensures forall id :: id in users ==> users[id] in r
      ensures forall u :: u in r ==> u.id in users && users[u.id] == u
    {
      r := users.Values;
    }

    /** The user with this id, or KeyNotFoundException. */
    method GetById(id: int32) returns (r: Result<User, Exception>)
      requires Valid()
      ensures r == UserTable.GetUser(users, id)
      ensures r.Success? ==> r.value.id == id
    {
      r := GetUser(id);
    }

    /** Register a user under the id the store assigns on insert. */
    method Register(request: RegisterRequest, assignedId: int32) returns (r: Outcome<Exception>)
      requires Valid() && assignedId !in users
      modifies this
      ensures Valid()
      ensures match UserTable.Register(old(users), request, hashing, assignedId)
              case Failure(e) => r == Fail(e) && users == old(users)
              case Success(t) => r == Pass && users == t
    {
      if exists id :: id in users && users[id].username == request.username {
        return Fail(TakenError(request.username));
      }
      var user := User(assignedId, request.firstName, request.lastName, request.username, "");
      user := user.(passwordHash := hashing.hashPassword(request.password));
      UserTable.RegisterKeepsValid(users, request, hashing, assignedId);
      users := users[assignedId := user];
      r := Pass;
    }

    /** Update the user with this id from the request. */
    method Update(id: int32, request: UpdateRequest) returns (r: Outcome<Exception>)
      requires Valid()
      modifies this
      ensures Valid()
      ensures match UserTable.Update(old(users), id, request, bcryptHash)
              case Failure(e) => r == Fail(e) && users == old(users)
              case Success(t) => r == Pass && users == t
    {
      var found := GetUser(id);
      if found.Failure? {
        return Fail(found.error);
      }
      var user := found.value;
      if request.username != user.username && exists other :: other in users && users[other].username == request.username {
        return Fail(TakenError(request.username));
      }
      if request.password.Some? && request.password.value != "" {
        user := user.(passwordHash := bcryptHash(request.password.value));
      }
      user := user.(firstName := request.firstName, lastName := request.lastName, username := request.username);
      UserTable.UpdateKeepsValid(users, id, request, bcryptHash);
      users := users[id := user];
      r := Pass;
    }

    /** The private lookup shared by GetById, Update and Delete. */
    method GetUser(id: int32) returns (r: Result<User, Exception>)
      ensures r == UserTable.GetUser(users, id)
    {
      if id in users {
        r := Success(users[id]);
      } else {
        r := Failure(UserNotFound);
      }
    }
  }
}
