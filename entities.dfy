/** The records the account flow works on: the stored user, the request and
    response shapes, the exceptions the service throws, and the password hasher
    it is given. */
module Entities {
  import opened Base

  /** A stored account. `passwordHash` is never sent to clients. */
  datatype User = User(
    id: int32,
    firstName: string,
    lastName: string,
    username: string,
    passwordHash: string)

  datatype AuthenticateRequest = AuthenticateRequest(username: string, password: string)

  datatype RegisterRequest = RegisterRequest(
    firstName: string,
    lastName: string,
    username: string,
    password: string)

  /** The password of an update is optional: `None` stands for a null password. */
  datatype UpdateRequest = UpdateRequest(
    firstName: string,
    lastName: string,
    username: string,
    password: Option<string>)

  /** The user's public fields plus the freshly issued token. */
  datatype AuthenticateResponse = AuthenticateResponse(
    firstName: string,
    lastName: string,
    username: string,
    token: string)

  /** The run-time type of a thrown exception, as far as the error handler can tell them apart. */
  datatype ExceptionKind =
    | AppException                 // the application's own "bad request" exception
    | KeyNotFoundException         // System.Collections.Generic.KeyNotFoundException
    | ApplicationException         // System.ApplicationException
    | InvalidOperationException    // System.InvalidOperationException
    | PlainException               // System.Exception itself
    | OtherException(typeName: string)

  datatype Exception = Exception(kind: ExceptionKind, message: string)

  /** Thrown by Authenticate for an unknown username and for a wrong password alike. */
  const BadCredentials := Exception(PlainException, "Username or password is incorrect.")

  /** Thrown when a user id is not in the table. */
  const UserNotFound := Exception(KeyNotFoundException, "User not found.")

  /** Thrown by SingleOrDefault when more than one row matches. */
  const MoreThanOneMatch := Exception(InvalidOperationException, "Sequence contains more than one matching element")

  /** Thrown by Register and Update when the username belongs to someone. */
  function TakenError(username: string): Exception {
    Exception(ApplicationException, "Username " + username + " is already taken.")
  }

  /** The injected password hasher: a one-way hash and its verifier, both foreign code. */
  datatype Hasher = Hasher(hashPassword: string -> string, verify: (string, string) -> bool)

  /** What a working hasher promises: a password verifies against its own hash. */
  ghost predicate Sound(h: Hasher) {
    forall p :: h.verify(p, h.hashPassword(p))
  }

  /** A hasher whose verifier also accepts the hashes produced by `hash`. */
  ghost predicate Accepts(h: Hasher, hash: string -> string) {
    forall p :: h.verify(p, hash(p))
  }
}
