/** JwtMiddleware: takes the token from the request's Authorization header,
    validates it, and attaches the user it names to the request's items before
    handing the request on. */
module RequestAuth {
  import opened Base
  import opened Entities
  import opened Jwt
  import Services

  /** The key under which the current user is stored in `HttpContext.Items`. */
  const UserItemKey := "User"

  /** `s.Split(sep)`: the pieces between separators, empty pieces included. */
  function Split(s: string, sep: char): (parts: seq<string>)
    ensures |parts| >= 1
    ensures forall i :: 0 <= i < |parts| ==> sep !in parts[i]
    decreases |s|
  {
    if s == [] then [""]
    else
      var init := Split(s[..|s| - 1], sep);
      var c := s[|s| - 1];
      if c == sep then init + [""]
      else init[..|init| - 1] + [init[|init| - 1] + [c]]
  }

  /** The pieces put back together with one separator between neighbours. */
  function Join(parts: seq<string>, sep: char): string
    decreases |parts|
  {
    if parts == [] then ""
    else if |parts| == 1 then parts[0]
    else Join(parts[..|parts| - 1], sep) + [sep] + parts[|parts| - 1]
  }

  /** Starting a new, empty last piece adds one separator. */
  lemma JoinNewPiece(parts: seq<string>, sep: char)
    requires |parts| >= 1
    ensures Join(parts + [""], sep) == Join(parts, sep) + [sep]
  {
    var longer := parts + [""];
    assert longer[..|longer| - 1] == parts;
  }

  /** Extending the last piece by a character extends the joined string by it. */
  lemma JoinExtendLast(parts: seq<string>, c: char, sep: char)
    requires |parts| >= 1
    ensures Join(parts[..|parts| - 1] + [parts[|parts| - 1] + [c]], sep) == Join(parts, sep) + [c]
  {
    var n := |parts|;
    var front := parts[..n - 1];
    var longer := front + [parts[n - 1] + [c]];
    if n > 1 {
      assert longer[..n - 1] == front;
      assert parts[..n - 1] == front;
    }
  }

  /** Splitting loses nothing: joining the pieces gives the string back. */
  lemma {:induction false} JoinSplit(s: string, sep: char)
    ensures Join(Split(s, sep), sep) == s
    decreases |s|
  {
    if s != [] {
      var s' := s[..|s| - 1];
      var c := s[|s| - 1];
      JoinSplit(s', sep);
      assert s == s' + [c];
      if c == sep {
        JoinNewPiece(Split(s', sep), sep);
      } else {
        JoinExtendLast(Split(s', sep), c, sep);
      }
    }
  }

  /** `.Split(" ").Last()`: the last space-separated piece. */
  function LastSegment(s: string): (segment: string)
    ensures ' ' !in segment
  {
    var parts := Split(s, ' ');
    parts[|parts| - 1]
  }

  /** The run of non-space characters at the end of `s`, read from the back: an
      independent definition of what LastSegment takes. */
  function FinalRun(s: string): (r: string)
    ensures ' ' !in r
    decreases |s|
  {
    if s == [] || s[|s| - 1] == ' ' then "" else FinalRun(s[..|s| - 1]) + [s[|s| - 1]]
  }

  /** LastSegment takes exactly the characters after the last space. */
  lemma {:induction false} LastSegmentIsFinalRun(s: string)
    ensures LastSegment(s) == FinalRun(s)
    decreases |s|
  {
    if s != [] {
      LastSegmentIsFinalRun(s[..|s| - 1]);
    }
  }

  /** After a space (or at the start), a space-free string is exactly the final run. */
  lemma {:induction false} FinalRunAfterSpace(p: string, t: string)
    requires ' ' !in t
    requires p == [] || p[|p| - 1] == ' '
    ensures FinalRun(p + t) == t
    decreases |t|
  {
    var s := p + t;
    if t == [] {
      assert s == p;
    } else {
      var t' := t[..|t| - 1];
      assert s[|s| - 1] == t[|t| - 1];
      assert s[..|s| - 1] == p + t';
      assert ' ' !in t' by {
        forall i | 0 <= i < |t'| ensures t'[i] != ' ' { assert t'[i] == t[i]; }
      }
      FinalRunAfterSpace(p, t');
      assert t == t' + [t[|t| - 1]];
    }
  }

  /** The token the middleware validates: the last space-separated piece of the first
      Authorization header value, or none when the header is absent. */
  function ExtractToken(authorization: seq<string>): (token: Option<string>)
    ensures token.None? <==> authorization == []
    ensures token.Some? ==> ' ' !in token.value
  {
    if authorization == [] then None else Some(LastSegment(authorization[0]))
  }

  /** The scheme word is not checked: "Bearer abc", "Basic abc" and "abc" all give "abc". */
  lemma SchemeIgnored(scheme: string, token: string, more: seq<string>)
    requires ' ' !in token && ' ' !in scheme
    ensures ExtractToken([scheme + " " + token] + more) == Some(token)
    ensures ExtractToken([token] + more) == Some(token)
  {
    LastSegmentIsFinalRun(scheme + " " + token);
    FinalRunAfterSpace(scheme + " ", token);
    LastSegmentIsFinalRun(token);
    FinalRunAfterSpace("", token);
    assert "" + token == token;
  }

  /** What the middleware does after attaching: hand the request on, or let the
      lookup's exception propagate (the next handler is then not called). */
  datatype Handoff = CallNext | Propagate(error: Exception)

  class HttpContext {
    /** The values of the request's Authorization header, in order; empty when absent. */
    const authorization: seq<string>
    /** `HttpContext.Items`, as far as user entries go. */
    var items: map<string, User>

    constructor (authorization: seq<string>)
      ensures this.authorization == authorization && items == map[]
    {
      this.authorization := authorization;
      items := map[];
    }
  }

  /** One pass of the middleware at time `now`. The user service is only read. */
  method Invoke(context: HttpContext, userService: Services.UserService, jwtUtilities: JwtUtilities, now: int)
    returns (h: Handoff)
    requires userService.Valid()
    modifies context
    ensures match jwtUtilities.ValidateToken(ExtractToken(context.authorization), now)
            case None => h == CallNext && context.items == old(context.items)
            case Some(id) =>
              if id in userService.users then
                h == CallNext && context.items == old(context.items)[UserItemKey := userService.users[id]]
              else
                h == Propagate(UserNotFound) && context.items == old(context.items)
  {
    var token := ExtractToken(context.authorization);
    var userId := jwtUtilities.ValidateToken(token, now);
    match userId {
      case None =>
        h := CallNext;
      case Some(id) =>
        var user := userService.GetById(id);
        match user {
          case Failure(e) =>
            h := Propagate(e);
          case Success(u) =>
            context.items := context.items[UserItemKey := u];
            h := CallNext;
        }
    }
  }
}
