/** Token issue and validation (JwtUtilities): a JSON Web Token (RFC 7519)
    signed with HMAC-SHA256 under a shared secret (RFC 7515, RFC 7518), kept
    abstract. The token text is produced and read by a `TokenCodec` whose
    serialisation and signature arithmetic are not modelled; a decoded token
    records the key its signature was made with. Times are whole seconds since
    the epoch, and the clock is a parameter. */
module Jwt {
  import opened Base
  import opened Entities
  import opened IntText

  /** The type of the one claim GenerateToken puts in the payload. */
  const IdClaimType := "id"

  const SecondsPerDay := 86400
  const ValidityDays := 7

  /** How long a generated token stays valid: seven days. */
  const Validity := ValidityDays * SecondsPerDay

  /** The grace period the validator allows around the lifetime: none. */
  const ClockSkew := 0

  /** `?`, which ASCII encoding writes for every character it cannot represent. */
  const AsciiReplacement: byte := 63

  datatype Claim = Claim(claimType: string, value: string)

  /** A decoded token: its claims, its registered claims (`None` when absent), and the
      key whose HMAC-SHA256 signature it carries (`None` for an unsigned token). */
  datatype SecurityToken = SecurityToken(
    claims: seq<Claim>,
    issuer: Option<string>,
    audience: Option<string>,
    notBefore: Option<int>,
    expires: Option<int>,
    signedWith: Option<seq<byte>>)

  /** Compact serialisation: `write` signs and encodes, `read` decodes a string
      (`None` for a malformed one). Both are library code. */
  datatype TokenCodec = TokenCodec(write: SecurityToken -> string, read: string -> Option<SecurityToken>)

  /** A codec reads back what it wrote. */
  ghost predicate Faithful(c: TokenCodec) {
    forall t :: c.read(c.write(t)) == Some(t)
  }

  /** A character of the compact serialisation: base64url or the dot between parts. */
  predicate IsCompactChar(ch: char) {
    'A' <= ch <= 'Z' || 'a' <= ch <= 'z' || '0' <= ch <= '9' || ch == '-' || ch == '_' || ch == '.'
  }

  /** The shape of a compact JWS (RFC 7515, section 7.1): base64url parts joined by dots. */
  predicate IsCompact(s: string) {
    '.' in s && forall i :: 0 <= i < |s| ==> IsCompactChar(s[i])
  }

  /** A codec writes every token in the compact serialisation. */
  ghost predicate Compact(c: TokenCodec) {
    forall t :: IsCompact(c.write(t))
  }

  /** `char.IsWhiteSpace`: the Unicode space, line and paragraph separators, and the
      controls U+0009 to U+000D and U+0085. */
  predicate IsWhiteSpace(ch: char) {
    || ch == ' ' || '\t' <= ch <= '\r' || ch == '\U{85}' || ch == '\U{A0}' || ch == '\U{1680}'
    || '\U{2000}' <= ch <= '\U{200A}' || ch == '\U{2028}' || ch == '\U{2029}' || ch == '\U{202F}'
    || ch == '\U{205F}' || ch == '\U{3000}'
  }

  /** `string.IsNullOrWhiteSpace` of a present string: the token handler refuses such a token. */
  predicate IsBlank(s: string) {
    forall i :: 0 <= i < |s| ==> IsWhiteSpace(s[i])
  }

  /** A compact token is neither blank nor holds a space. */
  lemma CompactIsNotBlank(s: string)
    ensures IsCompact(s) ==> !IsBlank(s) && ' ' !in s
  {
    if IsCompact(s) {
      var i :| 0 <= i < |s| && s[i] == '.';
      assert !IsWhiteSpace(s[i]);
    }
  }

  function AsciiByte(c: char): byte {
    if c as int < 128 then c as int as byte else AsciiReplacement
  }

  /** `Encoding.ASCII.GetBytes(s)`: one byte per character, `?` for non-ASCII ones. */
  function AsciiBytes(s: string): (b: seq<byte>)
    ensures |b| == |s|
    ensures forall i :: 0 <= i < |s| && s[i] as int < 128 ==> b[i] as int == s[i] as int
    ensures forall i :: 0 <= i < |s| && s[i] as int >= 128 ==> b[i] == AsciiReplacement
  {
    seq(|s|, i requires 0 <= i < |s| => AsciiByte(s[i]))
  }

  /** The value of the first claim of type "id", if any (`Claims.First`). */
  function IdClaim(claims: seq<Claim>): (r: Option<string>)
    ensures r.None? <==> forall i :: 0 <= i < |claims| ==> claims[i].claimType != IdClaimType
    ensures r.Some? ==> exists i :: 0 <= i < |claims| && claims[i] == Claim(IdClaimType, r.value)
                          && forall j :: 0 <= j < i ==> claims[j].claimType != IdClaimType
  {
    if claims == [] then None
    else if claims[0].claimType == IdClaimType then Some(claims[0].value)
    else IdClaim(claims[1..])
  }

  /** The block size of SHA-256, which HMAC pads its key to (RFC 2104, section 2). */
  const HmacBlockSize := 64

  function Zeros(n: nat): (z: seq<byte>)
    ensures |z| == n && forall i :: 0 <= i < n ==> z[i] == 0
  {
    seq(n, _ => 0)
  }

  /** The key as HMAC-SHA256 uses it: a key of at most 64 bytes is padded with zero
      bytes to 64. A longer key is first hashed with SHA-256; that hash is taken to be
      collision-free, so a long key stands for itself. */
  function KeyBlock(key: seq<byte>): (block: seq<byte>)
    ensures |key| <= HmacBlockSize ==> |block| == HmacBlockSize && block[..|key|] == key
    ensures |key| > HmacBlockSize ==> block == key
  {
    if |key| <= HmacBlockSize then key + Zeros(HmacBlockSize - |key|) else key
  }

  /** Whether two keys make the same HMAC-SHA256 signatures. Identical keys do, and
      two different keys of the same length never do. */
  predicate SameHmacKey(a: seq<byte>, b: seq<byte>): (same: bool)
    ensures a == b ==> same
    ensures same && |a| == |b| ==> a == b
  {
    KeyBlock(a) == KeyBlock(b)
  }

  /** Appending zero bytes to a short key does not change the signatures it makes. */
  lemma ZeroPaddingSameKey(key: seq<byte>, n: nat)
    requires |key| + n <= HmacBlockSize
    ensures SameHmacKey(key, key + Zeros(n))
  {
    var longer := key + Zeros(n);
    assert KeyBlock(longer) == key + Zeros(n) + Zeros(HmacBlockSize - |longer|);
    assert key + Zeros(n) + Zeros(HmacBlockSize - |longer|) == key + Zeros(HmacBlockSize - |key|);
  }

  /** The signature check: the token must be signed, with a key HMAC-SHA256 treats as
      this one. */
  predicate SignedWith(t: SecurityToken, key: seq<byte>): (signed: bool)
    ensures t.signedWith == Some(key) ==> signed
    ensures signed ==> t.signedWith.Some?
    ensures signed && |t.signedWith.value| == |key| ==> t.signedWith == Some(key)
  {
    t.signedWith.Some? && SameHmacKey(t.signedWith.value, key)
  }

  /** The lifetime check with the validator's defaults: an expiry is required, the
      not-before instant may not follow it, the token may not be used before its
      not-before instant, and it is expired once the expiry lies in the past; each
      comparison widened by `ClockSkew`. */
  predicate LifetimeValid(t: SecurityToken, now: int): (live: bool)
    ensures live ==> t.expires.Some? && now <= t.expires.value
    ensures t.notBefore.Some? && t.expires.Some? && t.notBefore.value <= t.expires.value ==>
      (live <==> t.notBefore.value <= now <= t.expires.value)
  {
    && t.expires.Some?
    && (t.notBefore.Some? ==> t.notBefore.value <= t.expires.value)
    && (t.notBefore.Some? ==> t.notBefore.value <= now + ClockSkew)
    && now - ClockSkew <= t.expires.value
  }

  /** The token utilities, configured with the server's secret. */
  datatype JwtUtilities = JwtUtilities(secret: string, codec: TokenCodec) {

    /** The signing key: the ASCII bytes of the secret. */
    function Key(): (key: seq<byte>)
      ensures |key| == |secret|
      ensures forall i :: 0 <= i < |secret| && secret[i] as int < 128 ==> key[i] as int == secret[i] as int
    {
      AsciiBytes(secret)
    }

    /** The token GenerateToken signs at time `now` for `user`. */
    function Issue(user: User, now: int): (t: SecurityToken)
      ensures IdClaim(t.claims) == Some(Int32ToString(user.id))
      ensures t.expires == Some(now + 7 * 24 * 60 * 60)
      ensures SignedWith(t, Key())
    {
      SecurityToken([Claim(IdClaimType, Int32ToString(user.id))], None, None, Some(now), Some(now + Validity), Some(Key()))
    }

    /** The token text; a faithful codec reads it back as the issued token, and a
        compact one writes it without spaces. */
    function GenerateToken(user: User, now: int): (token: string)
      ensures Faithful(codec) ==> codec.read(token) == Some(Issue(user, now))
      ensures Compact(codec) ==> ' ' !in token && !IsBlank(token)
    {
      var token := codec.write(Issue(user, now));
      CompactIsNotBlank(token);
      token
    }

    /** The user id a token carries, or `None` when the token is absent, blank,
        malformed, wrongly signed, outside its lifetime, or has no readable id claim. */
    function ValidateToken(token: Option<string>, now: int): (r: Option<int32>)
      ensures token.None? ==> r.None?
      ensures token.Some? && IsBlank(token.value) ==> r.None?
    {
      if token.None? || IsBlank(token.value) then None
      else match codec.read(token.value)
        case None => None
        case Some(t) =>
          if !SignedWith(t, Key()) || !LifetimeValid(t, now) then None
          else match IdClaim(t.claims)
            case None => None
            case Some(v) => ParseInt32(v)
    }
  }

  /** Validation fails closed: an id comes back only from a well-formed token that is
      signed with the server's key, within its lifetime, and carries an id claim
      that parses to that id. */
  lemma ValidateFailsClosed(jwt: JwtUtilities, token: Option<string>, now: int)
    ensures jwt.ValidateToken(token, now).Some? ==>
      && token.Some?
      && jwt.codec.read(token.value).Some?
      && var t := jwt.codec.read(token.value).value;
      && SignedWith(t, jwt.Key())
      && LifetimeValid(t, now)
      && IdClaim(t.claims).Some?
      && ParseInt32(IdClaim(t.claims).value) == jwt.ValidateToken(token, now)
  {
  }

  /** A token signed with another key, or not signed, is rejected. */
  lemma WrongSignatureRejected(jwt: JwtUtilities, s: string, t: SecurityToken, now: int)
    requires jwt.codec.read(s) == Some(t)
    requires !SignedWith(t, jwt.Key())
    ensures jwt.ValidateToken(Some(s), now) == None
  {
  }

  /** An expired token is rejected, whatever its signature: no grace period. */
  lemma ExpiredRejected(jwt: JwtUtilities, s: string, t: SecurityToken, now: int)
    requires jwt.codec.read(s) == Some(t)
    requires t.expires.Some? && t.expires.value < now
    ensures jwt.ValidateToken(Some(s), now) == None
  {
  }

  /** A token with no id claim, or one whose id claim is not a 32-bit decimal, is rejected. */
  lemma BadIdClaimRejected(jwt: JwtUtilities, s: string, t: SecurityToken, now: int)
    requires jwt.codec.read(s) == Some(t)
    requires IdClaim(t.claims).None? || ParseInt32(IdClaim(t.claims).value).None?
    ensures jwt.ValidateToken(Some(s), now) == None
  {
  }

  /** A present, non-blank token that decodes to `t` validates to what `t` carries. */
  lemma ValidateDecoded(jwt: JwtUtilities, s: string, t: SecurityToken, now: int)
    requires !IsBlank(s) && jwt.codec.read(s) == Some(t)
    ensures jwt.ValidateToken(Some(s), now)
         == if SignedWith(t, jwt.Key()) && LifetimeValid(t, now) && IdClaim(t.claims).Some?
            then ParseInt32(IdClaim(t.claims).value) else None
  {
  }

  /** Issuer and audience are not checked: changing them does not change the outcome. */
  lemma IssuerAndAudienceIgnored(jwt: JwtUtilities, t: SecurityToken, iss: Option<string>, aud: Option<string>, now: int)
    requires Faithful(jwt.codec) && Compact(jwt.codec)
    ensures jwt.ValidateToken(Some(jwt.codec.write(t)), now)
         == jwt.ValidateToken(Some(jwt.codec.write(t.(issuer := iss, audience := aud))), now)
  {
    var t' := t.(issuer := iss, audience := aud);
    var s, s' := jwt.codec.write(t), jwt.codec.write(t');
    CompactIsNotBlank(s);
    CompactIsNotBlank(s');
    ValidateDecoded(jwt, s, t, now);
    ValidateDecoded(jwt, s', t', now);
  }

  /** A generated token validates, under the same secret, to the user's id exactly
      from its issue instant up to and including its expiry seven days later, and
      to nothing outside that window. */
  lemma GenerateThenValidate(jwt: JwtUtilities, user: User, issuedAt: int, now: int)
    requires Faithful(jwt.codec) && Compact(jwt.codec)
    ensures jwt.ValidateToken(Some(jwt.GenerateToken(user, issuedAt)), now)
         == if issuedAt <= now <= issuedAt + Validity then Some(user.id) else None
  {
    var t := jwt.Issue(user, issuedAt);
    var token := jwt.GenerateToken(user, issuedAt);
    assert !IsBlank(token) && jwt.codec.read(token) == Some(t);
    assert SignedWith(t, jwt.Key());
    assert LifetimeValid(t, now) <==> issuedAt <= now <= issuedAt + Validity;
    ParseOfToString(user.id);
  }

  /** A token generated under one secret is rejected under a secret whose key HMAC-SHA256
      does not treat as the same; in particular under any other secret of the same length
      with other ASCII bytes. */
  lemma OtherSecretRejected(issuer: JwtUtilities, validator: JwtUtilities, user: User, issuedAt: int, now: int)
    requires issuer.codec == validator.codec && Faithful(issuer.codec)
    requires !SameHmacKey(issuer.Key(), validator.Key())
    ensures validator.ValidateToken(Some(issuer.GenerateToken(user, issuedAt)), now) == None
  {
  }

  /** NUL characters after a secret add zero bytes after its key. */
  lemma NulPaddedKey(secret: string, n: nat)
    ensures AsciiBytes(secret + seq(n, _ => '\0')) == AsciiBytes(secret) + Zeros(n)
  {
    var padded := secret + seq(n, _ => '\0');
    assert forall i :: |secret| <= i < |padded| ==> padded[i] == '\0';
  }

  /** A secret followed by NUL characters, up to the 64-byte block, validates the tokens
      of the bare secret: HMAC pads the shorter key with zero bytes to the same block. */
  lemma NulPaddedSecretAccepted(jwt: JwtUtilities, user: User, issuedAt: int, now: int, n: nat)
    requires Faithful(jwt.codec) && Compact(jwt.codec)
    requires |jwt.secret| + n <= HmacBlockSize
    requires issuedAt <= now <= issuedAt + Validity
    ensures jwt.(secret := jwt.secret + seq(n, _ => '\0')).ValidateToken(Some(jwt.GenerateToken(user, issuedAt)), now)
         == Some(user.id)
  {
    var padded := jwt.(secret := jwt.secret + seq(n, _ => '\0'));
    NulPaddedKey(jwt.secret, n);
    ZeroPaddingSameKey(jwt.Key(), n);
    assert SameHmacKey(jwt.Key(), padded.Key());
    var t := jwt.Issue(user, issuedAt);
    var token := jwt.GenerateToken(user, issuedAt);
    assert !IsBlank(token) && padded.codec.read(token) == Some(t);
    assert SignedWith(t, padded.Key());
    GenerateThenValidate(jwt, user, issuedAt, now);
    assert padded.ValidateToken(Some(token), now) == jwt.ValidateToken(Some(token), now);
  }

  /** Secrets that differ only in which non-ASCII characters they hold give the same
      signing key. */
  lemma NonAsciiSecretsShareKey(a: string, b: string)
    requires |a| == |b|
    requires forall i :: 0 <= i < |a| ==> a[i] == b[i] || (a[i] as int >= 128 && b[i] as int >= 128)
    ensures AsciiBytes(a) == AsciiBytes(b)
  {
  }
}
