/** Authentication: password hashing and checking, token issuance, the
    parsing of the `Authorization: Bearer <token>` header (section 2.1 of
    RFC 6750) and the middleware that guards the todo routes. Argon2, the
    JWT library, the environment and the clock are inputs. */
module Auth {
  import opened Base
  import opened Uuids
  import opened Http

  // ---------------------------------------------------------------------
  // The Authorization header

  /** Position of the first `c` in `s`, if any. */
  function FirstIndexOf(s: string, c: char): (r: Option<nat>)
    ensures r.None? <==> c !in s
    ensures r.Some? ==> r.value < |s| && s[r.value] == c && c !in s[..r.value]
  {
    if s == [] then None
    else if s[0] == c then Some(0)
    else match FirstIndexOf(s[1..], c)
      case None => None
      case Some(i) =>
        assert s[..i + 1] == [s[0]] + s[1..][..i];
        Some(i + 1)
  }

  /** `s.splitn(2, sep)` collected: the whole of `s` when it holds no `sep`,
      otherwise the text before the first `sep` and everything after it. */
  function SplitOnce(s: string, sep: char): (parts: seq<string>)
    ensures |parts| == 1 || |parts| == 2
    ensures |parts| == 1 <==> sep !in s
    ensures |parts| == 1 ==> parts[0] == s
    ensures |parts| == 2 ==> s == parts[0] + [sep] + parts[1] && sep !in parts[0]
  {
    match FirstIndexOf(s, sep)
    case None => [s]
    case Some(i) =>
      assert s == s[..i] + [sep] + s[i + 1..];
      [s[..i], s[i + 1..]]
  }

  /** Splitting at the first separator undoes joining a separator-free
      prefix to any rest. */
  lemma SplitOnceJoin(prefix: string, sep: char, rest: string)
    requires sep !in prefix
    ensures SplitOnce(prefix + [sep] + rest, sep) == [prefix, rest]
  {
    var s := prefix + [sep] + rest;
    assert s[|prefix|] == sep;
    var parts := SplitOnce(s, sep);
    assert |parts[0]| == |prefix| by {
      assert s[|parts[0]|] == sep;
    }
    assert parts[0] == s[..|prefix|] == prefix;
    assert parts[1] == s[|prefix| + 1..] == rest;
  }

  /** `char::to_ascii_lowercase`. */
  function AsciiLower(c: char): char {
    if 'A' <= c <= 'Z' then (c as int + 32) as char else c
  }

  /** `str::eq_ignore_ascii_case`. */
  predicate EqIgnoreAsciiCase(a: string, b: string) {
    |a| == |b| && forall i :: 0 <= i < |a| ==> AsciiLower(a[i]) == AsciiLower(b[i])
  }

  /** The authentication scheme, compared without regard to ASCII case
      (section 2.1 of RFC 7235). */
  const BearerScheme := "bearer"

  lemma BearerSchemeHasNoSpace(scheme: string)
    requires EqIgnoreAsciiCase(scheme, BearerScheme)
    ensures ' ' !in scheme
  {
    forall i | 0 <= i < |scheme| ensures scheme[i] != ' ' {
      assert AsciiLower(scheme[i]) == AsciiLower(BearerScheme[i]);
      assert 'a' <= BearerScheme[i] <= 'z';
    }
  }

  /** The shape `ParseBearer` accepts: a six-letter scheme equal to
      `bearer` up to ASCII case, one space, then any token. */
  predicate BearerForm(value: string) {
    |value| > 6 && value[6] == ' ' && EqIgnoreAsciiCase(value[..6], BearerScheme)
  }

  /** The token of an `Authorization` value: split at the first space, the
      scheme before it must be `bearer` in any case, and the token is the
      whole rest, empty or with further spaces. */
  function ParseBearer(value: string): Option<string> {
    var parts := SplitOnce(value, ' ');
    if |parts| == 2 && EqIgnoreAsciiCase(parts[0], BearerScheme) then Some(parts[1]) else None
  }

  /** Generic scheme/token round trip: a space-free scheme followed by a
      space and a token parses to that token exactly when the scheme is
      `bearer`. */
  lemma ParseBearerJoin(scheme: string, token: string)
    requires ' ' !in scheme
    ensures ParseBearer(scheme + " " + token) ==
      if EqIgnoreAsciiCase(scheme, BearerScheme) then Some(token) else None
  {
    SplitOnceJoin(scheme, ' ', token);
  }

  /** Any scheme equal to `bearer` under ASCII case folding, joined by a
      space to any token, parses back to that token. */
  lemma ParseBearerRoundTrip(scheme: string, token: string)
    requires EqIgnoreAsciiCase(scheme, BearerScheme)
    ensures ParseBearer(scheme + " " + token) == Some(token)
  {
    BearerSchemeHasNoSpace(scheme);
    ParseBearerJoin(scheme, token);
  }

  /** Any other scheme is refused, whatever the token. */
  lemma ParseBearerOtherScheme(scheme: string, token: string)
    requires ' ' !in scheme && !EqIgnoreAsciiCase(scheme, BearerScheme)
    ensures ParseBearer(scheme + " " + token) == None
  {
    ParseBearerJoin(scheme, token);
  }

  /** A value with no space has no token. */
  lemma ParseBearerNoSpace(value: string)
    requires ' ' !in value
    ensures ParseBearer(value) == None
  {
  }

  lemma ParseBearerAcceptsOnlyForm(value: string)
    ensures ParseBearer(value).Some? ==> BearerForm(value)
  {
    var parts := SplitOnce(value, ' ');
    if |parts| == 2 && EqIgnoreAsciiCase(parts[0], BearerScheme) {
      assert value == parts[0] + " " + parts[1];
      assert value[..6] == parts[0];
    }
  }

  /** `ParseBearer` accepts exactly `BearerForm` and then returns everything
      after the seventh character. */
  lemma ParseBearerCharacterized(value: string)
    ensures ParseBearer(value) == if BearerForm(value) then Some(value[7..]) else None
  {
    if BearerForm(value) {
      assert value == value[..6] + " " + value[7..];
      ParseBearerRoundTrip(value[..6], value[7..]);
    } else {
      ParseBearerAcceptsOnlyForm(value);
    }
  }

  /** `Bearer` is the scheme in another case. */
  lemma CapitalizedBearerIsBearer()
    ensures EqIgnoreAsciiCase("Bearer", BearerScheme)
  {
    assert AsciiLower('B') == 'b';
    assert forall i | 1 <= i < 6 :: "Bearer"[i] == BearerScheme[i];
  }

  /** The token may be empty or begin with a space: everything after the
      first space is kept. */
  lemma ParseBearerEdgeTokens()
    ensures ParseBearer("Bearer ") == Some("")
    ensures ParseBearer("Bearer  x") == Some(" x")
  {
    CapitalizedBearerIsBearer();
    ParseBearerRoundTrip("Bearer", "");
    assert "Bearer" + " " + "" == "Bearer ";
    ParseBearerRoundTrip("Bearer", " x");
    assert "Bearer" + " " + " x" == "Bearer  x";
  }

  /** The scheme is matched in any case. */
  lemma ParseBearerMixedCase()
    ensures ParseBearer("bEaReR abc.def") == Some("abc.def")
  {
    assert AsciiLower('E') == 'e' && AsciiLower('R') == 'r';
    assert forall i | 0 <= i < 6 :: AsciiLower("bEaReR"[i]) == BearerScheme[i];
    ParseBearerRoundTrip("bEaReR", "abc.def");
    assert "bEaReR" + " " + "abc.def" == "bEaReR abc.def";
  }

  /** Another scheme, or a bare scheme, gives no token. */
  lemma ParseBearerOtherForms()
    ensures ParseBearer("Basic dXNlcjpwdw==") == None
    ensures ParseBearer("Bearer") == None
  {
    ParseBearerCharacterized("Basic dXNlcjpwdw==");
    ParseBearerNoSpace("Bearer");
  }

  /** `extract_bearer_token`: no header, a header that is not visible ASCII
      text, or a value `ParseBearer` refuses give nothing. */
  function ExtractBearerToken(header: Option<seq<byte>>): Option<string> {
    match header
    case None => None
    case Some(h) =>
      match HeaderToStr(h)
      case None => None
      case Some(value) => ParseBearer(value)
  }

  /** A token comes out exactly when the header is present, is visible
      ASCII and has the bearer form; it is the text after `Bearer `. */
  lemma ExtractBearerTokenCharacterized(header: Option<seq<byte>>)
    ensures ExtractBearerToken(header) ==
      if header.Some? && AllVisibleAscii(header.value) && BearerForm(Chars(header.value))
      then Some(Chars(header.value)[7..]) else None
  {
    if header.Some? && AllVisibleAscii(header.value) {
      ParseBearerCharacterized(Chars(header.value));
    }
  }

  /** A missing header and one `to_str` refuses yield no token. */
  lemma ExtractBearerTokenRejectsUnreadable(header: Option<seq<byte>>)
    ensures header.None? ==> ExtractBearerToken(header) == None
    ensures header.Some? && !AllVisibleAscii(header.value) ==> ExtractBearerToken(header) == None
  {
  }

  /** Header round trip: the octets of `scheme + " " + token`, for a bearer
      scheme and visible-ASCII text, give back the token. */
  lemma ExtractBearerTokenRoundTrip(scheme: string, token: string)
    requires EqIgnoreAsciiCase(scheme, BearerScheme)
    requires VisibleAsciiText(scheme + " " + token)
    ensures ExtractBearerToken(Some(HeaderValueOf(scheme + " " + token))) == Some(token)
  {
    ParseBearerRoundTrip(scheme, token);
  }

  // ---------------------------------------------------------------------
  // Passwords

  /** The Argon2 library as seen by the service: `hash(password, salt)`
      gives a PHC hash string, `parses(h)` says whether `PasswordHash::new`
      accepts `h`, and `verify(password, h)` is the check against a parsed
      hash. */
  datatype Argon2 = Argon2(
    hash: (string, string) -> string,
    parses: string -> bool,
    verify: (string, string) -> bool)

  /** The one salt every call of `hash_password` uses. */
  const FixedSalt := "randomsalt"

  /** `hash_password`: Argon2 with default parameters and the fixed salt. */
  function HashPassword(argon: Argon2, password: string): string {
    argon.hash(password, FixedSalt)
  }

  /** `verify_password`: a stored hash that does not parse is a plain `false`. */
  function VerifyPassword(argon: Argon2, hash: string, password: string): (ok: bool)
    ensures !argon.parses(hash) ==> !ok
    ensures ok ==> argon.verify(password, hash)
  {
    if !argon.parses(hash) then false else argon.verify(password, hash)
  }

  /** A password checks against its own hash whenever Argon2 itself parses
      and accepts the hash it produced. */
  lemma VerifyHashedPassword(argon: Argon2, password: string)
    requires argon.parses(HashPassword(argon, password))
    requires argon.verify(password, HashPassword(argon, password))
    ensures VerifyPassword(argon, HashPassword(argon, password), password)
  {
  }

  // ---------------------------------------------------------------------
  // Tokens

  /** The process environment. */
  type Env = map<string, string>

  const JwtSecretVar := "JWT_SECRET"

  /** `std::env::var`. */
  function EnvVar(env: Env, name: string): Option<string> {
    if name in env then Some(env[name]) else None
  }

  /** The JWT claims: the subject and the expiry in seconds since the epoch. */
  datatype Claims = Claims(sub: string, exp: Usize)

  /** The JWT library with the default HS256 header: `encode(claims, secret)`
      signs, `verify(token, secret)` checks structure, algorithm and
      signature and gives back the claims, but does no time checks. */
  datatype JwtCodec = JwtCodec(
    encode: (Claims, string) -> string,
    verify: (string, string) -> Option<Claims>)

  /** The claim checks of `jsonwebtoken::Validation` that concern this
      service: whether `exp` is checked, and with what leeway in seconds. */
  datatype Validation = Validation(validateExp: bool, leeway: nat)

  /** `Validation::default()`: `exp` is checked with a leeway of 60 seconds. */
  const DefaultValidation := Validation(true, 60)

  /** `jsonwebtoken::decode`: a token whose signature checks is still
      refused when its `exp` (section 4.1.4 of RFC 7519) lies more than the
      leeway in the past. */
  function Decode(codec: JwtCodec, token: string, secret: string, validation: Validation, now: nat): (r: Option<Claims>)
    ensures r.Some? ==> codec.verify(token, secret) == r
    ensures r.Some? && validation.validateExp ==> now <= r.value.exp + validation.leeway
    ensures (codec.verify(token, secret).Some? &&
             (!validation.validateExp || now <= codec.verify(token, secret).value.exp + validation.leeway))
            ==> r.Some?
  {
    match codec.verify(token, secret)
    case None => None
    case Some(claims) =>
      if validation.validateExp && claims.exp < now - validation.leeway then None else Some(claims)
  }

  /** A token lives one day. */
  const TokenLifetime := 60 * 60 * 24

  /** The claims `generate_jwt` signs for `userId` at time `now`; `now` is a
      nonnegative `i64` timestamp, so the `usize` arithmetic cannot wrap. */
  function IssueClaims(userId: Uuid, now: int): Claims
    requires 0 <= now < I64Bound
  {
    Claims(ToString(userId), now + TokenLifetime)
  }

  /** The subject names the user, and reads back as that user; the expiry
      is one day after issuance. */
  lemma IssuedClaimsNameUser(userId: Uuid, now: int)
    requires 0 <= now < I64Bound
    ensures IssueClaims(userId, now).sub == ToString(userId)
    ensures ParseHyphenated(IssueClaims(userId, now).sub) == Some(userId)
    ensures IssueClaims(userId, now).exp == now + 86400
  {
    ParseToString(userId);
  }

  /** `generate_jwt`: `None` stands for the panic when `JWT_SECRET` is not set. */
  function GenerateJwt(codec: JwtCodec, env: Env, userId: Uuid, now: int): (r: Option<string>)
    requires 0 <= now < I64Bound
    ensures r.None? <==> JwtSecretVar !in env
    ensures r.Some? ==> r.value == codec.encode(IssueClaims(userId, now), env[JwtSecretVar])
  {
    match EnvVar(env, JwtSecretVar)
    case None => None
    case Some(secret) => Some(codec.encode(IssueClaims(userId, now), secret))
  }

  /** Given a signature that verifies, an issued token is accepted exactly
      until one day plus the leeway after issuance, and yields its claims. */
  lemma IssuedTokenLifetime(codec: JwtCodec, secret: string, userId: Uuid, issuedAt: int, now: nat)
    requires 0 <= issuedAt < I64Bound
    requires codec.verify(codec.encode(IssueClaims(userId, issuedAt), secret), secret) == Some(IssueClaims(userId, issuedAt))
    ensures var r := Decode(codec, codec.encode(IssueClaims(userId, issuedAt), secret), secret, DefaultValidation, now);
      (r.Some? <==> now <= issuedAt + TokenLifetime + DefaultValidation.leeway) &&
      (r.Some? ==> r.value == IssueClaims(userId, issuedAt))
  {
  }

  /** A token past its expiry and leeway is refused whatever its signature. */
  lemma ExpiredTokenRefused(codec: JwtCodec, token: string, secret: string, now: nat)
    requires codec.verify(token, secret).Some?
    requires codec.verify(token, secret).value.exp + DefaultValidation.leeway < now
    ensures Decode(codec, token, secret, DefaultValidation, now) == None
  {
  }

  // ---------------------------------------------------------------------
  // The middleware

  /** What the middleware decides for a request: answer with a bare status,
      or pass the request on with the authenticated user's id. */
  datatype Decision = Reject(status: int) | Forward(userId: Uuid)

  /** The middleware's decision chain: header, then secret, then decoding,
      then the subject; each step that fails ends the chain. `parseUuid`
      stands for `Uuid::parse_str`. */
  function Authorize(header: Option<seq<byte>>, env: Env, codec: JwtCodec,
                     parseUuid: string -> Option<Uuid>, now: nat): (d: Decision)
    ensures d.Reject? ==> d.status == StatusUnauthorized || d.status == StatusInternalServerError
  {
    match ExtractBearerToken(header)
    case None => Reject(StatusUnauthorized)
    case Some(token) =>
      match EnvVar(env, JwtSecretVar)
      case None => Reject(StatusInternalServerError)
      case Some(secret) =>
        match Decode(codec, token, secret, DefaultValidation, now)
        case None => Reject(StatusUnauthorized)
        case Some(claims) =>
          match parseUuid(claims.sub)
          case None => Reject(StatusUnauthorized)
          case Some(userId) => Forward(userId)
  }

  /** A missing or non-bearer header is refused with 401 before the secret
      is looked at: the environment and the token library play no part. */
  lemma AuthorizeChecksHeaderFirst(header: Option<seq<byte>>, env1: Env, env2: Env,
                                   codec1: JwtCodec, codec2: JwtCodec,
                                   parse1: string -> Option<Uuid>, parse2: string -> Option<Uuid>,
                                   now1: nat, now2: nat)
    requires ExtractBearerToken(header).None?
    ensures Authorize(header, env1, codec1, parse1, now1) == Reject(StatusUnauthorized)
    ensures Authorize(header, env1, codec1, parse1, now1) == Authorize(header, env2, codec2, parse2, now2)
  {
  }

  /** With a bearer token present and no secret configured the answer is 500. */
  lemma AuthorizeNeedsSecret(header: Option<seq<byte>>, env: Env, codec: JwtCodec,
                             parseUuid: string -> Option<Uuid>, now: nat)
    requires ExtractBearerToken(header).Some? && JwtSecretVar !in env
    ensures Authorize(header, env, codec, parseUuid, now) == Reject(StatusInternalServerError)
  {
  }

  /** A token that does not decode, or whose subject is not a UUID, is
      refused with 401. */
  lemma AuthorizeRefusesBadToken(header: Option<seq<byte>>, env: Env, codec: JwtCodec,
                                 parseUuid: string -> Option<Uuid>, now: nat)
    requires ExtractBearerToken(header).Some? && JwtSecretVar in env
    ensures var claims := Decode(codec, ExtractBearerToken(header).value, env[JwtSecretVar], DefaultValidation, now);
      (claims.None? || parseUuid(claims.value.sub).None?) ==>
        Authorize(header, env, codec, parseUuid, now) == Reject(StatusUnauthorized)
  {
  }

  /** The request goes on exactly when every step succeeds, and then with
      the UUID parsed from the decoded subject. */
  lemma AuthorizeForwardsSubject(header: Option<seq<byte>>, env: Env, codec: JwtCodec,
                                 parseUuid: string -> Option<Uuid>, now: nat, userId: Uuid)
    ensures Authorize(header, env, codec, parseUuid, now) == Forward(userId) <==>
      ExtractBearerToken(header).Some? && JwtSecretVar in env &&
      var claims := Decode(codec, ExtractBearerToken(header).value, env[JwtSecretVar], DefaultValidation, now);
      claims.Some? && parseUuid(claims.value.sub) == Some(userId)
  {
  }

  /** End to end: a token `generate_jwt` issued, sent back as
      `Bearer <token>` within its lifetime, lets the request through as the
      same user, provided the signature verifies under the same secret and
      `Uuid::parse_str` agrees with the reference reader wherever that
      reader accepts. */
  lemma IssuedTokenAuthenticates(codec: JwtCodec, env: Env, parseUuid: string -> Option<Uuid>,
                                 userId: Uuid, issuedAt: int, now: nat)
    requires 0 <= issuedAt < I64Bound
    requires JwtSecretVar in env
    requires now <= issuedAt + TokenLifetime + DefaultValidation.leeway
    requires VisibleAsciiText(codec.encode(IssueClaims(userId, issuedAt), env[JwtSecretVar]))
    requires codec.verify(codec.encode(IssueClaims(userId, issuedAt), env[JwtSecretVar]), env[JwtSecretVar])
      == Some(IssueClaims(userId, issuedAt))
    requires forall s :: ParseHyphenated(s).Some? ==> parseUuid(s) == ParseHyphenated(s)
    ensures GenerateJwt(codec, env, userId, issuedAt).Some?
    ensures VisibleAsciiText("Bearer " + GenerateJwt(codec, env, userId, issuedAt).value)
    ensures Authorize(Some(HeaderValueOf("Bearer " + GenerateJwt(codec, env, userId, issuedAt).value)),
                      env, codec, parseUuid, now) == Forward(userId)
  {
    var token := GenerateJwt(codec, env, userId, issuedAt).value;
    var text := "Bearer " + token;
    assert text == "Bearer" + " " + token;
    assert VisibleAsciiText(text) by {
      forall i | 0 <= i < |text| ensures text[i] == '\t' || ' ' <= text[i] <= '~' {
        if i >= 7 { assert text[i] == token[i - 7]; }
      }
    }
    CapitalizedBearerIsBearer();
    ExtractBearerTokenRoundTrip("Bearer", token);
    ParseToString(userId);
  }

  /** An inbound request: its `authorization` header (absent, or raw
      octets) and the `Uuid` slot of its extensions. */
  class Request {
    var authorization: Option<seq<byte>>
    var userIdExtension: Option<Uuid>

    constructor (authorization: Option<seq<byte>>)
      ensures this.authorization == authorization && userIdExtension == None
    {
      this.authorization := authorization;
      userIdExtension := None;
    }
  }

  /** The rest of the router behind the middleware. `handler` stands for
      the downstream handlers and `received` records the `Uuid` extension of
      every request that was passed on. */
  class Next {
    const handler: Option<Uuid> -> Response
    var received: seq<Option<Uuid>>

    constructor (handler: Option<Uuid> -> Response)
      ensures received == []
    {
      this.handler := handler;
      received := [];
    }

    /** `next.run(req)`. */
    method Run(req: Request) returns (resp: Response)
      modifies this`received
      ensures received == old(received) + [req.userIdExtension]
      ensures resp == handler(req.userIdExtension)
    {
      received := received + [req.userIdExtension];
      resp := handler(req.userIdExtension);
    }
  }

  /** `auth_middleware`: on every refusal it answers with a bare status and
      neither touches the request nor runs `next`; otherwise it stores the
      user id in the request's extensions and hands the request to `next`
      exactly once. */
  method AuthMiddleware(req: Request, next: Next, env: Env, codec: JwtCodec,
                        parseUuid: string -> Option<Uuid>, now: nat) returns (resp: Response)
    modifies req`userIdExtension, next`received
    ensures match Authorize(req.authorization, env, codec, parseUuid, now)
      case Reject(status) =>
        resp == Response(status, Empty) &&
        req.userIdExtension == old(req.userIdExtension) && next.received == old(next.received)
      case Forward(userId) =>
        req.userIdExtension == Some(userId) && next.received == old(next.received) + [Some(userId)] &&
        resp == next.handler(Some(userId))
  {
    var token := ExtractBearerToken(req.authorization);
    if token.None? {
      return Response(StatusUnauthorized, Empty);
    }

    var secret := EnvVar(env, JwtSecretVar);
    if secret.None? {
      return Response(StatusInternalServerError, Empty);
    }

    var claims := Decode(codec, token.value, secret.value, DefaultValidation, now);
    if claims.None? {
      return Response(StatusUnauthorized, Empty);
    }

    var userId := parseUuid(claims.value.sub);
    if userId.None? {
      return Response(StatusUnauthorized, Empty);
    }

    req.userIdExtension := userId;
    resp := next.Run(req);
  }
}
