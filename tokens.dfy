/** The token service of `authentication/token_generator.py`: the payload a
    login token carries, the extraction of the token from an `Authorization`
    header, and the `token_required` gate that either rejects a request with
    403 or admits it with the caller's identity.

    Signing and verifying (HS256) are not modelled: decoding is a parameter
    `decode` that maps the extracted token text to one of the outcomes the
    JWT library can produce. */
module Tokens {
  import opened Common

  const SecondsPerHour: int := 3600
  /** The default value of `expires_in_hours`. */
  const DefaultLifetimeHours: int := 2
  /** The role the gate assumes when a token carries no `role` claim. */
  const DefaultRole: string := "user"

  /** The claims `generate_token` signs; times are in seconds. */
  datatype Payload = Payload(userId: int, role: string, iat: int, exp: int)

  /** The claims found in a decoded token; either may be absent. */
  datatype Claims = Claims(userId: Option<int>, role: Option<string>)

  /** What decoding a token can yield: its claims, or the library's
      "expired signature" error, its "invalid token" error, or any other
      exception. */
  datatype DecodeOutcome = Decoded(claims: Claims) | Expired | Invalid | OtherError

  /** Who the gate admits. */
  datatype Identity = Identity(userId: int, role: string)

  /** The payload `generate_token` builds at time `now`: it is issued now and
      expires `expiresInHours` hours later. */
  function GeneratePayload(userId: int, role: string, now: int,
                           expiresInHours: int := DefaultLifetimeHours): (p: Payload)
    ensures p.userId == userId && p.role == role
    ensures p.iat == now && p.exp - p.iat == expiresInHours * SecondsPerHour
  {
    Payload(userId, role, now, now + expiresInHours * SecondsPerHour)
  }

  /** The claims an authentic, unexpired token for `p` decodes to. */
  function ClaimsOf(p: Payload): Claims
  {
    Claims(Some(p.userId), Some(p.role))
  }

  /** Position of the first space of `s`. */
  function SpaceIndex(s: string): (i: nat)
    requires ' ' in s
    ensures i < |s| && s[i] == ' ' && ' ' !in s[..i]
  {
    if s[0] == ' ' then 0
    else
      assert ' ' in s[1..] by { var j :| 0 <= j < |s| && s[j] == ' '; assert s[1..][j - 1] == ' '; }
      var i := 1 + SpaceIndex(s[1..]);
      assert s[..i] == [s[0]] + s[1..][..i - 1];
      i
  }

  /** The part of `s` before its first space (all of `s` if it has none). */
  function FirstField(s: string): (r: string)
    ensures ' ' !in r && |r| <= |s| && r == s[..|r|]
    ensures |r| == |s| || s[|r|] == ' '
  {
    if ' ' in s then s[..SpaceIndex(s)] else s
  }

  /** The token carried by an `Authorization` header: with a space, the
      second space-separated field, which may be empty; without one, the
      header stripped of surrounding white space. */
  function ExtractToken(header: string): (t: string)
    ensures ' ' in header ==>
              var k := SpaceIndex(header) + 1;
              && ' ' !in t
              && k + |t| <= |header| && t == header[k..k + |t|]
              && (k + |t| == |header| || header[k + |t|] == ' ')
    ensures ' ' !in header ==> t == Strip(header)
  {
    if ' ' in header then FirstField(header[SpaceIndex(header) + 1..]) else Strip(header)
  }

  /** The first space of `a + b`, where `a` has none and `b` starts with one,
      is the one right after `a`. */
  lemma {:induction false} SpaceIndexAfter(a: string, b: string)
    requires ' ' !in a && b != [] && b[0] == ' '
    ensures ' ' in a + b && SpaceIndex(a + b) == |a|
  {
    assert (a + b)[|a|] == ' ';
    if a != [] {
      assert (a + b)[1..] == a[1..] + b;
      SpaceIndexAfter(a[1..], b);
    }
  }

  /** A header `scheme + " " + t + rest`, where neither `scheme` nor `t` holds
      a space and `rest` is empty or starts with one, yields exactly `t`: so
      "Bearer X" yields "X" and "X " yields "". */
  lemma ExtractTokenField(scheme: string, t: string, rest: string)
    requires ' ' !in scheme && ' ' !in t
    requires rest == [] || rest[0] == ' '
    ensures ExtractToken(scheme + " " + t + rest) == t
  {
    var h := scheme + " " + t + rest;
    assert h == scheme + (" " + t + rest);
    SpaceIndexAfter(scheme, " " + t + rest);
    assert h[|scheme| + 1..] == t + rest;
    FirstFieldBeforeSpace(t, rest);
  }

  /** The first field of `t + rest`, with no space in `t` and `rest` empty or
      starting with one, is `t`. */
  lemma FirstFieldBeforeSpace(t: string, rest: string)
    requires ' ' !in t
    requires rest == [] || rest[0] == ' '
    ensures FirstField(t + rest) == t
  {
    if rest == [] {
      assert t + rest == t;
    } else {
      SpaceIndexAfter(t, rest);
      assert (t + rest)[..|t|] == t;
    }
  }

  /** The 403 reply of the gate; every one of them asks the client to log in. */
  function LoginRequired(message: string): Response
  {
    Response(403, message, true)
  }

  /** The `token_required` decorator: a missing or empty header, an
      expired or invalid token, or a token without `user_id` is answered
      with 403 and the wrapped handler is not reached; otherwise the handler
      receives the token's user id and its role, `user` by default. */
  function TokenRequired(header: Option<string>, decode: string -> DecodeOutcome): (r: Result<Identity>)
    ensures !Present(header) ==> r == Err(LoginRequired("Token is missing"))
    ensures r.Err? ==> r.resp.status == 403 && r.resp.loginRequired
    ensures Present(header) ==>
              match decode(ExtractToken(header.value))
              case Expired => r == Err(LoginRequired("Token has expired"))
              case Invalid => r == Err(LoginRequired("Token is invalid"))
              case OtherError => r.Err?
              case Decoded(c) =>
                && (c.userId.None? <==> r.Err?)
                && (r.Ok? ==> r.value == Identity(c.userId.value, c.role.GetOr(DefaultRole)))
  {
    if !Present(header) then Err(LoginRequired("Token is missing"))
    else
      match decode(ExtractToken(header.value))
      case Expired => Err(LoginRequired("Token has expired"))
      case Invalid => Err(LoginRequired("Token is invalid"))
      case OtherError => Err(LoginRequired("An error occurred"))
      case Decoded(c) =>
        if c.userId.None? then Err(LoginRequired("An error occurred"))
        else Ok(Identity(c.userId.value, c.role.GetOr(DefaultRole)))
  }

  /** A token issued by `GeneratePayload`, sent as `scheme + " " + token` and
      decoded to its own claims, admits exactly the identity it was issued for. */
  lemma IssuedTokenAdmits(userId: int, role: string, now: int, hours: int,
                          scheme: string, token: string, decode: string -> DecodeOutcome)
    requires ' ' !in scheme && ' ' !in token
    requires decode(token) == Decoded(ClaimsOf(GeneratePayload(userId, role, now, hours)))
    ensures TokenRequired(Some(scheme + " " + token), decode) == Ok(Identity(userId, role))
  {
    ExtractTokenField(scheme, token, []);
    assert scheme + " " + token + [] == scheme + " " + token;
  }

  /** The same holds for a header that is the bare token, with no white
      space at either end and no space inside. */
  lemma IssuedBareTokenAdmits(userId: int, role: string, now: int, hours: int,
                              token: string, decode: string -> DecodeOutcome)
    requires token != "" && ' ' !in token && !IsSpace(token[0]) && !IsSpace(token[|token| - 1])
    requires decode(token) == Decoded(ClaimsOf(GeneratePayload(userId, role, now, hours)))
    ensures TokenRequired(Some(token), decode) == Ok(Identity(userId, role))
  {
    assert SkipSpace(token, 0) == 0;
    assert SkipSpaceBack(token, 0, |token|) == |token|;
    assert Strip(token) == token;
  }

  /** A token without a role claim is admitted with role `user`. */
  lemma RoleDefaultsToUser(header: string, decode: string -> DecodeOutcome, userId: int)
    requires header != ""
    requires decode(ExtractToken(header)) == Decoded(Claims(Some(userId), None))
    ensures TokenRequired(Some(header), decode) == Ok(Identity(userId, "user"))
  {
  }
}
