/** The bearer-token gate (`authenticateToken`) that the share, list, download and upload
    handlers each carry a copy of: the token is the second space-separated word of the
    `Authorization` header; without one the request ends with 401, with one that does not
    verify it ends with 403, and otherwise the verified claims become the caller. */
module Auth {
  import opened Wrappers
  import opened Text
  import opened Tokens
  import opened Http

  const MSG_TOKEN_REQUIRED := "Token de acceso requerido"
  const MSG_TOKEN_INVALID := "Token inválido"

  /** `authHeader && authHeader.split(' ')[1]`, kept only when it is a non-empty string:
      an absent or empty header, a header without a space, and an empty second word all give `None`. */
  function BearerToken(authorization: Option<string>): (r: Option<string>)
    ensures r.Some? ==> r.value != "" && ' ' !in r.value
    ensures authorization.None? ==> r.None?
  {
    match authorization
    case None => None
    case Some(header) =>
      var words := Split(header, ' ');
      if |words| >= 2 && words[1] != "" then Some(words[1]) else None
  }

  /** `header` is the word `scheme`, a space, `token`, and then nothing or text starting with a space. */
  ghost predicate CarriesAfterScheme(header: string, scheme: string, token: string, rest: string) {
    ' ' !in scheme && (rest == "" || rest[0] == ' ') && header == scheme + " " + token + rest
  }

  /** A header `<scheme> <token>`, possibly followed by more space-separated text, carries `token`. */
  lemma {:induction false} BearerTokenOfHeader(header: string, scheme: string, token: string, rest: string)
    requires CarriesAfterScheme(header, scheme, token, rest)
    requires ' ' !in token && token != ""
    ensures BearerToken(Some(header)) == Some(token)
  {
    assert header == scheme + [' '] + (token + rest);
    SplitAfterWord(scheme, ' ', token + rest);
    if rest == "" {
      assert token + rest == token;
      SplitWord(token, ' ');
    } else {
      assert token + rest == token + [' '] + rest[1..];
      SplitAfterWord(token, ' ', rest[1..]);
    }
  }

  /** Conversely, a header that yields `token` is a space-free word, a space, `token`, and
      then nothing or more text starting with a space. */
  lemma {:induction false} BearerTokenShape(header: string, token: string)
    requires BearerToken(Some(header)) == Some(token)
    ensures exists scheme, rest :: CarriesAfterScheme(header, scheme, token, rest)
  {
    var words := Split(header, ' ');
    var tail := Join(words[1..], ' ');
    assert header == words[0] + [' '] + tail;
    var rest := if |words| == 2 then "" else [' '] + Join(words[2..], ' ');
    if |words| > 2 {
      assert words[1..][1..] == words[2..];
    }
    assert tail == token + rest;
    assert CarriesAfterScheme(header, words[0], token, rest);
  }

  /** The caller's user id as the owner-scoped queries see it (`req.user.id`): the `id`
      of session claims; share-link claims have no `id`, so the queries get SQL NULL. */
  function CallerId(c: Claims): (r: Option<nat>)
    ensures r.Some? <==> c.payload.SessionClaims?
    ensures r.Some? ==> r.value == c.payload.id
  {
    match c.payload
    case SessionClaims(id, _) => Some(id)
    case ShareClaims(_, _) => None
  }

  /** `authenticateToken`: the claims of a verified bearer token, or the response the request ends with. */
  function Authenticate(cfg: Config, authorization: Option<string>, now: int): (r: Result<Claims, Response>)
    ensures BearerToken(authorization).None? ==> r == Failure(Response(UNAUTHORIZED, Error(MSG_TOKEN_REQUIRED)))
    ensures BearerToken(authorization).Some? ==>
              match cfg.jwt.verify(BearerToken(authorization).value, cfg.secret, now)
              case None => r == Failure(Response(FORBIDDEN, Error(MSG_TOKEN_INVALID)))
              case Some(c) => r == Success(c)
  {
    match BearerToken(authorization)
    case None => Failure(Response(UNAUTHORIZED, Error(MSG_TOKEN_REQUIRED)))
    case Some(token) =>
      match cfg.jwt.verify(token, cfg.secret, now)
      case None => Failure(Response(FORBIDDEN, Error(MSG_TOKEN_INVALID)))
      case Some(c) => Success(c)
  }

  /** The request got through the gate. */
  predicate Admitted(cfg: Config, headers: Headers, now: int) {
    Authenticate(cfg, headers.authorization, now).Success?
  }

  /** The user id of an admitted caller, as the owner-scoped queries see it. */
  function Caller(cfg: Config, headers: Headers, now: int): Option<nat>
    requires Admitted(cfg, headers, now)
  {
    CallerId(Authenticate(cfg, headers.authorization, now).value)
  }

  /** With a sound signer, a caller who gets through the gate presented exactly the token
      signed for its claims under the server's secret, and that token had not expired;
      conversely a `Bearer` header carrying such a token gets through as those claims. */
  lemma {:induction false} AuthenticatedIffGenuine(cfg: Config, scheme: string, c: Claims, now: int)
    requires Sound(cfg.jwt)
    requires ' ' !in scheme
    ensures now < c.exp ==>
              Authenticate(cfg, Some(scheme + " " + cfg.jwt.sign(c, cfg.secret)), now) == Success(c)
    ensures now >= c.exp ==>
              Authenticate(cfg, Some(scheme + " " + cfg.jwt.sign(c, cfg.secret)), now)
                == Failure(Response(FORBIDDEN, Error(MSG_TOKEN_INVALID)))
  {
    var token := cfg.jwt.sign(c, cfg.secret);
    assert token != "" && ' ' !in token;
    var header := scheme + " " + token;
    assert CarriesAfterScheme(header, scheme, token, "");
    BearerTokenOfHeader(header, scheme, token, "");
  }

  /** With a sound signer, whatever claims the gate lets through are those of a token
      signed under the server's secret that has not expired. */
  lemma AuthenticatedCallerIsSigned(cfg: Config, authorization: Option<string>, now: int)
    requires Sound(cfg.jwt)
    requires Authenticate(cfg, authorization, now).Success?
    ensures var c := Authenticate(cfg, authorization, now).value;
            BearerToken(authorization) == Some(cfg.jwt.sign(c, cfg.secret)) && now < c.exp
  {
  }
}
