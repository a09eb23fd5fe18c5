/** `POST /api/files/share`: after the bearer-token gate, the caller names one of its
    files; the handler checks that the file is the caller's, mints a 7-day share token
    bound to the file id and the caller, stores it in the row (replacing any earlier one)
    and answers with the token and the link built on it. */
module Share {
  import opened Wrappers
  import opened Text
  import opened Tokens
  import opened Http
  import opened Auth
  import opened Store

  const MSG_ID_REQUIRED := "ID de archivo requerido"
  const MSG_NOT_FOUND := "Archivo no encontrado"
  const MSG_SHARED := "Archivo compartido exitosamente"
  const MSG_SHARE_FAILED := "Error al compartir archivo"

  /** the origin used when the request carries none */
  const DEFAULT_ORIGIN := "https://your-app.vercel.app"
  const SHARED_PATH := "/api/shared/"

  /** The share token: `{ fileId, userId }` for seven days. */
  function ShareToken(cfg: Config, fileId: string, userId: nat, now: int): (token: string)
    ensures Sound(cfg.jwt) ==> token != "" && ' ' !in token && '/' !in token
  {
    Issue(cfg, ShareClaims(fileId, userId), SHARE_LIFETIME, now)
  }

  /** The link handed out: the request's origin (or the default one when it has none),
      the shared-file path, and the token as the last path segment. */
  function ShareUrl(origin: Option<string>, token: string): (r: string)
    ensures var base := if Present(origin) then origin.value else DEFAULT_ORIGIN;
            && |r| == |base| + |SHARED_PATH| + |token|
            && r[..|base|] == base
            && r[|base|..|base| + |SHARED_PATH|] == SHARED_PATH
            && r[|base| + |SHARED_PATH|..] == token
  {
    var base := if Present(origin) then origin.value else DEFAULT_ORIGIN;
    base + SHARED_PATH + token
  }

  /** A token without `/` (every token a sound signer issues) is what the link's last path
      segment gives back. */
  lemma ShareUrlLastSegment(origin: Option<string>, token: string)
    requires '/' !in token
    ensures LastSegment(ShareUrl(origin, token), '/') == token
  {
    var base := if Present(origin) then origin.value else DEFAULT_ORIGIN;
    assert ShareUrl(origin, token) == (base + "/api/shared") + ['/'] + token;
    LastSegmentAfter(base + "/api/shared", '/', token);
  }

  /** The handler. Only a 200 changes the store, and it changes the `files` table only. */
  method Handle(db: Db, cfg: Config, verb: string, headers: Headers, fileId: Option<string>, now: int)
    returns (resp: Response)
    requires db.Valid()
    modifies db
    ensures db.Valid()
    ensures db.users == old(db.users) && db.nextUserId == old(db.nextUserId) && db.nextFileId == old(db.nextFileId)
    ensures resp.status != OK || !resp.body.ShareLink? ==> db.files == old(db.files)
    ensures Preflight(verb, "POST").Some? ==> resp == Preflight(verb, "POST").value
    ensures verb == "POST" && Authenticate(cfg, headers.authorization, now).Failure? ==>
              resp == Authenticate(cfg, headers.authorization, now).error
    ensures verb == "POST" && Admitted(cfg, headers, now) && !Present(fileId) ==>
              resp == Response(BAD_REQUEST, Error(MSG_ID_REQUIRED))
    ensures verb == "POST" && Admitted(cfg, headers, now) && Present(fileId) &&
            ParseId(fileId.value).None? ==>
              resp == Response(SERVER_ERROR, Error(MSG_SHARE_FAILED))
    // absent and not-yours are the same answer
    ensures verb == "POST" && Admitted(cfg, headers, now) && Present(fileId) &&
            ParseId(fileId.value).Some? &&
            FindOwned(old(db.files), ParseId(fileId.value).value,
                      Caller(cfg, headers, now)).None? ==>
              resp == Response(NOT_FOUND, Error(MSG_NOT_FOUND))
    // a token too wide for its column makes the update fail
    ensures verb == "POST" && Admitted(cfg, headers, now) && Present(fileId) && ParseId(fileId.value).Some? &&
            FindOwned(old(db.files), ParseId(fileId.value).value, Caller(cfg, headers, now)).Some? &&
            |ShareToken(cfg, fileId.value, Caller(cfg, headers, now).value, now)| > SHARE_TOKEN_WIDTH ==>
              resp == Response(SERVER_ERROR, Error(MSG_SHARE_FAILED))
    ensures resp.body.ShareLink? <==>
              && verb == "POST" && Admitted(cfg, headers, now) && Present(fileId)
              && ParseId(fileId.value).Some?
              && var owner := Caller(cfg, headers, now);
                 && FindOwned(old(db.files), ParseId(fileId.value).value, owner).Some?
                 && |ShareToken(cfg, fileId.value, owner.value, now)| <= SHARE_TOKEN_WIDTH
    ensures resp.body.ShareLink? ==>
              var owner := Caller(cfg, headers, now).value;
              var token := ShareToken(cfg, fileId.value, owner, now);
              && db.files == MarkShared(old(db.files), ParseId(fileId.value).value, token)
              && resp == Response(OK, ShareLink(MSG_SHARED, ShareUrl(headers.origin, token), token))
    ensures !resp.body.ShareLink? && resp.status == OK ==> resp.body == NoContent
    // the link's last path segment is the token
    ensures Sound(cfg.jwt) && resp.body.ShareLink? ==> LastSegment(resp.body.shareUrl, '/') == resp.body.shareToken
  {
    var early := Preflight(verb, "POST");
    if early.Some? {
      return early.value;
    }
    var auth := Authenticate(cfg, headers.authorization, now);
    if auth.Failure? {
      return auth.error;
    }
    var caller := auth.value;
    if !Present(fileId) {
      return Response(BAD_REQUEST, Error(MSG_ID_REQUIRED));
    }
    var found := LookupOwned(db.files, fileId.value, CallerId(caller));
    if found.Failure? {
      return Response(SERVER_ERROR, Error(MSG_SHARE_FAILED));
    }
    if found.value.None? {
      return Response(NOT_FOUND, Error(MSG_NOT_FOUND));
    }
    var userId := CallerId(caller).value;
    var token := ShareToken(cfg, fileId.value, userId, now);
    var stored := db.SetShare(ParseId(fileId.value).value, token);
    if !stored {
      return Response(SERVER_ERROR, Error(MSG_SHARE_FAILED));
    }
    resp := Response(OK, ShareLink(MSG_SHARED, ShareUrl(headers.origin, token), token));
    if Sound(cfg.jwt) {
      ShareUrlLastSegment(headers.origin, token);
    }
  }

  /** With a sound signer, the returned token verifies to `{ fileId, userId }` for seven days
      from its issue and to nothing from then on. */
  lemma ShareTokenLifetime(cfg: Config, fileId: string, userId: nat, issued: int, at: int)
    requires Sound(cfg.jwt)
    requires issued <= at
    ensures at < issued + 7 * 24 * 60 * 60 ==>
              cfg.jwt.verify(ShareToken(cfg, fileId, userId, issued), cfg.secret, at) ==
                Some(Claims(ShareClaims(fileId, userId), issued, issued + SHARE_LIFETIME))
    ensures at >= issued + 7 * 24 * 60 * 60 ==>
              cfg.jwt.verify(ShareToken(cfg, fileId, userId, issued), cfg.secret, at).None?
  {
    IssuedTokenLifetime(cfg, ShareClaims(fileId, userId), SHARE_LIFETIME, issued, at);
  }

  /** A share token presented as a bearer token gets through the gate, but its claims carry
      no user id, so it owns nothing: it cannot be used to share any file. */
  lemma ShareTokenOwnsNothing(cfg: Config, fileId: string, userId: nat, issued: int, at: int)
    requires Sound(cfg.jwt)
    requires issued <= at < issued + SHARE_LIFETIME
    ensures var header := Some("Bearer " + ShareToken(cfg, fileId, userId, issued));
            && Authenticate(cfg, header, at).Success?
            && CallerId(Authenticate(cfg, header, at).value).None?
  {
    var claims := Claims(ShareClaims(fileId, userId), issued, issued + SHARE_LIFETIME);
    var token := ShareToken(cfg, fileId, userId, issued);
    assert "Bearer " + token == "Bearer" + " " + token;
    AuthenticatedIffGenuine(cfg, "Bearer", claims, at);
  }
}
