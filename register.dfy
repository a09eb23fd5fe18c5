/** `POST /api/auth/register`: validate the three fields, refuse a taken username or
    email, insert the user with a bcrypt hash of the password, and answer 201 with a
    24-hour session token and the new user (never the password). */
module Register {
  import opened Wrappers
  import opened Text
  import opened Tokens
  import opened Http
  import opened Auth
  import opened Store

  /** The JSON body's three fields; an absent field is `None`. */
  datatype Form = Form(username: Option<string>, password: Option<string>, email: Option<string>)

  const BCRYPT_COST: nat := 10
  const MIN_PASSWORD_LENGTH: nat := 6

  const MSG_FIELDS_REQUIRED := "Todos los campos son requeridos"
  const MSG_PASSWORD_TOO_SHORT := "La contraseña debe tener al menos 6 caracteres"
  const MSG_ALREADY_EXISTS := "Usuario o email ya existe"
  const MSG_CREATED := "Usuario creado exitosamente"
  const MSG_INTERNAL_ERROR := "Error interno del servidor"

  /** The three guards, in their order: all fields present, then the password length,
      then the username-or-email lookup. Success hands on username, password and email. */
  function Validate(form: Form, users: seq<UserRow>): (r: Result<(string, string, string), Response>)
    ensures r.Success? <==>
              && Present(form.username) && Present(form.password) && Present(form.email)
              && |form.password.value| >= MIN_PASSWORD_LENGTH
              && forall i :: 0 <= i < |users| ==>
                   users[i].username != form.username.value && users[i].email != form.email.value
    ensures r.Success? ==> r.value == (form.username.value, form.password.value, form.email.value)
    ensures r.Failure? ==> r.error.status == BAD_REQUEST
    ensures !(Present(form.username) && Present(form.password) && Present(form.email)) ==>
              r == Failure(Response(BAD_REQUEST, Error(MSG_FIELDS_REQUIRED)))
    ensures Present(form.username) && Present(form.password) && Present(form.email) &&
            |form.password.value| < MIN_PASSWORD_LENGTH ==>
              r == Failure(Response(BAD_REQUEST, Error(MSG_PASSWORD_TOO_SHORT)))
    ensures r.Failure? && r.error.body == Error(MSG_ALREADY_EXISTS) <==>
              && Present(form.username) && Present(form.password) && Present(form.email)
              && |form.password.value| >= MIN_PASSWORD_LENGTH
              && exists i :: 0 <= i < |users| &&
                   (users[i].username == form.username.value || users[i].email == form.email.value)
  {
    if !(Present(form.username) && Present(form.password) && Present(form.email)) then
      Failure(Response(BAD_REQUEST, Error(MSG_FIELDS_REQUIRED)))
    else if |form.password.value| < MIN_PASSWORD_LENGTH then
      Failure(Response(BAD_REQUEST, Error(MSG_PASSWORD_TOO_SHORT)))
    else if UserTaken(users, form.username.value, form.email.value) then
      Failure(Response(BAD_REQUEST, Error(MSG_ALREADY_EXISTS)))
    else
      Success((form.username.value, form.password.value, form.email.value))
  }

  /** The session token registration hands out: `{ id, username }` for 24 hours. */
  function SessionToken(cfg: Config, id: nat, username: string, now: int): (token: string)
    ensures Sound(cfg.jwt) ==> token != "" && ' ' !in token
  {
    Issue(cfg, SessionClaims(id, username), SESSION_LIFETIME, now)
  }

  /** The handler. Nothing but a 201 changes the store, and a 201 adds exactly one user,
      whose stored password is the cost-10 hash of the given one. */
  method Handle(db: Db, cfg: Config, verb: string, form: Form, now: int) returns (resp: Response)
    requires db.Valid()
    modifies db
    ensures db.Valid()
    ensures db.files == old(db.files) && db.nextFileId == old(db.nextFileId)
    ensures resp.status != CREATED ==> db.users == old(db.users) && db.nextUserId == old(db.nextUserId)
    ensures Preflight(verb, "POST").Some? ==> resp == Preflight(verb, "POST").value
    ensures verb == "POST" && Validate(form, old(db.users)).Failure? ==> resp == Validate(form, old(db.users)).error
    ensures resp.status == CREATED <==>
              && verb == "POST" && Validate(form, old(db.users)).Success?
              && UserFits(form.username.value, cfg.bcrypt(form.password.value, BCRYPT_COST), form.email.value)
              && old(db.nextUserId) <= INT4_MAX
    ensures verb == "POST" && Validate(form, old(db.users)).Success? && resp.status != CREATED ==>
              resp == Response(SERVER_ERROR, Error(MSG_INTERNAL_ERROR))
    ensures resp.status == CREATED ==>
              var id := old(db.nextUserId);
              var (username, password, email) := (form.username.value, form.password.value, form.email.value);
              && db.users == old(db.users) + [UserRow(id, username, cfg.bcrypt(password, BCRYPT_COST), email)]
              && db.nextUserId == old(db.nextUserId) + 1
              && resp.body == Registered(MSG_CREATED, SessionToken(cfg, id, username, now), PublicUser(id, username, email))
  {
    var early := Preflight(verb, "POST");
    if early.Some? {
      return early.value;
    }
    var checked := Validate(form, db.users);
    if checked.Failure? {
      return checked.error;
    }
    var (username, password, email) := checked.value;
    var hashed := cfg.bcrypt(password, BCRYPT_COST);
    var inserted := db.InsertUser(username, hashed, email);
    if inserted.Failure? {
      return Response(SERVER_ERROR, Error(MSG_INTERNAL_ERROR));
    }
    var user := inserted.value;
    var token := SessionToken(cfg, user.id, user.username, now);
    resp := Response(CREATED, Registered(MSG_CREATED, token, PublicUser(user.id, user.username, user.email)));
  }

  /** The token a successful registration returns, sent back as `Bearer <token>` within
      24 hours, gets through the gate as the new user; from the 24th hour on it is refused. */
  lemma {:induction false} SessionTokenAuthenticates(cfg: Config, id: nat, username: string, issued: int, at: int)
    requires Sound(cfg.jwt)
    requires issued <= at
    ensures var header := Some("Bearer " + SessionToken(cfg, id, username, issued));
            var claims := Claims(SessionClaims(id, username), issued, issued + SESSION_LIFETIME);
            && (at < issued + SESSION_LIFETIME ==> Authenticate(cfg, header, at) == Success(claims))
            && (at < issued + SESSION_LIFETIME ==> CallerId(claims) == Some(id))
            && (at >= issued + SESSION_LIFETIME ==> Authenticate(cfg, header, at).Failure?)
  {
    var claims := Claims(SessionClaims(id, username), issued, issued + SESSION_LIFETIME);
    var token := SessionToken(cfg, id, username, issued);
    assert "Bearer " + token == "Bearer" + " " + token;
    AuthenticatedIffGenuine(cfg, "Bearer", claims, at);
  }
}
