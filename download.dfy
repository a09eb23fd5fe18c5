/** `GET /api/files/download?id=…`: after the bearer-token gate, the caller's file with
    that id is looked up and the client is redirected to its stored blob URL. The handler
    only reads, so it is a function of the `files` table. */
module Download {
  import opened Wrappers
  import opened Text
  import opened Tokens
  import opened Http
  import opened Auth
  import opened Store
  import ListFiles

  const MSG_ID_REQUIRED := "ID de archivo requerido"
  const MSG_NOT_FOUND := "Archivo no encontrado"
  const MSG_DOWNLOAD_FAILED := "Error al descargar archivo"

  /** The handler; `id` is the `id` query parameter. */
  function Handle(cfg: Config, verb: string, headers: Headers, id: Option<string>, files: seq<FileRecord>, now: int)
    : (r: Response)
    ensures Preflight(verb, "GET").Some? ==> r == Preflight(verb, "GET").value
    ensures verb == "GET" && Authenticate(cfg, headers.authorization, now).Failure? ==>
              r == Authenticate(cfg, headers.authorization, now).error
    ensures verb == "GET" && Admitted(cfg, headers, now) && !Present(id) ==>
              r == Response(BAD_REQUEST, Error(MSG_ID_REQUIRED))
    ensures verb == "GET" && Admitted(cfg, headers, now) && Present(id) &&
            ParseId(id.value).None? ==>
              r == Response(SERVER_ERROR, Error(MSG_DOWNLOAD_FAILED))
    // absent and not-yours are the same answer
    ensures verb == "GET" && Admitted(cfg, headers, now) && Present(id) &&
            ParseId(id.value).Some? &&
            (forall f :: f in files && f.id == ParseId(id.value).value ==>
                           Caller(cfg, headers, now) != Some(f.userId)) ==>
              r == Response(NOT_FOUND, Error(MSG_NOT_FOUND))
    // a redirect goes to the stored URL of a file with that id owned by the caller
    ensures r.status == TEMPORARY_REDIRECT <==>
              && verb == "GET" && Admitted(cfg, headers, now) && Present(id)
              && ParseId(id.value).Some?
              && exists f :: f in files && f.id == ParseId(id.value).value &&
                             Caller(cfg, headers, now) == Some(f.userId)
    ensures r.status == TEMPORARY_REDIRECT ==>
              exists f :: f in files && f.id == ParseId(id.value).value &&
                          Caller(cfg, headers, now) == Some(f.userId) &&
                          r.body == Redirect(f.url)
  {
    match Preflight(verb, "GET")
    case Some(early) => early
    case None =>
      match Authenticate(cfg, headers.authorization, now)
      case Failure(denied) => denied
      case Success(caller) =>
        if !Present(id) then Response(BAD_REQUEST, Error(MSG_ID_REQUIRED))
        else
          match LookupOwned(files, id.value, CallerId(caller))
          case Failure(_) => Response(SERVER_ERROR, Error(MSG_DOWNLOAD_FAILED))
          case Success(None) => Response(NOT_FOUND, Error(MSG_NOT_FOUND))
          case Success(Some(f)) => Response(TEMPORARY_REDIRECT, Redirect(f.url))
  }

  /** Other users' rows never change the answer: a caller learns nothing about files it
      does not own, not even whether they exist. */
  lemma DownloadSeesOwnRowsOnly(cfg: Config, verb: string, headers: Headers, id: Option<string>,
                                files: seq<FileRecord>, now: int)
    requires verb == "GET" && Authenticate(cfg, headers.authorization, now).Success?
    ensures var owner := CallerId(Authenticate(cfg, headers.authorization, now).value);
            Handle(cfg, verb, headers, id, files, now) == Handle(cfg, verb, headers, id, RowsOf(files, owner), now)
  {
    if Present(id) && ParseId(id.value).Some? {
      FindOwnedSeesOwnRowsOnly(files, ParseId(id.value).value, CallerId(Authenticate(cfg, headers.authorization, now).value));
    }
  }

  /** A caller's own file, asked for by the decimal text of its id, redirects to its URL. */
  lemma OwnFileDownloads(cfg: Config, headers: Headers, files: seq<FileRecord>, f: FileRecord, now: int)
    requires Authenticate(cfg, headers.authorization, now).Success?
    requires CallerId(Authenticate(cfg, headers.authorization, now).value) == Some(f.userId)
    requires UniqueFileIds(files) && f in files && f.id <= INT4_MAX
    ensures Handle(cfg, "GET", headers, Some(DecimalString(f.id)), files, now) == Response(TEMPORARY_REDIRECT, Redirect(f.url))
  {
    IdRoundTrip(f.id);
    FindOwnedUnique(files, f, Some(f.userId));
  }

  /** Every item of a caller's list downloads: its id, sent back by the same caller,
      redirects to that file's URL. */
  lemma ListedItemDownloads(cfg: Config, headers: Headers, db: Db, now: int, i: nat)
    requires db.Valid()
    requires Authenticate(cfg, headers.authorization, now).Success?
    requires var owner := CallerId(Authenticate(cfg, headers.authorization, now).value);
             i < |ListFiles.Listing(db.users, db.files, owner)|
    ensures var owner := CallerId(Authenticate(cfg, headers.authorization, now).value);
            var item := ListFiles.Listing(db.users, db.files, owner)[i];
            Handle(cfg, "GET", headers, Some(item.id), db.files, now) == Response(TEMPORARY_REDIRECT, Redirect(item.url))
  {
    var owner := CallerId(Authenticate(cfg, headers.authorization, now).value);
    var f := ListFiles.ListedRows(db.users, db.files, owner)[i];
    assert f in ListFiles.ListedRows(db.users, db.files, owner);
    var k :| 0 <= k < |db.files| && db.files[k] == f;
    assert db.FileRowValid(db.files[k]);
    OwnFileDownloads(cfg, headers, db.files, f, now);
  }
}
