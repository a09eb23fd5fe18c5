/** `POST /api/files/upload`: the multipart parser runs first, with its type filter and its
    10 MiB limit; then the bearer-token gate; then the file goes to the blob store and,
    only once that has succeeded, a `files` row owned by the caller is inserted. Every
    failure after the method check ends with 500 and the failure's message, except the
    gate's 401/403 and the 400 for a request without a file. */
module Upload {
  import opened Wrappers
  import opened Text
  import opened Tokens
  import opened Http
  import opened Auth
  import opened Store

  /** `limits.fileSize`: 10 MiB */
  const MAX_FILE_SIZE: nat := 10 * 1024 * 1024

  /** The alternatives of the type-filter pattern, which has no anchors and no flags. */
  const ALLOWED_TYPES: seq<string> :=
    ["jpeg", "jpg", "png", "gif", "pdf", "txt", "doc", "docx", "xls", "xlsx", "zip", "rar", "mp4", "mp3", "avi", "mov"]

  const MSG_TYPE_NOT_ALLOWED := "Tipo de archivo no permitido"
  /** the parser's message for a file over the size limit */
  const MSG_FILE_TOO_LARGE := "File too large"
  const MSG_NO_FILE := "No se seleccionó archivo"
  const MSG_UPLOADED := "Archivo subido exitosamente"
  const MSG_UPLOAD_FAILED := "Error al subir archivo: "

  /** The `file` part of the multipart body. */
  datatype UploadedFile = UploadedFile(originalName: string, mimeType: string, content: seq<bv8>)

  /** What the blob store answers to a put: `public_id`, `secure_url` and `bytes`. */
  datatype Blob = Blob(publicId: string, secureUrl: string, bytes: nat)

  /** `allowedTypes.test(s)`: some alternative occurs somewhere in `s`. */
  predicate MatchesAllowedType(s: string) {
    exists k :: 0 <= k < |ALLOWED_TYPES| && Contains(s, ALLOWED_TYPES[k])
  }

  /** `fileFilter`: the lower-cased original name and the MIME type as sent both match.
      It accepts exactly when one of the listed words occurs in the lower-cased name and
      one (not necessarily the same) occurs in the MIME type, which is not lower-cased. */
  function FileFilter(originalName: string, mimeType: string): (ok: bool)
    ensures ok <==> SomeTypeOccurs(Lower(originalName)) && SomeTypeOccurs(mimeType)
  {
    MatchesAllowedTypeIff(Lower(originalName));
    MatchesAllowedTypeIff(mimeType);
    MatchesAllowedType(Lower(originalName)) && MatchesAllowedType(mimeType)
  }

  /** Some listed word occurs at some position of `s`. */
  ghost predicate SomeTypeOccurs(s: string) {
    exists k, i :: 0 <= k < |ALLOWED_TYPES| && OccursAt(ALLOWED_TYPES[k], s, i)
  }

  /** The pattern test holds exactly when one of the listed words occurs in the string. */
  lemma MatchesAllowedTypeIff(s: string)
    ensures MatchesAllowedType(s) <==> SomeTypeOccurs(s)
  {
    if MatchesAllowedType(s) {
      var k :| 0 <= k < |ALLOWED_TYPES| && Contains(s, ALLOWED_TYPES[k]);
      ContainsOccurs(s, ALLOWED_TYPES[k]);
    }
    if SomeTypeOccurs(s) {
      var k, i :| 0 <= k < |ALLOWED_TYPES| && OccursAt(ALLOWED_TYPES[k], s, i);
      ContainsOccurs(s, ALLOWED_TYPES[k]);
    }
  }

  /** A PDF passes whatever the case of its name. */
  lemma FilterAcceptsPdf()
    ensures FileFilter("Report.PDF", "application/pdf")
  {
    assert Lower("Report.PDF") == "report.pdf";
    assert ALLOWED_TYPES[4] == "pdf";
    assert "application/pdf"[12..15] == "pdf";
    assert OccursAt("pdf", "application/pdf", 12);
    ContainsOccurs("application/pdf", "pdf");
    assert Contains("report.pdf", ALLOWED_TYPES[4]) && Contains("application/pdf", ALLOWED_TYPES[4]);
  }

  /** A text file sent with its usual MIME type `text/plain` is refused: none of the listed
      words, `txt` included, occurs in `text/plain`. */
  lemma FilterRefusesPlainText()
    ensures !FileFilter("notes.txt", "text/plain")
  {
    NoTypeWithout("text/plain");
  }

  /** A string without the letters j, g, d, s, z, r, m and v, and without `txt`, matches
      none of the listed words: each of the others has one of those letters. */
  lemma NoTypeWithout(s: string)
    requires 'j' !in s && 'g' !in s && 'd' !in s && 's' !in s
    requires 'z' !in s && 'r' !in s && 'm' !in s && 'v' !in s
    requires !Contains(s, "txt")
    ensures !MatchesAllowedType(s)
  {
    forall k | 0 <= k < |ALLOWED_TYPES|
      ensures !Contains(s, ALLOWED_TYPES[k])
    {
      if k == 0 {
        assert ALLOWED_TYPES[k] == "jpeg";
        MissingCharNotContained(s, "jpeg", 0);
      } else if k == 1 {
        assert ALLOWED_TYPES[k] == "jpg";
        MissingCharNotContained(s, "jpg", 0);
      } else if k == 2 {
        assert ALLOWED_TYPES[k] == "png";
        MissingCharNotContained(s, "png", 2);
      } else if k == 3 {
        assert ALLOWED_TYPES[k] == "gif";
        MissingCharNotContained(s, "gif", 0);
      } else if k == 4 {
        assert ALLOWED_TYPES[k] == "pdf";
        MissingCharNotContained(s, "pdf", 1);
      } else if k == 5 {
        assert ALLOWED_TYPES[k] == "txt";
      } else if k == 6 {
        assert ALLOWED_TYPES[k] == "doc";
        MissingCharNotContained(s, "doc", 0);
      } else if k == 7 {
        assert ALLOWED_TYPES[k] == "docx";
        MissingCharNotContained(s, "docx", 0);
      } else if k == 8 {
        assert ALLOWED_TYPES[k] == "xls";
        MissingCharNotContained(s, "xls", 2);
      } else if k == 9 {
        assert ALLOWED_TYPES[k] == "xlsx";
        MissingCharNotContained(s, "xlsx", 2);
      } else if k == 10 {
        assert ALLOWED_TYPES[k] == "zip";
        MissingCharNotContained(s, "zip", 0);
      } else if k == 11 {
        assert ALLOWED_TYPES[k] == "rar";
        MissingCharNotContained(s, "rar", 0);
      } else if k == 12 {
        assert ALLOWED_TYPES[k] == "mp4";
        MissingCharNotContained(s, "mp4", 0);
      } else if k == 13 {
        assert ALLOWED_TYPES[k] == "mp3";
        MissingCharNotContained(s, "mp3", 0);
      } else if k == 14 {
        assert ALLOWED_TYPES[k] == "avi";
        MissingCharNotContained(s, "avi", 1);
      } else {
        assert ALLOWED_TYPES[k] == "mov";
        MissingCharNotContained(s, "mov", 0);
      }
    }
  }

  /** The multipart step: `None` when no file part came, the part when it passed the type
      filter and then the size limit, otherwise the parser's error message. */
  function Receive(file: Option<UploadedFile>): (r: Result<Option<UploadedFile>, string>)
    ensures r.Success? ==> r.value == file
    ensures r.Failure? <==> file.Some? && (!FileFilter(file.value.originalName, file.value.mimeType) ||
                                           |file.value.content| > MAX_FILE_SIZE)
    ensures file.Some? && !FileFilter(file.value.originalName, file.value.mimeType) ==>
              r == Failure(MSG_TYPE_NOT_ALLOWED)
  {
    match file
    case None => Success(None)
    case Some(f) =>
      if !FileFilter(f.originalName, f.mimeType) then Failure(MSG_TYPE_NOT_ALLOWED)
      else if |f.content| > MAX_FILE_SIZE then Failure(MSG_FILE_TOO_LARGE)
      else Success(Some(f))
  }

  /** A file of exactly 10 MiB passes the limit, one byte more does not. */
  lemma SizeLimitBoundary(f: UploadedFile)
    requires FileFilter(f.originalName, f.mimeType)
    ensures Receive(Some(f)).Success? <==> |f.content| <= 10 * 1024 * 1024
  {
  }

  /** The stored `filename`: the last `/`-separated segment of the blob's public id. */
  function StoredName(publicId: string): (r: string)
    ensures '/' !in r
    ensures r == publicId || exists k :: 0 <= k < |publicId| && publicId[k] == '/' && publicId[k + 1..] == r
  {
    LastSegment(publicId, '/')
  }

  /** A blob stored under a folder keeps, as its file name, just the part after the last `/`. */
  lemma StoredNameInFolder(folder: string, name: string)
    requires '/' !in name
    ensures StoredName(folder + "/" + name) == name
  {
    LastSegmentAfter(folder, '/', name);
  }

  /** The handler. `put` is the blob store: it either answers with the stored blob or
      fails with a message. */
  method Handle(db: Db, cfg: Config, verb: string, headers: Headers, file: Option<UploadedFile>,
                put: (seq<bv8>, string, string) -> Result<Blob, string>, now: int)
    returns (resp: Response)
    requires db.Valid()
    modifies db
    ensures db.Valid()
    ensures db.users == old(db.users) && db.nextUserId == old(db.nextUserId)
    ensures !resp.body.Uploaded? ==> db.files == old(db.files) && db.nextFileId == old(db.nextFileId)
    ensures Preflight(verb, "POST").Some? ==> resp == Preflight(verb, "POST").value
    // the parser runs before the gate: a refused file is a 500 with or without a valid token
    ensures verb == "POST" && Receive(file).Failure? ==>
              resp == Response(SERVER_ERROR, Error(MSG_UPLOAD_FAILED + Receive(file).error))
    ensures verb == "POST" && Receive(file).Success? && Authenticate(cfg, headers.authorization, now).Failure? ==>
              resp == Authenticate(cfg, headers.authorization, now).error
    ensures verb == "POST" && Receive(file).Success? && Admitted(cfg, headers, now) &&
            file.None? ==>
              resp == Response(BAD_REQUEST, Error(MSG_NO_FILE))
    // the put comes first: when it fails nothing is inserted
    ensures verb == "POST" && Receive(file).Success? && Admitted(cfg, headers, now) &&
            file.Some? && put(file.value.content, file.value.originalName, file.value.mimeType).Failure? ==>
              resp == Response(SERVER_ERROR, Error(MSG_UPLOAD_FAILED +
                        put(file.value.content, file.value.originalName, file.value.mimeType).error))
    // the put succeeded but the row could not be inserted: the blob stays stored and the
    // answer is a 500 carrying the database's message
    ensures verb == "POST" && Receive(file).Success? && Admitted(cfg, headers, now) &&
            file.Some? && put(file.value.content, file.value.originalName, file.value.mimeType).Success? &&
            !resp.body.Uploaded? ==>
              exists e :: e in INSERT_FILE_ERRORS && resp == Response(SERVER_ERROR, Error(MSG_UPLOAD_FAILED + e))
    // a caller without a user id (a share token) has no owner to insert: NOT NULL fails
    ensures verb == "POST" && Receive(file).Success? && Admitted(cfg, headers, now) &&
            file.Some? && put(file.value.content, file.value.originalName, file.value.mimeType).Success? &&
            Caller(cfg, headers, now).None? &&
            (var blob := put(file.value.content, file.value.originalName, file.value.mimeType).value;
             FileFits(StoredName(blob.publicId), file.value.originalName, blob.publicId, blob.bytes, file.value.mimeType)) ==>
              resp == Response(SERVER_ERROR, Error(MSG_UPLOAD_FAILED + ERR_NULL_OWNER))
    ensures resp.body.Uploaded? <==>
              && verb == "POST" && Receive(file).Success? && Admitted(cfg, headers, now)
              && file.Some? && put(file.value.content, file.value.originalName, file.value.mimeType).Success?
              && var blob := put(file.value.content, file.value.originalName, file.value.mimeType).value;
                 var owner := Caller(cfg, headers, now);
                 owner.Some? && HasUser(old(db.users), owner.value) &&
                 FileFits(StoredName(blob.publicId), file.value.originalName, blob.publicId, blob.bytes, file.value.mimeType) &&
                 old(db.nextFileId) <= INT4_MAX
    ensures resp.body.Uploaded? ==>
              var f := file.value;
              var blob := put(f.content, f.originalName, f.mimeType).value;
              var owner := Caller(cfg, headers, now).value;
              var row := FileRecord(old(db.nextFileId), owner, StoredName(blob.publicId), f.originalName,
                                    blob.publicId, blob.secureUrl, blob.bytes, f.mimeType, false, None, now);
              && db.files == old(db.files) + [row]
              && db.nextFileId == old(db.nextFileId) + 1
              && resp == Response(OK, Uploaded(MSG_UPLOADED,
                           UploadedInfo(row.id, f.originalName, blob.bytes, f.mimeType, blob.secureUrl)))
  {
    var early := Preflight(verb, "POST");
    if early.Some? {
      return early.value;
    }
    var received := Receive(file);
    if received.Failure? {
      return Response(SERVER_ERROR, Error(MSG_UPLOAD_FAILED + received.error));
    }
    var auth := Authenticate(cfg, headers.authorization, now);
    if auth.Failure? {
      return auth.error;
    }
    var caller := auth.value;
    if file.None? {
      return Response(BAD_REQUEST, Error(MSG_NO_FILE));
    }
    var f := file.value;
    var stored := put(f.content, f.originalName, f.mimeType);
    if stored.Failure? {
      return Response(SERVER_ERROR, Error(MSG_UPLOAD_FAILED + stored.error));
    }
    var blob := stored.value;
    var inserted := db.InsertFile(CallerId(caller), StoredName(blob.publicId), f.originalName,
                                  blob.publicId, blob.secureUrl, blob.bytes, f.mimeType, now);
    if inserted.Failure? {
      return Response(SERVER_ERROR, Error(MSG_UPLOAD_FAILED + inserted.error));
    }
    resp := Response(OK, Uploaded(MSG_UPLOADED,
              UploadedInfo(inserted.value.id, f.originalName, blob.bytes, f.mimeType, blob.secureUrl)));
  }
}
