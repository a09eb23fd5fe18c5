/** Requests in sequence against one store: what a second registration with a taken
    username gets, what sharing the same file twice leaves in the row, and what an upload
    followed by a download of the new file's id answers. */
module Scenarios {
  import opened Wrappers
  import opened Text
  import opened Tokens
  import opened Http
  import opened Auth
  import opened Store
  import Register
  import Upload
  import Share
  import Download

  /** A second registration that reuses the first one's username is refused with the
      duplicate message and leaves the users table as the first one left it. */
  method RegisterTwice(db: Db, cfg: Config, first: Register.Form, second: Register.Form, now: int)
    returns (r1: Response, r2: Response)
    requires db.Valid()
    requires second.username == first.username
    requires Present(second.password) && Present(second.email) && |second.password.value| >= Register.MIN_PASSWORD_LENGTH
    modifies db
    ensures r1.status == CREATED ==> r2 == Response(BAD_REQUEST, Error(Register.MSG_ALREADY_EXISTS))
    ensures r1.status == CREATED ==> |db.users| == |old(db.users)| + 1
  {
    r1 := Register.Handle(db, cfg, "POST", first, now);
    ghost var afterFirst := db.users;
    r2 := Register.Handle(db, cfg, "POST", second, now);
    if r1.status == CREATED {
      assert afterFirst[|afterFirst| - 1].username == first.username.value;
    }
  }

  /** Sharing the same file twice leaves only the second token in its row, exactly as if
      the first share had never been made. */
  method ShareTwice(db: Db, cfg: Config, headers: Headers, fileId: string, now1: int, now2: int)
    returns (r1: Response, r2: Response)
    requires db.Valid()
    modifies db
    ensures r1.body.ShareLink? && r2.body.ShareLink? ==>
              && ParseId(fileId).Some?
              && db.files == MarkShared(old(db.files), ParseId(fileId).value, r2.body.shareToken)
              && forall f :: f in db.files && f.id == ParseId(fileId).value ==>
                   f.isShared && f.shareToken == Some(r2.body.shareToken)
  {
    r1 := Share.Handle(db, cfg, "POST", headers, Some(fileId), now1);
    r2 := Share.Handle(db, cfg, "POST", headers, Some(fileId), now2);
    if r1.body.ShareLink? && r2.body.ShareLink? {
      var id := ParseId(fileId).value;
      ReshareSupersedes(old(db.files), id, r1.body.shareToken, r2.body.shareToken);
      MarkedRowHoldsToken(old(db.files), id, r2.body.shareToken);
    }
  }

  /** A file just uploaded downloads by the id the upload answered with: the same caller
      is redirected to the URL the blob store gave. */
  method UploadThenDownload(db: Db, cfg: Config, headers: Headers, file: Upload.UploadedFile,
                            put: (seq<bv8>, string, string) -> Result<Upload.Blob, string>, now: int)
    returns (up: Response, down: Response)
    requires db.Valid()
    modifies db
    ensures up.body.Uploaded? ==>
              down == Response(TEMPORARY_REDIRECT, Redirect(up.body.file.url))
  {
    up := Upload.Handle(db, cfg, "POST", headers, Some(file), put, now);
    var id := if up.body.Uploaded? then DecimalString(up.body.file.id) else "";
    down := Download.Handle(cfg, "GET", headers, Some(id), db.files, now);
    if up.body.Uploaded? {
      var row := db.files[|db.files| - 1];
      assert row in db.files && db.FileRowValid(row);
      Download.OwnFileDownloads(cfg, headers, db.files, row, now);
    }
  }
}
