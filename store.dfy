/** The two tables the handlers share, `users` and `files`, with the queries and the three
    writes the handlers issue. Rows are kept in insertion order; ids come from the tables'
    SERIAL sequences, which start at 1. Column widths and constraints follow the table
    definitions the handlers create. */
module Store {
  import opened Wrappers
  import opened Text

  /** the largest value of a PostgreSQL `INTEGER` */
  const INT4_MAX: nat := 2147483647

  const USERNAME_WIDTH: nat := 50
  const PASSWORD_WIDTH: nat := 255
  const EMAIL_WIDTH: nat := 100
  /** width of `filename`, `original_name` and `cloudinary_public_id` */
  const NAME_WIDTH: nat := 255
  const MIME_WIDTH: nat := 100
  const SHARE_TOKEN_WIDTH: nat := 500

  const ERR_NOT_AN_INTEGER := "invalid input syntax for type integer"
  const ERR_TOO_LONG := "value too long for type character varying"
  const ERR_OUT_OF_RANGE := "value is out of range for type integer"
  const ERR_DUPLICATE := "duplicate key value violates unique constraint"
  const ERR_NULL_OWNER := "null value in column \"user_id\" violates not-null constraint"
  const ERR_UNKNOWN_OWNER := "insert or update on table \"files\" violates foreign key constraint"
  const ERR_SEQUENCE_EXHAUSTED := "nextval: reached maximum value of sequence"

  /** the messages a failed `files` insert reports */
  const INSERT_FILE_ERRORS: set<string> :=
    {ERR_TOO_LONG, ERR_OUT_OF_RANGE, ERR_NULL_OWNER, ERR_UNKNOWN_OWNER, ERR_SEQUENCE_EXHAUSTED}

  /** A `users` row; `password` holds the bcrypt hash. */
  datatype UserRow = UserRow(id: nat, username: string, password: string, email: string)

  /** A `files` row. `url` is `cloudinary_url`, `publicId` is `cloudinary_public_id`. */
  datatype FileRecord = FileRecord(
    id: nat, userId: nat, filename: string, originalName: string, publicId: string,
    url: string, size: nat, mimeType: string, isShared: bool, shareToken: Option<string>,
    uploadedAt: int)

  /** How PostgreSQL reads a request's id text as an `INTEGER` parameter: decimal digits
      within range; anything else makes the query fail. */
  function ParseId(s: string): (r: Option<nat>)
    ensures r.Some? <==> ParseDecimal(s).Some? && ParseDecimal(s).value <= INT4_MAX
    ensures r.Some? ==> r.value == ParseDecimal(s).value && r.value <= INT4_MAX
  {
    match ParseDecimal(s)
    case Some(n) => if n <= INT4_MAX then Some(n) else None
    case None => None
  }

  /** The decimal text of any row id (what the file list sends out) reads back as that id. */
  lemma IdRoundTrip(n: nat)
    requires n <= INT4_MAX
    ensures ParseId(DecimalString(n)) == Some(n)
  {
    DecimalRoundTrip(n);
  }

  predicate UserFits(username: string, password: string, email: string) {
    |username| <= USERNAME_WIDTH && |password| <= PASSWORD_WIDTH && |email| <= EMAIL_WIDTH
  }

  predicate FileFits(filename: string, originalName: string, publicId: string, size: nat, mimeType: string) {
    && |filename| <= NAME_WIDTH && |originalName| <= NAME_WIDTH && |publicId| <= NAME_WIDTH
    && |mimeType| <= MIME_WIDTH && size <= INT4_MAX
  }

  predicate HasUser(users: seq<UserRow>, id: nat) {
    exists i :: 0 <= i < |users| && users[i].id == id
  }

  /** `SELECT ... FROM users WHERE id = $1`: the first user with this id. */
  function UserWithId(users: seq<UserRow>, id: nat): (r: Option<UserRow>)
    ensures r.Some? ==> r.value in users && r.value.id == id
    ensures r.None? <==> !HasUser(users, id)
  {
    if users == [] then None
    else if users[0].id == id then Some(users[0])
    else
      var r := UserWithId(users[1..], id);
      assert HasUser(users, id) ==> HasUser(users[1..], id) by {
        if HasUser(users, id) {
          var i :| 0 <= i < |users| && users[i].id == id;
          assert users[1..][i - 1].id == id;
        }
      }
      r
  }

  /** `SELECT id FROM users WHERE username = $1 OR email = $2` returns a row. */
  function UserTaken(users: seq<UserRow>, username: string, email: string): (r: bool)
    ensures r <==> exists i :: 0 <= i < |users| && (users[i].username == username || users[i].email == email)
  {
    if users == [] then false
    else if users[0].username == username || users[0].email == email then true
    else
      var r := UserTaken(users[1..], username, email);
      assert r ==> exists i :: 0 <= i < |users| && (users[i].username == username || users[i].email == email) by {
        if r {
          var i :| 0 <= i < |users[1..]| && (users[1..][i].username == username || users[1..][i].email == email);
          assert users[i + 1] == users[1..][i];
        }
      }
      r
  }

  /** `SELECT * FROM files WHERE id = $1 AND user_id = $2`, first row. The owner is `None`
      when the caller has no user id: `user_id = NULL` matches no row. */
  function FindOwned(files: seq<FileRecord>, id: nat, owner: Option<nat>): (r: Option<FileRecord>)
    ensures r.Some? ==> r.value in files && r.value.id == id && owner == Some(r.value.userId)
    ensures r.None? <==> forall i :: 0 <= i < |files| ==> !(files[i].id == id && owner == Some(files[i].userId))
  {
    if files == [] then None
    else if files[0].id == id && owner == Some(files[0].userId) then Some(files[0])
    else
      var r := FindOwned(files[1..], id, owner);
      assert r.None? ==> forall i :: 0 <= i < |files| ==> !(files[i].id == id && owner == Some(files[i].userId)) by {
        if r.None? {
          forall i | 0 <= i < |files|
            ensures !(files[i].id == id && owner == Some(files[i].userId))
          {
            if i > 0 { assert files[i] == files[1..][i - 1]; }
          }
        }
      }
      r
  }

  /** The `files` primary key: no two rows share an id. */
  predicate UniqueFileIds(files: seq<FileRecord>) {
    forall i, j :: 0 <= i < j < |files| ==> files[i].id != files[j].id
  }

  /** With unique ids, the owner-scoped lookup of one of the owner's rows finds that row. */
  lemma FindOwnedUnique(files: seq<FileRecord>, f: FileRecord, owner: Option<nat>)
    requires UniqueFileIds(files) && f in files && owner == Some(f.userId)
    ensures FindOwned(files, f.id, owner) == Some(f)
  {
    var k :| 0 <= k < |files| && files[k] == f;
    var r := FindOwned(files, f.id, owner);
    assert r.Some?;
    var j :| 0 <= j < |files| && files[j] == r.value;
    assert j == k;
  }

  /** `... WHERE user_id = $1`: the caller's own rows, in table order. */
  function RowsOf(files: seq<FileRecord>, owner: Option<nat>): (r: seq<FileRecord>)
    ensures forall f :: f in r <==> f in files && owner == Some(f.userId)
  {
    if files == [] then []
    else
      var rest := RowsOf(files[1..], owner);
      assert forall f :: f in files <==> f == files[0] || f in files[1..];
      if owner == Some(files[0].userId) then [files[0]] + rest else rest
  }

  /** An owner-scoped lookup sees only the owner's rows: other users' rows, with this id
      or not, never change its answer. */
  lemma {:induction false} FindOwnedSeesOwnRowsOnly(files: seq<FileRecord>, id: nat, owner: Option<nat>)
    ensures FindOwned(files, id, owner) == FindOwned(RowsOf(files, owner), id, owner)
  {
    if files != [] {
      FindOwnedSeesOwnRowsOnly(files[1..], id, owner);
    }
  }

  /** `UPDATE files SET is_shared = TRUE, share_token = $1 WHERE id = $2`. */
  function MarkShared(files: seq<FileRecord>, id: nat, token: string): (r: seq<FileRecord>)
    ensures |r| == |files|
    ensures forall i :: 0 <= i < |r| && files[i].id == id ==> r[i].isShared && r[i].shareToken == Some(token)
    ensures forall i :: 0 <= i < |r| && files[i].id != id ==> r[i] == files[i]
  {
    seq(|files|, i requires 0 <= i < |files| =>
      if files[i].id == id then files[i].(isShared := true, shareToken := Some(token)) else files[i])
  }

  /** Marking a row shared changes that row's two sharing columns and nothing else:
      the row keeps its id, owner, names, blob reference, size, type and upload time,
      and every other row is untouched. */
  lemma MarkSharedEffect(files: seq<FileRecord>, id: nat, token: string, i: nat)
    requires i < |files|
    ensures var r := MarkShared(files, id, token)[i];
            if files[i].id == id then
              r.isShared && r.shareToken == Some(token) &&
              r == files[i].(isShared := r.isShared, shareToken := r.shareToken)
            else r == files[i]
  {
  }

  /** After the update, the row with that id is shared and holds exactly the new token. */
  lemma MarkedRowHoldsToken(files: seq<FileRecord>, id: nat, token: string)
    ensures forall f :: f in MarkShared(files, id, token) && f.id == id ==> f.isShared && f.shareToken == Some(token)
  {
    var after := MarkShared(files, id, token);
    forall f | f in after && f.id == id
      ensures f.isShared && f.shareToken == Some(token)
    {
      var k :| 0 <= k < |after| && after[k] == f;
      MarkSharedEffect(files, id, token, k);
    }
  }

  /** Re-issuing overwrites: the row keeps only the latest token, exactly as if the earlier
      one had never been issued. */
  lemma ReshareSupersedes(files: seq<FileRecord>, id: nat, earlier: string, later: string)
    ensures MarkShared(MarkShared(files, id, earlier), id, later) == MarkShared(files, id, later)
  {
  }

  /** The database the handlers and the request scenarios see. */
  class Db {
    var users: seq<UserRow>
    var files: seq<FileRecord>
    /** the next values of the two SERIAL sequences */
    var nextUserId: nat
    var nextFileId: nat

    /** The tables' constraints (primary keys issued by the sequences, unique usernames
        and emails, every file owned by an existing user, column widths) plus the invariant
        the writes keep although no constraint enforces it: a file is shared exactly when
        it holds a share token. */
    ghost predicate Valid()
      reads this
    {
      && 1 <= nextUserId <= INT4_MAX + 1 && 1 <= nextFileId <= INT4_MAX + 1
      && (forall i :: 0 <= i < |users| ==>
            1 <= users[i].id < nextUserId && UserFits(users[i].username, users[i].password, users[i].email))
      && (forall i, j :: 0 <= i < j < |users| ==>
            users[i].id != users[j].id && users[i].username != users[j].username && users[i].email != users[j].email)
      && (forall i :: 0 <= i < |files| ==> FileRowValid(files[i]))
      && UniqueFileIds(files)
    }

    ghost predicate FileRowValid(f: FileRecord)
      reads this
    {
      && 1 <= f.id < nextFileId
      && HasUser(users, f.userId)
      && FileFits(f.filename, f.originalName, f.publicId, f.size, f.mimeType)
      && (f.isShared <==> f.shareToken.Some?)
      && (f.shareToken.Some? ==> |f.shareToken.value| <= SHARE_TOKEN_WIDTH)
    }

    /** Freshly created, empty tables. */
    constructor ()
      ensures Valid()
      ensures users == [] && files == [] && nextUserId == 1 && nextFileId == 1
    {
      users, files := [], [];
      nextUserId, nextFileId := 1, 1;
    }

    /** `INSERT INTO users (username, password, email) VALUES (...) RETURNING id, username, email`. */
    method InsertUser(username: string, password: string, email: string) returns (r: Result<UserRow, string>)
      requires Valid()
      modifies this
      ensures Valid()
      ensures files == old(files) && nextFileId == old(nextFileId)
      ensures r.Success? <==>
                UserFits(username, password, email) && !UserTaken(old(users), username, email) && old(nextUserId) <= INT4_MAX
      ensures r.Success? ==>
                && r.value == UserRow(old(nextUserId), username, password, email)
                && users == old(users) + [r.value]
                && nextUserId == old(nextUserId) + 1
      ensures r.Failure? ==> users == old(users) && nextUserId == old(nextUserId)
      ensures r.Failure? ==> r.error in {ERR_TOO_LONG, ERR_DUPLICATE, ERR_SEQUENCE_EXHAUSTED}
    {
      if !UserFits(username, password, email) {
        return Failure(ERR_TOO_LONG);
      }
      if UserTaken(users, username, email) {
        return Failure(ERR_DUPLICATE);
      }
      if nextUserId > INT4_MAX {
        return Failure(ERR_SEQUENCE_EXHAUSTED);
      }
      var row := UserRow(nextUserId, username, password, email);
      users := users + [row];
      nextUserId := nextUserId + 1;
      r := Success(row);
      assert forall f :: f in files && old(FileRowValid(f)) ==> FileRowValid(f) by {
        forall f | f in files && old(FileRowValid(f)) ensures FileRowValid(f) {
          var i :| 0 <= i < |old(users)| && old(users)[i].id == f.userId;
          assert users[i].id == f.userId;
        }
      }
    }

    /** `INSERT INTO files (user_id, filename, original_name, cloudinary_public_id,
        cloudinary_url, file_size, mime_type) VALUES (...) RETURNING id`; the sharing
        columns take their defaults and `uploaded_at` the current time. */
    method InsertFile(owner: Option<nat>, filename: string, originalName: string, publicId: string,
                      url: string, size: nat, mimeType: string, now: int)
      returns (r: Result<FileRecord, string>)
      requires Valid()
      modifies this
      ensures Valid()
      ensures users == old(users) && nextUserId == old(nextUserId)
      ensures r.Success? <==>
                && owner.Some? && HasUser(users, owner.value) && FileFits(filename, originalName, publicId, size, mimeType)
                && old(nextFileId) <= INT4_MAX
      ensures r.Success? ==>
                && r.value == FileRecord(old(nextFileId), owner.value, filename, originalName, publicId,
                                         url, size, mimeType, false, None, now)
                && files == old(files) + [r.value]
                && nextFileId == old(nextFileId) + 1
      ensures r.Failure? ==> files == old(files) && nextFileId == old(nextFileId)
      ensures r.Failure? ==> r.error in INSERT_FILE_ERRORS
      ensures FileFits(filename, originalName, publicId, size, mimeType) && owner.None? ==> r == Failure(ERR_NULL_OWNER)
    {
      if |filename| > NAME_WIDTH || |originalName| > NAME_WIDTH || |publicId| > NAME_WIDTH || |mimeType| > MIME_WIDTH {
        return Failure(ERR_TOO_LONG);
      }
      if size > INT4_MAX {
        return Failure(ERR_OUT_OF_RANGE);
      }
      if owner.None? {
        return Failure(ERR_NULL_OWNER);
      }
      if !HasUser(users, owner.value) {
        return Failure(ERR_UNKNOWN_OWNER);
      }
      if nextFileId > INT4_MAX {
        return Failure(ERR_SEQUENCE_EXHAUSTED);
      }
      var row := FileRecord(nextFileId, owner.value, filename, originalName, publicId, url, size, mimeType, false, None, now);
      files := files + [row];
      nextFileId := nextFileId + 1;
      r := Success(row);
    }

    /** `UPDATE files SET is_shared = TRUE, share_token = $1 WHERE id = $2`; a token wider
        than the column makes the update fail. */
    method SetShare(id: nat, token: string) returns (ok: bool)
      requires Valid()
      modifies this
      ensures Valid()
      ensures users == old(users) && nextUserId == old(nextUserId) && nextFileId == old(nextFileId)
      ensures ok <==> |token| <= SHARE_TOKEN_WIDTH
      ensures files == if ok then MarkShared(old(files), id, token) else old(files)
    {
      ok := |token| <= SHARE_TOKEN_WIDTH;
      if ok {
        files := MarkShared(files, id, token);
      }
    }
  }

  /** The owner-scoped lookup with the request's id text as its first parameter: text that
      is not an integer makes the query fail. */
  function LookupOwned(files: seq<FileRecord>, idText: string, owner: Option<nat>): (r: Result<Option<FileRecord>, string>)
    ensures r.Failure? <==> ParseId(idText).None?
    ensures r.Success? ==> r.value == FindOwned(files, ParseId(idText).value, owner)
  {
    match ParseId(idText)
    case None => Failure(ERR_NOT_AN_INTEGER)
    case Some(id) => Success(FindOwned(files, id, owner))
  }
}
