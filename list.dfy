/** `GET /api/files/list`: after the bearer-token gate, the caller's files joined with
    their owner's username, newest upload first, each projected to the fields the list
    shows. The handler only reads, so it is a function of the two tables. */
module ListFiles {
  import opened Wrappers
  import opened Text
  import opened Tokens
  import opened Http
  import opened Auth
  import opened Store

  /** `FROM files f JOIN users u ON f.user_id = u.id WHERE f.user_id = $1`, in table order:
      the caller's rows whose owner row exists. */
  function OwnedRows(files: seq<FileRecord>, users: seq<UserRow>, owner: Option<nat>): (r: seq<FileRecord>)
    ensures forall f :: f in r <==> f in files && owner == Some(f.userId) && HasUser(users, f.userId)
    ensures multiset(r) <= multiset(files)
  {
    if files == [] then []
    else
      var rest := OwnedRows(files[1..], users, owner);
      assert files == [files[0]] + files[1..];
      assert forall f :: f in files <==> f == files[0] || f in files[1..];
      if owner == Some(files[0].userId) && HasUser(users, files[0].userId) then [files[0]] + rest else rest
  }

  /** `ORDER BY f.uploaded_at DESC`: upload times never increase along the rows. */
  predicate NewestFirst(rows: seq<FileRecord>) {
    forall i, j :: 0 <= i < j < |rows| ==> rows[i].uploadedAt >= rows[j].uploadedAt
  }

  /** A row no older than the head of a newest-first sequence can go in front of it. */
  lemma PrependNewest(x: FileRecord, rows: seq<FileRecord>)
    requires NewestFirst(rows)
    requires rows != [] ==> x.uploadedAt >= rows[0].uploadedAt
    ensures NewestFirst([x] + rows)
  {
    var r := [x] + rows;
    forall i, j | 0 <= i < j < |r|
      ensures r[i].uploadedAt >= r[j].uploadedAt
    {
      assert r[j] == rows[j - 1];
      if i > 0 {
        assert r[i] == rows[i - 1];
      }
    }
  }

  /** Puts `f` in front of the first row that is not newer than it. */
  function InsertByTime(f: FileRecord, rows: seq<FileRecord>): (r: seq<FileRecord>)
    requires NewestFirst(rows)
    ensures NewestFirst(r)
    ensures multiset(r) == multiset(rows) + multiset{f}
    ensures |r| == |rows| + 1
    ensures r[0] == f || (rows != [] && r[0] == rows[0])
  {
    if rows == [] || f.uploadedAt >= rows[0].uploadedAt then
      PrependNewest(f, rows);
      [f] + rows
    else
      var rest := InsertByTime(f, rows[1..]);
      assert rows == [rows[0]] + rows[1..];
      PrependNewest(rows[0], rest);
      assert multiset([rows[0]] + rest) == multiset{rows[0]} + multiset(rest);
      [rows[0]] + rest
  }

  /** The rows newest first; rows uploaded at the same instant keep no particular order. */
  function SortNewestFirst(rows: seq<FileRecord>): (r: seq<FileRecord>)
    ensures NewestFirst(r)
    ensures multiset(r) == multiset(rows)
  {
    if rows == [] then []
    else
      assert rows == [rows[0]] + rows[1..];
      InsertByTime(rows[0], SortNewestFirst(rows[1..]))
  }

  /** `u.username as uploaded_by` for a file whose owner exists. */
  function OwnerName(users: seq<UserRow>, id: nat): string
    requires HasUser(users, id)
  {
    UserWithId(users, id).value.username
  }

  /** The `.map` projection: the id as decimal text, the sharing flag but never the token,
      and the owner's username. */
  function Item(f: FileRecord, uploadedBy: string): ListItem {
    ListItem(DecimalString(f.id), f.filename, f.originalName, f.size, f.mimeType,
             f.isShared, f.uploadedAt, uploadedBy, f.url)
  }

  /** The rows the query returns: the caller's own files whose owner exists, each once,
      newest first. */
  function ListedRows(users: seq<UserRow>, files: seq<FileRecord>, owner: Option<nat>): (rows: seq<FileRecord>)
    ensures NewestFirst(rows)
    ensures forall f :: f in rows <==> f in files && owner == Some(f.userId) && HasUser(users, f.userId)
    ensures multiset(rows) <= multiset(files)
    ensures forall k :: 0 <= k < |rows| ==> owner == Some(rows[k].userId) && HasUser(users, rows[k].userId)
  {
    var owned := OwnedRows(files, users, owner);
    var rows := SortNewestFirst(owned);
    SameElements(rows, owned);
    rows
  }

  /** Sequences with the same multiset have the same elements, position by position too. */
  lemma SameElements(a: seq<FileRecord>, b: seq<FileRecord>)
    requires multiset(a) == multiset(b)
    ensures forall f :: f in a <==> f in b
    ensures forall k :: 0 <= k < |a| ==> a[k] in b
  {
    assert forall f :: f in a <==> f in multiset(a);
    assert forall k :: 0 <= k < |a| ==> a[k] in a;
  }

  /** The list a caller gets: the projection of each returned row, in the query's order;
      so it is newest first too. */
  function Listing(users: seq<UserRow>, files: seq<FileRecord>, owner: Option<nat>): (items: seq<ListItem>)
    ensures var rows := ListedRows(users, files, owner);
            && |items| == |rows|
            && forall i :: 0 <= i < |items| ==> items[i] == Item(rows[i], OwnerName(users, rows[i].userId))
    ensures forall i, j :: 0 <= i < j < |items| ==> items[i].uploadedAt >= items[j].uploadedAt
  {
    var rows := ListedRows(users, files, owner);
    seq(|rows|, k requires 0 <= k < |rows| => Item(rows[k], OwnerName(users, rows[k].userId)))
  }

  /** The handler: the method and token steps, then the caller's list. */
  function Handle(cfg: Config, verb: string, headers: Headers, users: seq<UserRow>, files: seq<FileRecord>, now: int)
    : (r: Response)
    ensures Preflight(verb, "GET").Some? ==> r == Preflight(verb, "GET").value
    ensures verb == "GET" && Authenticate(cfg, headers.authorization, now).Failure? ==>
              r == Authenticate(cfg, headers.authorization, now).error
    ensures verb == "GET" && Authenticate(cfg, headers.authorization, now).Success? ==>
              r == Response(OK, Files(Listing(users, files, CallerId(Authenticate(cfg, headers.authorization, now).value))))
  {
    match Preflight(verb, "GET")
    case Some(early) => early
    case None =>
      match Authenticate(cfg, headers.authorization, now)
      case Failure(denied) => denied
      case Success(caller) => Response(OK, Files(Listing(users, files, CallerId(caller))))
  }

  /** In a consistent store the join drops nothing: the list holds every row the caller
      owns, and each names the caller as uploader. */
  lemma ListingIsComplete(db: Db, owner: nat)
    requires db.Valid()
    ensures forall f :: f in ListedRows(db.users, db.files, Some(owner)) <==> f in RowsOf(db.files, Some(owner))
    ensures forall i :: 0 <= i < |Listing(db.users, db.files, Some(owner))| ==>
              HasUser(db.users, owner) && Listing(db.users, db.files, Some(owner))[i].uploadedBy == OwnerName(db.users, owner)
  {
    assert forall f :: f in db.files ==> db.FileRowValid(f);
    var rows := ListedRows(db.users, db.files, Some(owner));
    var items := Listing(db.users, db.files, Some(owner));
    forall k | 0 <= k < |items|
      ensures HasUser(db.users, owner) && items[k].uploadedBy == OwnerName(db.users, owner)
    {
      assert rows[k] in rows;
    }
  }

  /** A caller without a user id (one presenting a share token) gets an empty list. */
  lemma NoUserIdListsNothing(users: seq<UserRow>, files: seq<FileRecord>)
    ensures Listing(users, files, None) == []
  {
    assert OwnedRows(files, users, None) == [] by {
      if OwnedRows(files, users, None) != [] {
        assert OwnedRows(files, users, None)[0] in OwnedRows(files, users, None);
      }
    }
  }
}
