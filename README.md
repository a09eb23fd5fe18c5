# File-sharing API: access-control model

A Dafny model of the server side of a small file-sharing service. The service has five
request handlers, each a short chain of guarded steps over two PostgreSQL tables, `users`
and `files`, and a signed-token library:

- **register** validates a username, password and e-mail. It refuses a taken username or
  e-mail, stores the user with a bcrypt hash of the password, and returns a 24-hour
  session token.
- **upload** runs the multipart parser first (type filter, 10 MiB limit), then the
  bearer-token gate. It then puts the file in the blob store and only afterwards inserts
  the `files` row, owned by the caller.
- **share** checks that the named file belongs to the caller, mints a 7-day share token,
  stores it in the row (replacing any earlier one) and returns the token and a link.
- **list** returns the caller's files newest first. Each item exposes whether the file is
  shared, never the token.
- **download** looks the caller's file up by id and redirects to its stored URL.

Module layout:

- `Wrappers` holds `Option` and `Result`.
- `Text` holds the JavaScript string operations used: `split` on one character,
  `split(...).pop()`, ASCII `toLowerCase`, the unanchored regular-expression test,
  `Number.prototype.toString`, and PostgreSQL's reading of an integer parameter.
- `Tokens` models the token library as an oracle (`sign`, `verify`) with the laws an
  HMAC-signed format obeys (`Sound`).
- `Http` holds responses and the `OPTIONS`/405 prelude.
- `Auth` is the `authenticateToken` gate the handlers share.
- `Store` holds the rows and the class `Db` that owns the two tables. `Db.Valid` is the
  table constraints plus the invariant the writes keep: a file is shared exactly when it
  holds a token. No column constraint enforces that invariant.
- One module per handler: `Register`, `Upload` and `Share` change the store and are
  methods; `ListFiles` and `Download` only read and are functions.
- `Scenarios` runs requests in sequence.

The clock, the signing secret, the password hasher and the blob store are parameters.

## Model

| member | source | states |
|---|---|---|
| Text.Split | api/files/share.js:7 | the parts contain no separator, there is at least one, and joining them with the separator gives the string back |
| Text.SplitJoin | api/files/share.js:7 | splitting undoes joining of separator-free parts |
| Text.SplitAfterWord | api/files/share.js:7 | a separator-free word followed by the separator splits off as the first part |
| Text.SplitAtSeparator | api/files/upload.js:100 | splitting `x + sep + w` is splitting `x` followed by splitting `w` |
| Text.LastSegment | api/files/upload.js:100 | `split(c).pop()` contains no separator and is the whole string or the text after some separator |
| Text.LastSegmentAfter | api/files/upload.js:100 | after a final separator, a separator-free tail is exactly what `pop()` returns |
| Text.Lower | api/files/upload.js:15 | lower-casing keeps the length and maps each character through ASCII lower-casing |
| Text.MatchAtSlice | api/files/upload.js:14-16 | the character-by-character match agrees with slice equality |
| Text.ContainsFromOccurs | api/files/upload.js:14-16 | the scan from a position finds exactly the occurrences at that position or later |
| Text.ContainsOccurs | api/files/upload.js:14-16 | the unanchored test holds iff the word occurs at some position |
| Text.MissingCharNotContained | api/files/upload.js:14-16 | a word with a character the string lacks does not match |
| Text.DecimalString | api/files/list.js:68 | `id.toString()` is a non-empty string of decimal digits |
| Text.ParseDecimal | api/files/share.js:55-58 | an id string is read as a number exactly when it is a non-empty string of digits |
| Text.DecimalRoundTrip | api/files/list.js:68 | reading back the decimal text of a number gives the number |
| Tokens.IssuedTokenLifetime | api/files/share.js:65-69 | under a sound signer, an issued token verifies to its own claims until its expiry and to nothing afterwards |
| Http.Preflight | api/files/share.js:28-34 | OPTIONS gives an empty 200, any other method but the handler's own gives 405, and only the handler's own method goes on |
| Auth.BearerToken | api/files/share.js:6-11 | the extracted token is non-empty and space-free; no header gives no token |
| Auth.BearerTokenOfHeader | api/files/share.js:6-7 | a header `<scheme> <token>[ <more>]` yields exactly `token` |
| Auth.BearerTokenShape | api/files/share.js:6-7 | conversely, a header that yields `token` has that shape |
| Auth.CallerId | api/files/share.js:57 | session claims give their user id; share-link claims have no `id`, so the queries get NULL |
| Auth.Authenticate | api/files/share.js:5-20 | no token gives 401 "Token de acceso requerido"; a token that does not verify gives 403 "Token inválido"; otherwise the verified claims are the caller |
| Auth.AuthenticatedIffGenuine | api/files/share.js:13-19 | a scheme word plus the token signed for some claims passes the gate as those claims before their expiry, and gets 403 from then on |
| Auth.AuthenticatedCallerIsSigned | api/files/share.js:13-19 | claims that pass the gate came from the token signed for them under the server secret, and that token has not expired |
| Store.ParseId | api/files/share.js:55-58 | the query accepts an id parameter exactly when it is a decimal numeral whose value fits a PostgreSQL INTEGER, and the id is that value |
| Store.IdRoundTrip | api/files/list.js:68 | the decimal text of a row id is accepted as that same id |
| Store.UserWithId | api/files/list.js:61 | the join finds a user with the file's owner id exactly when one exists |
| Store.UserTaken | api/auth/register.js:35-40 | the duplicate query finds a row iff some user has that username or that e-mail |
| Store.FindOwned | api/files/share.js:55-58 | the lookup returns a row with that id owned by the caller, and returns nothing iff no such row exists; a caller without a user id finds nothing |
| Store.FindOwnedUnique | api/files/download.js:55-64 | with unique ids, looking up one of the owner's rows by its id and owner finds that row |
| Store.RowsOf | api/files/list.js:62 | a row is kept iff its owner is the caller |
| Store.FindOwnedSeesOwnRowsOnly | api/files/download.js:55-62 | the lookup answers the same when all other users' rows are removed |
| Store.MarkShared | api/files/share.js:72-75 | every row with that id becomes shared and holds the new token; every other row is unchanged; the table keeps its length |
| Store.MarkSharedEffect | api/files/share.js:72-75 | the update sets `is_shared` and `share_token` on the row with that id and leaves its other columns and every other row unchanged |
| Store.MarkedRowHoldsToken | api/files/share.js:72-75 | after the update the row with that id is shared and holds exactly the new token |
| Store.ReshareSupersedes | api/files/share.js:72-75 | sharing again leaves the table exactly as if only the later token had been issued |
| Store.Db.constructor | api/db.js:13-39 | fresh tables are empty, their sequences start at 1, and the table constraints and the shared-iff-token invariant hold |
| Store.Db.InsertUser | api/auth/register.js:48-51 | the insert succeeds iff the values fit their columns, neither the username nor the e-mail is taken, and the sequence is not exhausted; it then appends exactly the row with the next id and advances the sequence, and otherwise changes nothing; a failure reports the column-width, unique-constraint or sequence message; the constraints are kept |
| Store.Db.InsertFile | api/files/upload.js:95-107 | the insert succeeds iff there is an owner id, that user exists, the values fit their columns, and the sequence is not exhausted; it then appends the row with the next id, not shared and without a token, and otherwise changes nothing; a failure reports one of the column, owner or sequence messages, and with values that fit and no owner it reports the NOT NULL violation; the constraints are kept |
| Store.Db.SetShare | api/files/share.js:72-75 | the update succeeds iff the token fits its column, and then the table becomes the one with that row marked shared; the constraints are kept |
| Store.LookupOwned | api/files/share.js:55-58 | id text that is not an integer makes the query fail; otherwise the result is the owner-scoped lookup |
| Register.Validate | api/auth/register.js:26-42 | missing fields are checked first, then the password length (six characters pass), then duplicates; a request passes iff all fields are present, the password is long enough and no user has the username or the e-mail |
| Register.Handle | api/auth/register.js:5-76 | OPTIONS and 405 come first; validation failures are 400 and change nothing; 201 happens iff validation passes and the insert succeeds; on 201 exactly one user is added with the next id and the user sequence advances by one; the stored password is the cost-10 hash, and the body has the 24-hour token for id and username and the user without the password; files are never touched |
| Register.SessionToken | api/auth/register.js:56-60 | the 24-hour token for `{id, username}`; under a sound signer it is non-empty and has no space, so it fits a `Bearer` header |
| Register.SessionTokenAuthenticates | api/auth/register.js:56-60 | the returned token, sent as `Bearer <token>`, passes the gate as the new user for 24 hours and is refused afterwards |
| Upload.MatchesAllowedTypeIff | api/files/upload.js:14-16 | the pattern test holds iff one of the sixteen words occurs in the string |
| Upload.FileFilter | api/files/upload.js:12-23 | the filter accepts iff a listed word occurs in the lower-cased name and one occurs in the MIME type as sent |
| Upload.FilterAcceptsPdf | api/files/upload.js:14-19 | "Report.PDF" sent as "application/pdf" passes the filter |
| Upload.FilterRefusesPlainText | api/files/upload.js:14-21 | "notes.txt" sent as "text/plain" is refused, because no listed word occurs in "text/plain" |
| Upload.NoTypeWithout | api/files/upload.js:14-16 | a string lacking the letters j, g, d, s, z, r, m and v and the word `txt` matches none of the listed words |
| Upload.Receive | api/files/upload.js:7-24 | a file part fails iff it fails the filter or is larger than 10 MiB; a filter failure gives "Tipo de archivo no permitido"; no file part is not an error |
| Upload.SizeLimitBoundary | api/files/upload.js:9-11 | a file that passes the filter is received iff it has at most 10 × 1024 × 1024 bytes |
| Upload.StoredName | api/files/upload.js:100 | the stored file name has no `/` and is the public id or its text after a `/` |
| Upload.StoredNameInFolder | api/files/upload.js:100 | a public id `folder/name` is stored under the name `name` |
| Upload.Handle | api/files/upload.js:44-124 | parser errors give 500 before the token is looked at; then come 401/403; then a request without a file gives 400; a failed put gives 500 and inserts nothing; a put followed by a failed insert gives 500 "Error al subir archivo: " plus the database's message, and a share-token caller, having no user id, gets the NOT NULL message there; success happens iff the put and the insert succeed, and then appends exactly one row owned by the caller with the next id, advances the file sequence by one, names the row after the last segment of the public id, and echoes it; users are never touched |
| Share.ShareUrl | api/files/share.js:77 | the link is the origin (or the default one), then `/api/shared/`, then the token |
| Share.ShareUrlLastSegment | api/files/share.js:77 | the last path segment of the link is the token, for any token without `/`, so for every token a sound signer issues |
| Share.Handle | api/files/share.js:22-89 | OPTIONS and 405 first, then 401/403; a missing file id gives 400, a non-integer one 500, and a file that is absent or not the caller's gives the same 404; none of these changes the store; a token too wide for its column gives 500 "Error al compartir archivo"; success happens iff the caller owns the file and the token fits the column, and then exactly that row holds the new token, and the response returns that token and a link whose last path segment is that token |
| Share.ShareToken | api/files/share.js:65-69 | the seven-day token for `{fileId, userId}`; under a sound signer it is non-empty and has neither a space nor a `/`, so it fits a `Bearer` header and a URL path segment |
| Share.ShareTokenLifetime | api/files/share.js:65-69 | the share token verifies to `{fileId, userId}` for seven days from issue and to nothing afterwards |
| Share.ShareTokenOwnsNothing | api/files/share.js:55-58 | a share token used as a bearer token passes the gate but carries no user id, so owner-scoped queries match nothing |
| ListFiles.OwnedRows | api/files/list.js:60-62 | the join keeps a row iff it is the caller's and its owner exists |
| ListFiles.InsertByTime | api/files/list.js:63 | inserting into a newest-first sequence keeps it newest first and adds exactly that row |
| ListFiles.SortNewestFirst | api/files/list.js:63 | the result is newest first and a permutation of the input |
| ListFiles.ListedRows | api/files/list.js:49-65 | the query's rows are newest first, are exactly the caller's rows whose owner exists, and repeat no table row |
| ListFiles.Listing | api/files/list.js:67-77 | each item is its row projected to id text, names, size, type, sharing flag, upload time, uploader name and URL, with no share token, in the rows' order, so newest first |
| ListFiles.Handle | api/files/list.js:22-85 | OPTIONS and 405 first, then 401/403, then 200 with the caller's listing; the store is only read |
| ListFiles.ListingIsComplete | api/files/list.js:59-62 | in a consistent store every file of the caller's is listed and each item names the caller as uploader |
| ListFiles.NoUserIdListsNothing | api/files/list.js:62-64 | a caller without a user id gets an empty list |
| Download.Handle | api/files/download.js:22-73 | OPTIONS and 405 first, then 401/403; a missing id gives 400 and a non-integer one 500; a redirect happens iff the caller owns a file with that id, and goes to that file's stored URL; otherwise 404; the store is only read |
| Download.DownloadSeesOwnRowsOnly | api/files/download.js:55-62 | removing every row the caller does not own changes no answer, so absent and not-yours cannot be told apart |
| Download.OwnFileDownloads | api/files/download.js:48-67 | the caller's own file, asked for by the decimal text of its id, redirects to its stored URL |
| Download.ListedItemDownloads | api/files/download.js:48-67 | every item of the caller's list, downloaded by its id, redirects to that item's URL |
| Scenarios.RegisterTwice | api/auth/register.js:35-42 | after a successful registration, another with the same username is refused with "Usuario o email ya existe" |
| Scenarios.ShareTwice | api/files/share.js:72-75 | after two successful shares of one file, its row holds only the second token |
| Scenarios.UploadThenDownload | api/files/download.js:55-67 | a file just uploaded, downloaded by the returned id, redirects to the URL the blob store gave |

## Left out

- `Store.Db.InsertUser` and `Store.Db.InsertFile` refuse every value wider than its
  VARCHAR column. PostgreSQL instead stores the value truncated when the characters past
  the width are all spaces. The model does not capture that case.
- The signing library, the password hasher and the blob store are oracles. Token
  verification is assumed only to obey the laws of `Tokens.Sound`. The hash and the put
  are arbitrary functions. The put's failure is a message.
- The fallback signing secret is not modelled: the secret is a `Config` field.
- The clock is a parameter in seconds. Token expiry follows the library's "now ≥ exp
  means expired" rule.
- CORS headers are left out.
- After a 401 or 403 the gate's promise never settles. That path is modelled as the
  handler ending with that response.
- The 500 answers caused by the database being unreachable are left out, and with them
  list's only 500 path ("Error al obtener archivos").
- The database is assumed always available.
- The table initialisation the registration handler runs first is I/O. So is the pool
  setup. Their table definitions shape `Store`.
- The `created_at` column is not modelled.
- Only JSON string values are modelled for body fields and query parameters. A number or
  other JSON value for `username`, `password`, `email` or `fileId` is not covered.
- Password length is counted in characters, not in UTF-16 code units.
- Lower-casing covers only ASCII letters.
- PostgreSQL's integer input is modelled as decimal digits within range. Surrounding
  spaces and a sign, which PostgreSQL also accepts, are not modelled.
- PostgreSQL error messages are abbreviated constants. Only upload shows them to the
  client.
- A failed insert consumes a sequence value in PostgreSQL. The model allocates ids only
  on success, so it has no gaps.
- Which of several simultaneous constraint violations PostgreSQL reports first is not
  modelled. The model checks them in a fixed order: widths first and the sequence last.
- Rows uploaded at the same instant are listed in no particular order. The model keeps
  the insertion sort's order.
- `ON DELETE CASCADE` is not modelled because no handler deletes users.
- The login handler and the anonymous shared-file resolver are not part of this model.
  So are `api/cloudinary.js`, the standalone schema script and the client application.
- Concurrency between requests is not modelled. Requests run one after another.
