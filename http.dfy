/** What a handler receives besides its body fields, and the tagged responses it ends with. */
module Http {
  import opened Wrappers

  /** The request headers the handlers read. */
  datatype Headers = Headers(authorization: Option<string>, origin: Option<string>)

  /** The user echoed by registration: never the password. */
  datatype PublicUser = PublicUser(id: nat, username: string, email: string)

  /** The file echoed by upload. */
  datatype UploadedInfo = UploadedInfo(id: nat, filename: string, size: nat, mimeType: string, url: string)

  /** One entry of the file list: it says whether the file is shared, never with which token. */
  datatype ListItem = ListItem(
    id: string, filename: string, originalName: string, size: nat, mimeType: string,
    isShared: bool, uploadedAt: int, uploadedBy: string, url: string)

  datatype Body =
    | NoContent
    | Error(error: string)
    | Registered(message: string, token: string, user: PublicUser)
    | Uploaded(message: string, file: UploadedInfo)
    | ShareLink(message: string, shareUrl: string, shareToken: string)
    | Files(items: seq<ListItem>)
    | Redirect(location: string)

  datatype Response = Response(status: nat, body: Body)

  const OK: nat := 200
  const CREATED: nat := 201
  /** the status the platform's `res.redirect(url)` answers with */
  const TEMPORARY_REDIRECT: nat := 307
  const BAD_REQUEST: nat := 400
  const UNAUTHORIZED: nat := 401
  const FORBIDDEN: nat := 403
  const NOT_FOUND: nat := 404
  const METHOD_NOT_ALLOWED: nat := 405
  const SERVER_ERROR: nat := 500

  const MSG_METHOD_NOT_ALLOWED := "Método no permitido"

  /** A string field or parameter is truthy in JavaScript when present and non-empty. */
  predicate Present(field: Option<string>) {
    field.Some? && field.value != ""
  }

  /** The first two steps of every handler: a pre-flight `OPTIONS` ends with an empty 200,
      any method other than the handler's own ends with 405, and the handler's own
      method goes on (`None`). */
  function Preflight(verb: string, allowed: string): (r: Option<Response>)
    requires allowed != "OPTIONS"
    ensures r.None? <==> verb == allowed
    ensures verb == "OPTIONS" ==> r == Some(Response(OK, NoContent))
    ensures verb != "OPTIONS" && verb != allowed ==> r == Some(Response(METHOD_NOT_ALLOWED, Error(MSG_METHOD_NOT_ALLOWED)))
  {
    if verb == "OPTIONS" then Some(Response(OK, NoContent))
    else if verb != allowed then Some(Response(METHOD_NOT_ALLOWED, Error(MSG_METHOD_NOT_ALLOWED)))
    else None
  }
}
