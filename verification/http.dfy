/** The pieces of net/http the handlers use: status codes and the cookie fields they set. */
module Http {

  const StatusOK: nat := 200
  const StatusFound: nat := 302
  const StatusSeeOther: nat := 303
  const StatusBadRequest: nat := 400
  const StatusUnauthorized: nat := 401
  const StatusForbidden: nat := 403
  const StatusNotFound: nat := 404
  const StatusConflict: nat := 409
  const StatusInternalServerError: nat := 500

  /** One hour and one day, in seconds of the caller's clock. */
  const Hour: int := 3600
  const Day: int := 24 * Hour

  /** The fields of an http.Cookie that this code sets. */
  datatype Cookie = Cookie(name: string, value: string, expires: int, path: string, httpOnly: bool)
}
