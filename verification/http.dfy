/** Values shared by every request handler: optional values, the JSON response
    envelope `{success, data | message}`, the status codes the handlers send,
    and JavaScript truthiness of a request-body string. */
module Http {

  /** A value that may be absent (`undefined`/`null` in the request or a
      nullable column in the database). */
  datatype Option<+T> = None | Some(value: T)

  /** `!!x` for a string field of a request body: absent and "" are falsy. */
  predicate Present(s: Option<string>) {
    s.Some? && s.value != ""
  }

  const OK := 200
  const CREATED := 201
  const BAD_REQUEST := 400
  const UNAUTHORIZED := 401
  const FORBIDDEN := 403
  const NOT_FOUND := 404
  const CONFLICT := 409
  const SERVER_ERROR := 500

  /** Stands for `err.message`, the database's own error text, which the
      handlers pass on in a 500 response. */
  const MSG_DB_ERROR := "database error"

  /** The response envelope: `{success: true, data}` or `{success: false, message}`,
      with the HTTP status it is sent with. */
  datatype Response<+T> =
    | Success(status: int, data: T)
    | Failure(status: int, message: string)
}
