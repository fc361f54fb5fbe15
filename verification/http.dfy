/** HTTP status codes shared by the service and its chaos client. */
module Http {
  const OK: int := 200
  const CREATED: int := 201
  const NO_CONTENT: int := 204
  const BAD_REQUEST: int := 400
  const NOT_FOUND: int := 404
  const METHOD_NOT_ALLOWED: int := 405
}
