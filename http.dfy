/** What the route handlers share: the worker's configuration and the shape of a reply. */
module Http {
  /** The bindings the handlers read: the token secret and the comma-separated mail domains. */
  datatype Env = Env(cookiesSecret: string, emailDomain: string)

  /** A handler's answer: a 200 response with a body, or an error status. */
  datatype Reply<T> = Ok(body: T) | Error(status: nat)

  const BadRequest: nat := 400
  const Unauthorized: nat := 401
  const NotFound: nat := 404
  const Conflict: nat := 409
  const ServerError: nat := 500
}
