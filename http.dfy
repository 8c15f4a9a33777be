/** What a handler sends back: a status code with either the JSON body of a
    success or the `{ error }` message of a failure, and the collection as
    the handler leaves it. */
module Http {

  const OK: nat := 200
  const CREATED: nat := 201
  const BAD_REQUEST: nat := 400
  const NOT_FOUND: nat := 404

  /** The error texts the handlers put in their `{ error }` bodies. */
  const MISSING_DATA: string := "Faltan datos."
  const COMMENT_NOT_FOUND: string := "Comentario no encontrado"

  datatype Reply<T> =
    | Success(status: nat, body: T)
    | Failure(status: nat, error: string)

  /** The reply to one request together with the collection written back
      (or, on an early return, the collection as it was read). */
  datatype Outcome<R, T> = Outcome(reply: Reply<T>, store: seq<R>)
}
