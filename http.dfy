/**
 * What the request handlers answer, and the optional values (Swift's `T?`)
 * the entities carry.
 */
module Http {

  /** Swift's optional: `nil` or a value. */
  datatype Option<+T> = None | Some(value: T) {

    /** Swift's `??`: the value when present, the fallback when `nil`. */
    function GetOr(fallback: T): (r: T)
      ensures Some? ==> r == value
      ensures None? ==> r == fallback
    {
      match this
      case Some(v) => v
      case None => fallback
    }
  }

  /**
   * A handler's answer: 200 with a body, or one of the statuses the
   * controllers throw (`Abort(.badRequest)`, `.notFound`, `.imATeapot`,
   * `.internalServerError`) or return (`.noContent`).
   */
  datatype Response<+T> = Ok(body: T) | NoContent | BadRequest | NotFound | Teapot | ServerError
}
