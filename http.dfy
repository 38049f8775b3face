/** The HTTP results the API controllers return. */
module Http {

  datatype Response<+T> =
    | Ok(value: T)          // 200 with a body
    | Created(value: T)     // 201 CreatedAtAction
    | NoContent             // 204
    | BadRequest            // 400
    | NotFound              // 404
    | Conflict              // 409
    | ServerError           // 500: an exception escaped `SaveChangesAsync`
}
