/**
 The responses the controller actions produce, reduced to their status and
 payload. Message texts, headers and serialisation are not modelled.
 */
module Http {
  import opened TaskItems

  /** Why a request was answered with 400 Bad Request. */
  datatype Problem =
    | IdMismatch                     // the route id differs from the body's Id
    | InvalidModel(errors: seq<Field>)  // the model state lists these properties
    | EmptyQuery                     // a search query that is null or blank

  /** An action's answer: the variant is the status code, the argument its payload. */
  datatype Response<T> =
    | Ok(value: T)                   // 200
    | Created(value: T)              // 201, the stored entity
    | BadRequest(problem: Problem)   // 400
    | NotFound                       // 404
}
