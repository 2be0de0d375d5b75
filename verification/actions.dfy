/** The results the controller actions return (`IActionResult` and `ActionResult<T>`). */
module Actions {
  datatype ActionResult<+T> =
    | Ok(body: T)
    | Created(body: T)
    | NoContent
    | BadRequest(errors: seq<string>)
    | NotFound
      /** An exception that escaped the action; the server answers 500. */
    | ServerError(message: string)
}
