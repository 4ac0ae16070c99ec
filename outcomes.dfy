/** Value shapes shared by the note routes: optional values, patch fields
    that distinguish "not sent" from "sent", and the routes' three-way
    outcome (ok, 404 or 400). */
module Outcomes {

  datatype Option<+T> = None | Some(value: T)

  /** A field of a partial-update request. `Unset` is a field the client
      did not send (dropped by `exclude_unset`); `Set(v)` is a field that was
      sent, possibly with an explicit null when `v` is itself optional. */
  datatype Field<+T> = Unset | Set(value: T)

  /** The failures a route raises itself, each with the detail text the
      client sees. */
  datatype Error =
    | NotFound(detail: string)          // HTTP 404
    | InvalidOperation(detail: string)  // HTTP 400

  /** Python truthiness of an optional id: both a missing id and `0` are
      false, so the routes check neither as a parent. */
  predicate Truthy(id: Option<int>)
  {
    id.Some? && id.value != 0
  }

  datatype Result<+T> = Ok(value: T) | Err(error: Error)
}
