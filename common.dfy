/** Values shared by the three route files: optional values (SQL NULL, a missing
    JSON field), handler outcomes and the domain errors they map to. */
module Common {

  /** A value that may be absent: a missing request field or a NULL column. */
  datatype Option<+T> = None | Some(value: T)

  /** The errors the handlers answer with, named by their HTTP status:
      400, 401, 403, 404, and the 500 of a handler's catch clause, modelled
      where a statement the database refuses is reachable from a well-formed
      request. */
  datatype HttpError = BadRequest | Unauthorized | Forbidden | NotFound | ServerError

  /** What a handler answers: a success body or a domain error. */
  datatype Result<+T> = Ok(value: T) | Err(error: HttpError)

  /** JavaScript truthiness of an optional string field: present and not "". */
  predicate Truthy(s: Option<string>) {
    s.Some? && s.value != ""
  }

  /** The `x || null` idiom: a falsy string (missing or "") becomes NULL. */
  function OrNull(s: Option<string>): (r: Option<string>)
    ensures r.None? <==> !Truthy(s)
    ensures r.Some? ==> r == s && r.value != ""
  {
    if Truthy(s) then s else None
  }

  /** `WHERE <key> = id` over a table in insertion order: the index of the
      first row with that key, or none when no row has it. */
  function IndexOf<T>(rows: seq<T>, key: T -> int, id: int): (r: Option<nat>)
    ensures r.Some? ==> r.value < |rows| && key(rows[r.value]) == id
    ensures r.Some? ==> forall j | 0 <= j < r.value :: key(rows[j]) != id
    ensures r.None? ==> forall j | 0 <= j < |rows| :: key(rows[j]) != id
  {
    if rows == [] then None
    else if key(rows[0]) == id then Some(0)
    else match IndexOf(rows[1..], key, id)
      case None => None
      case Some(k) => Some(k + 1)
  }
}
