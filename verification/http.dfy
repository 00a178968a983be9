/** What a handler hands back to the HTTP layer. */
module Http {
  import opened Wrappers
  import opened Models

  /** Why a handler aborted; each maps to one HTTP status. */
  datatype Fault =
    | BadId               // path parameter `id` missing or not a UUID
    | BadFlag(param: string) // boolean path parameter missing or not a Bool
    | BadBody             // request body did not decode
    | BadEvent            // calendar event payload did not decode
    | MissingRecord       // no assignment with the requested id
    | NoMatch             // address search found no usable assignment
    | StoreFailure        // the database rejected a write

  function StatusCode(f: Fault): (code: nat)
    ensures code in {400, 404, 500}
    ensures code == 400 <==> f.BadId? || f.BadFlag? || f.BadBody? || f.BadEvent?
    ensures code == 404 <==> f.MissingRecord? || f.NoMatch?
  {
    match f
    case BadId | BadFlag(_) | BadBody | BadEvent => 400
    case MissingRecord | NoMatch => 404
    case StoreFailure => 500
  }

  /** A handler either returns a value, aborts with a fault, or hits a Swift
      runtime trap (which no `catch` intercepts). */
  datatype Outcome<+T> = Ok(value: T) | Abort(fault: Fault) | Trap

  /** A handler's outcome together with the table after the request. */
  datatype Reply<+T> = Reply(outcome: Outcome<T>, store: Store)

  /** Swift's `Bool.description`. */
  function BoolText(b: bool): string {
    if b then "true" else "false"
  }

  /** Swift's failable `Bool(_: String)`: exactly "true" and "false" parse. */
  function ParseBool(raw: string): (r: Option<bool>)
    ensures r.Some? <==> raw == "true" || raw == "false"
    ensures r.Some? ==> BoolText(r.value) == raw
  {
    if raw == "true" then Some(true)
    else if raw == "false" then Some(false)
    else None
  }

  /** A boolean path parameter: absent or unparsable reads as `None`. */
  function FlagParam(raw: Option<string>): (r: Option<bool>)
    ensures r.Some? <==> raw.Some? && ParseBool(raw.value).Some?
    ensures r.Some? ==> r == ParseBool(raw.value)
  {
    match raw
    case None => None
    case Some(text) => ParseBool(text)
  }

  /** Printing a Bool and parsing it back gives the same Bool. */
  lemma ParseBoolRoundTrip(b: bool)
    ensures ParseBool(BoolText(b)) == Some(b)
  {
  }
}
