/** Values shared by every page: optional values, the outcome of one remote
    call, the loosely typed values the forms hold, and what a handler shows
    the user. */
module Values {

  datatype Option<+T> = None | Some(value: T)

  /** The outcome of one request to the remote service: the decoded response
      body, or a failure (transport error or non-2xx status). */
  datatype Reply<+T> = Ok(value: T) | Err

  /** A form or record field as the browser holds it: a string typed into an
      input, a number that came from the server or from a literal, or null. */
  datatype Value = Str(s: string) | Num(n: int) | Null

  /** The values JavaScript treats as false in a condition. */
  const Falsy: set<Value> := {Str(""), Num(0), Null}

  /** JavaScript truthiness, which every required-field check uses:
      the empty string, zero and null are all "missing". */
  predicate Truthy(v: Value)
    ensures Truthy(v) <==> v != Str("") && v != Num(0) && v != Null
    ensures Truthy(v) <==> v !in Falsy
  {
    match v
    case Str(s) => |s| > 0
    case Num(n) => n != 0
    case Null => false
  }

  /** Why a handler stopped or what went wrong. */
  datatype Reason =
    | MissingFields     // a required field is falsy
    | NoBookChosen      // borrowing without a selected book
    | OutOfStock        // the selected book has no copies left
    | NothingSelected   // update pressed with no record selected
    | RequestFailed     // the request failed, or the handler threw before sending it

  /** The toast a handler raises, by kind. */
  datatype Notice = Silent | Info | Success | Warning(why: Reason) | Error(why: Reason)

  /** One atomic run of a handler: the page state it leaves, the requests it
      issued in order, and the notice it raised. */
  datatype Step<P, C> = Step(page: P, calls: seq<C>, notice: Notice)
}
