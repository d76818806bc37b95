/**
 * The values the RESP2 encoder is handed. The encoder takes an `unknown` and
 * dispatches on its runtime type, so the model keeps every kind it tests for
 * and lumps the rest of JavaScript (undefined, booleans, plain objects, ...)
 * into `Other`.
 */
module RespValues {

  datatype Value =
    | Null                   // the `null` reference
    | Str(s: string)         // a string primitive
    | Num(x: real)           // a number primitive, whole or fractional
    | Err(message: string)   // an instance of `Error`
    | Arr(elems: seq<Value>) // an array
    | Other                  // any other value

  /** The three exceptions the encoder throws. */
  datatype Failure =
    | InvalidInput          // `Invalid input`
    | InvalidInteger(x: real) // `Invalid integer ${input}`
    | CrOrLfInSimpleString  // `Simple string contains CR or LF character`

  /**
   * The validity the encoder is meant to enforce: every leaf, at any depth,
   * is one of the RESP kinds.
   */
  predicate IsRespValue(v: Value)
  {
    match v
    case Other => false
    case Arr(elems) => forall i :: 0 <= i < |elems| ==> IsRespValue(elems[i])
    case _ => true
  }
}
