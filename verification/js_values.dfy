/** The JavaScript value shapes the modelled code branches on. */
module JsValues {

  /** A value that may be `null`/`undefined` (None) or present (Some). */
  datatype Option<+T> = None | Some(value: T) {

    /** Reads an optional value with a fallback for the missing case. */
    function GetOr(fallback: T): T {
      match this
      case Some(v) => v
      case None => fallback
    }
  }

  /** A field of a parsed JSON request body, restricted to the shapes the
      handlers tell apart: absent from the body, an explicit `null`, or a string. */
  datatype Field = Undefined | Null | Str(s: string) {

    /** JavaScript truthiness: of these shapes only a non-empty string is truthy. */
    predicate Truthy() {
      Str? && s != ""
    }
  }

  /** The body field a client sends for a nullable string: `null` or the string. */
  function FieldOfNullable(v: Option<string>): (f: Field)
    ensures f != Undefined
    ensures f.Str? <==> v.Some?
    ensures f.Str? ==> f.s == v.value
  {
    match v
    case None => Null
    case Some(x) => Str(x)
  }

  /** The body field a client sends for an optional key: omitted or the string. */
  function FieldOfOptional(v: Option<string>): (f: Field)
    ensures f != Null
    ensures f.Str? <==> v.Some?
    ensures f.Str? ==> f.s == v.value
  {
    match v
    case None => Undefined
    case Some(x) => Str(x)
  }
}
