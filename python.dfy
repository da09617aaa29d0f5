/** The few Python values and exceptions that the configuration core handles. */
module Python {

  /** The exceptions the core can raise. */
  datatype Error =
    | ValueError      // int() was given text that is not a decimal integer
    | AttributeError  // .upper() or .split() was called on a value that is not a str
    | LoadError       // reading the configuration file raised: a configparser.Error
                      // such as ParsingError, DuplicateSectionError or
                      // DuplicateOptionError, or a UnicodeDecodeError

  /** A call that either returns a value or raises one of the exceptions above. */
  datatype Result<T> = Ok(value: T) | Err(error: Error)

  datatype Option<T> = None | Some(value: T)

  /** The values a caller may pass as a `fallback`, and that a lookup may return. */
  datatype PyValue =
    | PyNone
    | PyBool(b: bool)
    | PyInt(i: int)
    | PyStr(s: string)
    | PyList(items: seq<string>)

  /** Python's truth test (`if v`, `not v`). */
  predicate Truthy(v: PyValue)
  {
    match v
    case PyNone => false
    case PyBool(b) => b
    case PyInt(i) => i != 0
    case PyStr(s) => s != []
    case PyList(items) => items != []
  }
}
