/** Outcome types shared by the protover model, and the error values the
    Rust code returns as `&'static str`. */
module Wrappers {

  datatype Option<+T> = None | Some(value: T)

  /** The reasons a parse fails, one per distinct error string of the source. */
  datatype Error =
    | EmptyVersionString    // get_versions on ""
    | EmptyRange            // expand_version_range on ""
    | InvalidEntry          // a single version that is not a u32
    | RangeLowerBound       // lower bound of a range missing or not a u32
    | RangeUpperBound       // upper bound of a range missing or not a u32
    | TooManyVersions       // more than MAX_PROTOCOLS_TO_EXPAND versions collected
    | InvalidProtoverEntry  // an entry without "="
    | UnknownProtocol       // a name that is not one of the ten subprotocols

  /** The exact text the source returns for each error. */
  function Message(e: Error): (m: string)
    ensures m != ""
  {
    match e
    case EmptyVersionString => "version string is empty"
    case EmptyRange => "version string empty"
    case InvalidEntry => "invalid protocol entry"
    case RangeLowerBound => "cannot parse protocol range lower bound"
    case RangeUpperBound => "cannot parse protocol range upper bound"
    case TooManyVersions => "Too many versions to expand"
    case InvalidProtoverEntry => "invalid protover entry"
    case UnknownProtocol => "Not a valid protocol type"
  }

  /** Different errors are reported with different texts. */
  lemma MessagesDistinct(a: Error, b: Error)
    requires a != b
    ensures Message(a) != Message(b)
  {
  }

  datatype Result<+T> = Ok(value: T) | Err(error: Error)
}
