/** Shared wrappers: an optional value, the Python exceptions the scraper can raise,
    and a result type that carries either a value or one of those exceptions. */
module Common {

  datatype Option<+T> = None | Some(value: T)

  /** The exception classes that escape the modelled operations. */
  datatype PyError =
    | FileNotFoundError   // a local document that does not exist
    | IndexError          // list index or pop index out of range
    | TypeError           // malformed category key, or int() of a missing value
    | KeyError            // dictionary or tag attribute lookup of a missing key
    | ValueError          // strptime or int() of a malformed string
    | AttributeError      // method call on a missing (None) HTML element
    | FetchError          // any non-timeout failure of an HTTP request

  datatype Result<+T> = Ok(value: T) | Err(error: PyError)
}
