/** Values shared by every part of the model: optional values, the exceptions
    the library raises (as values rather than control flow) and namespace maps. */
module Common {

  datatype Option<T> = None | Some(value: T)

  /** The exceptions raised by the core, each with the Python class it stands for. */
  datatype Error =
    | DuplicateTag(bound: string, requested: string) // TypeError: class already has a tag
    | NotAPath                                       // TypeError: `+` applied to something that is not a Path
    | NSLookupError(prefix: string, qname: string)   // an undeclared namespace prefix
    | KeyError(key: string)                          // a missing attribute or namespace prefix
    | IndexError                                     // an integer subscript out of range
    | ValueError                                     // a string that does not split as the code expects
    | AttributeError(name: string)                   // a segment that lacks an attribute the code reads
    | AssertionError(what: string)                   // a failed `assert` in the code

  datatype Result<T> = Ok(value: T) | Err(error: Error)

  /** The outcome of an operation that only changes state. */
  datatype Outcome = Pass | Fail(error: Error)

  /** A `prefix: namespace URI` mapping; the empty prefix is the default namespace. */
  type NsMap = map<string, string>
}
