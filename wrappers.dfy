/** Failure-compatible result type shared by the codec, and the error taxonomy of src/parser.rs. */
module Wrappers {

  datatype Option<+T> = None | Some(value: T)

  /** Why the Rust code would panic (an `unwrap`, an `assert_eq!` or an `unreachable!`).
      Panics are a distinct outcome of the model rather than preconditions, so that every
      operation stays total. */
  datatype PanicReason =
    | NotBool        // `val.as_bool().unwrap()` on a non-boolean
    | NotString      // `val.as_str().unwrap()` for a Char
    | NotObject      // `val.as_object().unwrap()` for a Struct
    | TupleArity     // `assert_eq!(val.len(), iter.len())` for a Tuple
    | IntOverflow    // `try_into().unwrap()` narrowing an integer to its declared width
    | InvalidUtf8    // `String::from_utf8(..).unwrap()`
    | InvalidChar    // `char::from_u32(..).unwrap()` inside redb's char layout
    | UnboundTree    // `t.clone().unwrap()` on an empty TREE cell of a key/value binding
    | NoOrdering     // `ordering(..).unwrap()` in `compare` when objects were compared
    | UnreachableArm // the `unreachable!()` of `ordering`
    | NotText        // `val_to_string` of a textual type given a non-string value
    | Unwrapped(error: Error) // `unwrap` of an `encode` or `parse` result that is an error

  datatype Error =
    | OffBuffer                    // TakeError::OffBuffer: fewer bytes left than needed
    | BadBool(state: int)          // "Unknown bool state"
    | BadDiscriminant(tag: int)    // "Invalid Option discriminant"
    | InvalidValue                 // "Invalid value in ...": the value has the wrong kind
    | ByteOutOfRange               // a `&[u8]` element that does not fit a u8
    | ArrayLengthMismatch          // "Array length doesn't match"
    | NotOneCodepoint              // "Char must be a single codepoint"
    | MissingField(field: string)  // "Expected field ... in struct ..."
    | UndefinedField               // "Struct ... has undefined field ..."
    | Panic(reason: PanicReason)

  datatype Result<+T> = Ok(value: T) | Err(error: Error) {
    predicate IsFailure() { Err? }

    function PropagateFailure<U>(): Result<U>
      requires Err?
    {
      Err(error)
    }

    function Extract(): T
      requires Ok?
    {
      value
    }
  }
}
