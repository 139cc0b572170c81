/** The conventional Some/None datatype, used where the source has a value or nothing
    (an unauthenticated caller, a URL that is not available, a decoder that throws). */
module Optional {

  datatype Option<+T> = None | Some(value: T)
}
