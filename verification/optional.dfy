/** The optional value used for a selection that may be unset (JavaScript's `null`)
    and for a load that may or may not be requested. */
module Optional {

  datatype Option<+T> = None | Some(value: T)
}
