/** A value the page may or may not supply: an absent attribute, a form field
    the form does not have. */
module Optional {
  datatype Option<+T> = None | Some(value: T)
}
