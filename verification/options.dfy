/** The optional value every decoder in this model returns: Python's `None`
    becomes `None`, any other result `Some(value)`. */
module Options {

  datatype Option<+T> = None | Some(value: T)
}
