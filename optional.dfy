/** The optional value that stands for Python's `None` where a function may
    return either a value or nothing. */
module Optional {

  datatype Option<+T> = None | Some(value: T)
}
