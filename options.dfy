/** The usual optional value: `None` stands for Python's `None` and for the
    `False` that the credential lookup returns when a refresh is rejected. */
module Options {

  datatype Option<+T> = None | Some(value: T)
}
