/** The optional value the model uses for "no such directory entry" and
    "no dot in the name". */
module Options {

  datatype Option<+T> = None | Some(value: T)
}
