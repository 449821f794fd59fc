/** The optional value used wherever the C code returns NULL or an error flag
    instead of an object. */
module Options {

  datatype Option<T> = None | Some(value: T)

}
