/** The optional value used for settings that may be absent and for the
    host's answers that may be missing. */
module Options {
  datatype Option<T> = None | Some(value: T)
}
