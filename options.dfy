/** The optional value used for the tools' failure paths: `None` stands for a thrown
    exception or for NaN, depending on the primitive. */
module Options {
  datatype Option<T> = None | Some(value: T)
}
