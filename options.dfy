/** Swift's `Optional`: `nil` is `None`. */
module Options {

  datatype Option<+T> = None | Some(value: T)
}
