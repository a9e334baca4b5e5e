/** Python's `None` next to a value: a key that is absent, or an attribute read that gave null. */
module Optional {

  datatype Option<+T> = None | Some(value: T)
}
