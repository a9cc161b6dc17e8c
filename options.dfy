/** An optional value: what the source writes as `null` or a failed match. */
module Options {
  datatype Option<T> = None | Some(value: T)
}
