/** Python's `None`-or-value, for names that may resolve to nothing and for an absent search text. */
module Optional {
  datatype Option<+T> = None | Some(value: T)
}
