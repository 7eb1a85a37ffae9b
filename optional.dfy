/** PHP's nullable values (`?string`, a missing array entry) and JavaScript's `null`. */
module Optional {
  datatype Option<T> = None | Some(value: T)
}
