/** Types shared by all parts. */
module Common {
  type byte = n: int | 0 <= n < 256

  datatype Option<+T> = None | Some(value: T)
}
