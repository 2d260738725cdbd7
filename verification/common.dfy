/** Types that several parts of the model use. */
module Common {

  datatype Option<T> = None | Some(value: T)

  /** A `UCHAR`. */
  type Byte = x: int | 0 <= x < 256
}
