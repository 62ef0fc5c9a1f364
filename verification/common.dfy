/** Types shared by the modules. */
module Common {
  datatype Option<T> = None | Some(value: T)

  /** A C buffer or string, one number per byte. */
  type Bytes = seq<int>
}
