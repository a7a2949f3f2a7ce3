/** Option and Result types shared by the modules of this model. */
module Wrappers {

  /** A value that may be absent (a C pointer that may be NULL). */
  datatype Option<+T> = None | Some(value: T)

  /** The outcome of a C call that returns a value or fails setting errno. */
  datatype Result<+T> = Ok(value: T) | Err(errno: int)

  function Min(a: int, b: int): (m: int)
    ensures m <= a && m <= b && (m == a || m == b)
  {
    if a <= b then a else b
  }
}

/** The POSIX errno values the model returns, as Linux defines them. */
module Errno {
  const ENOENT := 2
  const EIO := 5
  const ENXIO := 6
  const ENOMEM := 12
  const EACCES := 13
  const EBUSY := 16
  const ENODEV := 19
  const EINVAL := 22
}
