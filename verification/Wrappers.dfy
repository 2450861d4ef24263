/** Answers of C functions: an errno or a value, a pointer or NULL. */
module Wrappers {

  /** `NoErrno`: NULL is returned and errno is left alone. */
  datatype Error = EAGAIN | EINVAL | ENOMEM | EIO | NoErrno
  datatype Result<+T> = Ok(value: T) | Err(error: Error)
  datatype Option<+T> = None | Some(value: T)
}
