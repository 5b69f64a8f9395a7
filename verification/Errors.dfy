/** Return codes of the C functions: a value, or the errno the function returns negated. */
module Errors {
  datatype Errno = EINVAL | EBADMSG | EMSGSIZE | ENOSPC | EACCES | EFAULT

  datatype Result<+T> = Ok(value: T) | Err(error: Errno)

  datatype Option<+T> = None | Some(value: T)
}
