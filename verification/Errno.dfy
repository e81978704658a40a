/** The error numbers the system calls and the file operations return, negated. */
module Errno {
  const EPERM := 1
  const EIO := 5
  const EBADF := 9
  const EACCES := 13
  const EEXIST := 17
  const EINVAL := 22
  const ERANGE := 34
}
