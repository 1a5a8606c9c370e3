// The Linux `errno` values the repository's code returns or tests.
module Errno {
  const EPERM: int := 1
  const ENOENT: int := 2
  const EINTR: int := 4
  const EBADF: int := 9
  const EAGAIN: int := 11
  const ENOMEM: int := 12
  const EFAULT: int := 14
  const EEXIST: int := 17
  const EINVAL: int := 22
  const ENAMETOOLONG: int := 36
  const ENOSYS: int := 38
}
