/** The error numbers of illumos that the modules return. */
module Errno {
  const EPERM := 1
  const ENOENT := 2
  const ENOMEM := 12
  const EACCES := 13
  const EFAULT := 14
  const EBUSY := 16
  const ENODEV := 19
  const EINVAL := 22
  const ENOSPC := 28
  const ERANGE := 34
  const ENOTSUP := 48
  const EPROTO := 71
}
