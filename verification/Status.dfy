/** The kernel's error numbers (src/sys/status.h); calls return them negated. */
module Status {
  const EIO: int := 1
  const EINVARG: int := 2
  const ENOMEM: int := 3
  const EISTKN: int := 8
}
