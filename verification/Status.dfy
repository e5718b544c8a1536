/** Error numbers of the kernel; functions return them negated. */
module Status {
  const EIO := 1
  const EINVARG := 2
  const ENOMEM := 3
  const ERDONLY := 6
  const ENODISKSPACE := 10
  const ETIMEDOUT := 13
}
