// Error numbers; functions that fail return them negated.
module Status {
  const EIO := 1
  const EINVARG := 2
  const ENOMEM := 3
}
