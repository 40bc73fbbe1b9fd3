// The result codes of the engine and the listener (sandbox.h).
module Codes {
  const SANDBOX_OK := 0
  const SANDBOX_ERR_BAD_HDR := -2
  const SANDBOX_ERR_BAD_VER := -3
  const SANDBOX_ERR_BAD_LEN := -4
  const SANDBOX_ERR_BAD_MSGID := -5
  const SANDBOX_ERR_NOMEM := -6
  const SANDBOX_ERR_RW := -7
  const SANDBOX_ERR_CLOSED := -9
  const SANDBOX_ERR_PARSE := -10
  const SANDBOX_ERR_INVALID := -11
}
