/** The constants of bzlib_private.h that both directions rely on. */
module Limits {
  const RUNA := 0
  const RUNB := 1
  const GROUP_SIZE := 50
  const N_OVERSHOOT := 34     // bytes of the block repeated behind it for the main sort
  const MAX_SELECTORS := 18002
  const MAX_ALPHA_SIZE := 258
  const MAX_CODE_LEN := 23
  const LONGEST_CODE := 20    // longest code length the decoder accepts
  const MAX_SENT_CODE := 17   // longest code length the encoder sends
}
