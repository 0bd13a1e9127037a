/** Sizes shared by the storage formats (src/common.rs). */
module Params {
  const PAGE_SIZE := 16384
  const KEY_SIZE := 16
  const VALUE_SIZE := 1024
  const U64_LIMIT := 0x1_0000_0000_0000_0000
}
