/** The names that mark what a layer removes, as layers and file system comparisons read them. */
module Markers {
  const WHITEOUT_PREFIX := ".wh."
  const OPAQUE_MARKER := ".wh..wh..opq"
}
