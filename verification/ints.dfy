/** Fixed-width unsigned integer types used by the remark data model and the meta header. */
module Ints {

  /** One octet of output. */
  newtype byte = b: int | 0 <= b < 0x100

  /** C++ `unsigned`: source line and column numbers. */
  newtype uint32 = x: int | 0 <= x < 0x1_0000_0000

  /** C++ `uint64_t`: hotness counts and the header's 64-bit fields. */
  newtype uint64 = x: int | 0 <= x < 0x1_0000_0000_0000_0000
}
