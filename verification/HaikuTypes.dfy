/** The range of int32, and the status codes that calls return. */
module HaikuTypes {
  const INT32_MAX: int := 0x7FFF_FFFF

  predicate IsInt32(v: int) { -INT32_MAX - 1 <= v <= INT32_MAX }

  const B_OK: int := 0
  const B_NO_MEMORY: int := -2147483648
  const B_BAD_INDEX: int := -2147483645
  const B_BAD_TYPE: int := -2147483644
  const B_BAD_VALUE: int := -2147483643
  const B_NAME_NOT_FOUND: int := -2147483641
  const B_NAME_IN_USE: int := -2147483640
  const B_NO_INIT: int := -2147483635
  const B_NOT_ALLOWED: int := -2147483633
  const B_BAD_DATA: int := -2147483632
  const B_BAD_SEM_ID: int := -2147479552
  const B_BAD_ADDRESS: int := -2147478783
  const B_ENTRY_NOT_FOUND: int := -2147459069
  const B_NAME_TOO_LONG: int := -2147459068
  const B_BUFFER_OVERFLOW: int := -2147454935
}
