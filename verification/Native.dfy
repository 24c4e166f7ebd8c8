/** Native status values and integer limits shared by the models.
    Zero is success; a failure is a negated Linux errno value. */
module Native {
  const OK: int := 0
  const ENOENT: int := -2
  const EIO: int := -5
  const EAGAIN: int := -11
  const EBUSY: int := -16
  const EEXIST: int := -17
  const EINVAL: int := -22
  const ENOSPC: int := -28
  const ELOOP: int := -40
  const EOVERFLOW: int := -75
  const EPROTONOSUPPORT: int := -93
  const EALREADY: int := -114
  const ESTALE: int := -116

  type Byte = x: int | 0 <= x < 256

  const U32_MAX: int := 0xFFFF_FFFF
  const U64_MAX: int := 0xFFFF_FFFF_FFFF_FFFF
  const I64_MAX: int := 0x7FFF_FFFF_FFFF_FFFF
  const I64_MIN: int := -0x8000_0000_0000_0000
}
