/** Types shared by the driver model and the server model. */
module Common {

  newtype byte = b: int | 0 <= b < 0x100

  const NL: byte := 10   // '\n'
  const NUL: byte := 0   // '\0'

  datatype Option<+T> = None | Some(value: T)

  /** The error numbers the driver returns, without their numeric values. */
  datatype Errno = ERESTARTSYS | ENOMEM | EFAULT | EINVAL

  datatype Result<+T> = Ok(value: T) | Err(errno: Errno)

  const SIZE_MAX: nat := 0xFFFF_FFFF_FFFF_FFFF
  const INT_MAX: nat := 0x7FFF_FFFF
  const LOFF_MAX: nat := 0x7FFF_FFFF_FFFF_FFFF

  /** Conversion to a 64-bit size_t. */
  function WrapSize(x: int): (r: nat)
    ensures r <= SIZE_MAX
    ensures 0 <= x <= SIZE_MAX ==> r == x
  {
    x % (SIZE_MAX + 1)
  }

  /** Conversion to a 32-bit two's complement int. */
  function WrapInt(x: int): (r: int)
    ensures -(INT_MAX + 1) <= r <= INT_MAX
    ensures -(INT_MAX + 1) <= x <= INT_MAX ==> r == x
  {
    (x + INT_MAX + 1) % 0x1_0000_0000 - (INT_MAX + 1)
  }

  /** What a loff_t can hold. */
  predicate InLoff(x: int) {
    -(LOFF_MAX + 1) <= x <= LOFF_MAX
  }

  /** Conversion to a 64-bit two's complement loff_t. */
  function WrapLoff(x: int): (r: int)
    ensures InLoff(r)
    ensures InLoff(x) ==> r == x
  {
    (x + LOFF_MAX + 1) % (SIZE_MAX + 1) - (LOFF_MAX + 1)
  }

  /** Conversion to a 32-bit unsigned int. */
  function WrapU32(x: int): (r: nat)
    ensures 0 <= x < 0x1_0000_0000 ==> r == x
  {
    x % 0x1_0000_0000
  }

  /** Adding to an already truncated int truncates the exact sum. */
  lemma WrapIntAdd(a: int, b: int)
    ensures WrapInt(WrapInt(a) + b) == WrapInt(a + b)
  {
  }

  /** Going through an int does not change the value as an unsigned int. */
  lemma WrapU32OfInt(x: int)
    ensures WrapU32(WrapInt(x)) == WrapU32(x)
  {
  }
}
