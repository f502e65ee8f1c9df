/** The integers of the machine, and their checked arithmetic.
    Dafny's integers are unbounded;
    where a width matters, these types and checks say so. */
module MachineIntegers {
  import opened Options

  const U32_MAX: int := 0xFFFF_FFFF
  const USIZE_MAX: int := 0xFFFF_FFFF_FFFF_FFFF
  const ISIZE_MAX: int := 0x7FFF_FFFF_FFFF_FFFF
  const ISIZE_MIN: int := -0x8000_0000_0000_0000

  type u32 = x: int | 0 <= x <= U32_MAX
  type usize = x: int | 0 <= x <= USIZE_MAX
  type isize = x: int | ISIZE_MIN <= x <= ISIZE_MAX

  function CheckedUsize(x: int): Option<usize> {
    if 0 <= x <= USIZE_MAX then Some(x) else None
  }

  function CheckedIsize(x: int): Option<isize> {
    if ISIZE_MIN <= x <= ISIZE_MAX then Some(x) else None
  }

  function Max(a: int, b: int): int { if a < b then b else a }

  function Min(a: int, b: int): int { if a < b then a else b }
}
