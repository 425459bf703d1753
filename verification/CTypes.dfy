/** The integers and status codes of the C functions that are modelled. */
module CTypes {
  const RETURN_OK := 0
  const RETURN_ERR := -1
  const STATUS_SUCCESS := 0
  const STATUS_FAILURE := -1

  const TWO32 := 0x1_0000_0000
  type Uint32 = x: int | 0 <= x < TWO32

  /** Conversion to an unsigned int. */
  function Wrap(x: int): Uint32 { x % TWO32 }

  predicate IsInt32(i: int) { -0x8000_0000 <= i < 0x8000_0000 }
}
