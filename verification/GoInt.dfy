/** Two's-complement integers of Go: what a value becomes when it is stored in
    32 or 64 bits. */
module GoInt {
  const TWO_31 := 0x8000_0000
  const TWO_32 := 0x1_0000_0000
  const MAX_INT32 := 0x7fff_ffff
  const TWO_63 := 0x8000_0000_0000_0000
  const TWO_64 := 0x1_0000_0000_0000_0000
  const MAX_INT64 := 0x7fff_ffff_ffff_ffff

  type int32 = x: int | -TWO_31 <= x < TWO_31
  type int64 = x: int | -TWO_63 <= x < TWO_63

  function ToInt32(x: int): int32 {
    var m := x % TWO_32;
    if m < TWO_31 then m else m - TWO_32
  }

  function ToInt64(x: int): int64 {
    var m := x % TWO_64;
    if m < TWO_63 then m else m - TWO_64
  }
}
