/** Go's fixed-width integer types, as ranges of the unbounded integers. */
module MachineInts {

  type uint8 = x: int | 0 <= x < 0x100
  type uint16 = x: int | 0 <= x < 0x1_0000
  type uint32 = x: int | 0 <= x < 0x1_0000_0000
  type int32 = x: int | -0x8000_0000 <= x < 0x8000_0000
  type int64 = x: int | -0x8000_0000_0000_0000 <= x < 0x8000_0000_0000_0000

  /** Go's `byte` is `uint8`. */
  type byte = uint8

  /** Go's conversion `uint8(x)` of a `uint32`: it keeps the low eight bits. */
  function Uint8Of(x: uint32): uint8
  {
    x % 0x100
  }
}
