/** Fixed-width unsigned integers of the source (C# byte/ushort, Swift UInt8/UInt16). */
module Bytes {

  type byte = x: int | 0 <= x < 0x100

  type u16 = x: int | 0 <= x < 0x1_0000

  /** A Bluetooth device address (C# ulong). */
  type Address = x: int | 0 <= x < 0x1_0000_0000_0000_0000
}
