/**
 * Machine-level vocabulary of the benchmark: bytes, the C integer conversions the
 * transfer code relies on, USB endpoint descriptor fields and the Windows error
 * codes the worker compares against.
 */
module Usb {

  /** An unsigned 8-bit value (BYTE / UCHAR / uint8_t). */
  type byte = x: int | 0 <= x < 256

  /** An unsigned 16-bit value (WORD / USHORT / uint16_t). */
  type u16 = x: int | 0 <= x < 0x1_0000

  /** An unsigned 32-bit value (UINT / DWORD / uint32_t). */
  type u32 = x: int | 0 <= x < 0x1_0000_0000

  /** A signed 32-bit value (INT / LONG / int). */
  type i32 = x: int | -0x8000_0000 <= x < 0x8000_0000

  /**
   * A Windows system error code as returned by GetLastError(). The codes the
   * benchmark meets are small, so the model keeps them below 2^31, where
   * `-labs(code)` and `-(int)code` agree.
   */
  type ErrorCode = x: int | 0 <= x < 0x8000_0000

  const ERROR_SUCCESS: ErrorCode := 0
  const ERROR_SEM_TIMEOUT: ErrorCode := 121
  const ERROR_OPERATION_ABORTED: ErrorCode := 995
  const ERROR_IO_PENDING: ErrorCode := 997
  const ERROR_CANCELLED: ErrorCode := 1223

  /** Most transfers that may be in flight on one pipe at once (the size of the handle array). */
  const MAX_OUTSTANDING_TRANSFERS: nat := 10

  /** Bit 7 of an endpoint address is its direction: set for IN (device to host). */
  const USB_ENDPOINT_DIRECTION_MASK: int := 0x80
  /** Bits 3..0 of an endpoint address are its number. */
  const USB_ENDPOINT_ADDRESS_MASK: int := 0x0F

  /** Transfer types encoded in bits 1..0 of bmAttributes (section 9.6.6 of the USB 2.0 specification). */
  datatype TransferType = Control | Isochronous | Bulk | Interrupt

  /** Bits 1..0 of an endpoint's attributes byte, as a transfer type. */
  function EndpointType(attributes: byte): (t: TransferType)
    ensures t == Control <==> attributes % 4 == 0
    ensures t == Isochronous <==> attributes % 4 == 1
    ensures t == Bulk <==> attributes % 4 == 2
    ensures t == Interrupt <==> attributes % 4 == 3
  {
    var low := attributes % 4;
    if low == 0 then Control
    else if low == 1 then Isochronous
    else if low == 2 then Bulk
    else Interrupt
  }

  /** True when the endpoint address has its direction bit set (an IN endpoint). */
  predicate IsIn(address: byte)
  {
    address >= 0x80
  }

  /** `address & 0x80`: the direction bit, kept in place. */
  function DirectionBits(address: byte): (d: byte)
    ensures d == 0 || d == 0x80
    ensures d == 0x80 <==> IsIn(address)
  {
    if address >= 0x80 then 0x80 else 0
  }

  /** `address & 0x0F`: the endpoint number. */
  function NumberBits(address: int): (n: int)
    requires 0 <= address
    ensures 0 <= n < 16
    ensures n == address % 16
  {
    address % 16
  }

  /** The C conversion of an unsigned 32-bit value to a signed `int` (two's complement). */
  function Int32Of(x: u32): (r: int)
    ensures -0x8000_0000 <= r < 0x8000_0000
    ensures r >= 0 <==> x < 0x8000_0000
    ensures (r - x) % 0x1_0000_0000 == 0
  {
    if x < 0x8000_0000 then x else x - 0x1_0000_0000
  }

  /** A value reduced to 32 bits, as C unsigned arithmetic does. */
  function Wrap32(x: nat): (r: u32)
    ensures x < 0x1_0000_0000 ==> r == x
  {
    x % 0x1_0000_0000
  }

  /** The C conversion of a signed `int` to an unsigned 32-bit value (two's complement). */
  function U32Of(x: i32): (r: u32)
    ensures (r - x) % 0x1_0000_0000 == 0
  {
    if x >= 0 then x else x + 0x1_0000_0000
  }

  /** Converting an `int` to unsigned and back gives the same `int`. */
  lemma SignedRoundTrip(x: i32)
    ensures Int32Of(U32Of(x)) == x
  {
  }
}
