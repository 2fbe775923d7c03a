/** Machine words, the error enumeration and the result types shared by every component. */
module Types {

  const U64: int := 0x1_0000_0000_0000_0000
  const U32: int := 0x1_0000_0000

  type u64 = x: int | 0 <= x < 0x1_0000_0000_0000_0000
  type u8 = x: int | 0 <= x < 256

  datatype Error =
    | InvalidSize
    | InvalidAlignment
    | InvalidRelocation
    | InvalidSegment
    | InvalidAddress
    | InvalidIndex
    | NoVirtualMemory
    | NoHostMemory
    | NotFound
    | Duplicate
    | InvalidOperation

  datatype Option<+T> = None | Some(value: T)

  /** What a call comes to: a value, a returned error, or a failed assertion that ends the process. */
  datatype Outcome<+T> = Ok(value: T) | Err(error: Error) | Abort

  /** Unsigned addition and subtraction wrap around. */
  function Add(a: u64, b: u64): u64 {
    if a + b < U64 then a + b else a + b - U64
  }

  function Sub(a: u64, b: u64): u64 {
    if b <= a then a - b else a - b + U64
  }
}
