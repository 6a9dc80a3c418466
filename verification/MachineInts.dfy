/** Fixed-width unsigned integers as the source's u8/u16/u32/u64, on Dafny's unbounded `int`,
    and the status codes of kernel/include/types.h. */
module MachineInts {
  const TWO_16: int := 0x1_0000
  const TWO_32: int := 0x1_0000_0000
  const TWO_48: int := 0x1_0000_0000_0000
  const TWO_64: int := 0x1_0000_0000_0000_0000

  type u8 = x: int | 0 <= x < 0x100
  type u16 = x: int | 0 <= x < 0x1_0000
  type u32 = x: int | 0 <= x < 0x1_0000_0000
  type u64 = x: int | 0 <= x < 0x1_0000_0000_0000_0000

  datatype Option<+T> = None | Some(value: T) {
    function GetOr(default: T): T {
      if Some? then value else default
    }
  }

  /** The negative return codes the kernel uses; `Ok` is 0. */
  datatype Status = Ok | ENoMem | EInval | EPerm | ENoEnt | EIo | ENoSys | EAgain | ETimedOut | ENoSpc | EShutdown

  function Min(a: int, b: int): int {
    if a < b then a else b
  }

  function Max(a: int, b: int): int {
    if a < b then b else a
  }
}
