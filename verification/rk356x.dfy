/** src/rk356x: the address map that its memory code shares. */
module Rk356x {
  import opened Bytes

  /** Registers lie from here up to 4 GiB; no memory is seen there. */
  const MMIO_START: u64 := 0xf000_0000
  const PHYS_4G: u64 := 0x1_0000_0000
  const MAX_BANKS: nat := 10

  datatype Bank = Bank(start: u64, size: u64)
}
