/** The constants of memdefs.h. */
module MemDefs {
  const PAGE: nat := 0x1000
  const WORD: nat := 0x1_0000_0000
  const KERNEL_VIRTUAL_ADDR: nat := 0xc0000000
}
