/** The kernel's limits and the start of its half of the address space. */
module Params {

  const MAXOPBLOCKS := 10               // blocks an operation may log
  const LOGSIZE := 3 * MAXOPBLOCKS      // blocks a transaction may log
  const NBUF := 3 * MAXOPBLOCKS         // buffers in the cache
  const KERNBASE := 0x8000_0000         // addresses from here on are the kernel's
}
