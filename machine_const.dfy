/**
 * The architecture constants that the utilities read from the machine's
 * configuration header. The utilities fix none of them, so the model takes
 * them as one record of parameters.
 */
module MachineConst {
  import opened Word

  /** A shift amount that is meaningful on a 64-bit word. */
  type Shift = s: nat | s < 64

  /** The number of cores. The probe loop counts in a C `int` and adds 2
      after the last probe, so the count leaves room for that step. */
  type CoreCount = n: int | n < 0x7FFF_FFFF

  /** The page size the operating system reports (`getpagesize()`, an `int`);
      it is positive. */
  type PageSize = p: int | 0 < p < 0x8000_0000 witness 4096

  datatype Config = Config(
    l1SetIndexMask: u64,          // L1_SET_INDEX_MASK
    l2SetIndexMask: u64,          // L2_SET_INDEX_MASK
    llcSetIndexPerSliceMask: u64, // LLC_SET_INDEX_PER_SLICE_MASK
    cacheBlockSizeLog: Shift,     // CACHE_BLOCK_SIZE_LOG
    cacheBlockSize: u64,          // CACHE_BLOCK_SIZE
    pageShift: Shift,             // PAGE_SHIFT
    pagemapLength: u64,           // PAGEMAP_LENGTH
    numCores: CoreCount           // NUM_CORES
  )
}
