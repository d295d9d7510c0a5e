/** Constants and size arithmetic of the three-tier heap (64-bit release build). */
module HeapLayout {

  const ALIGN: int := 8             // sizeof(void*)
  const BLOCK_HEADER: int := 24     // sizeof(Block)
  const MAX_SMALL_SIZE: int := 256  // 128 * sizeof(void*) / 4
  const PAGE_SIZE: int := 65536     // 32 KB * sizeof(void*) / 4
  const DUMMY_PAGE: int := 0xFFFF   // (OS_U16)-1, the page id of the list dummies

  /** Bytes a medium or large block takes for a request: header added, rounded up to ALIGN. */
  function BlockBytes(request: int): (r: int)
    requires request >= 0
    ensures r % ALIGN == 0
    ensures request + BLOCK_HEADER <= r < request + BLOCK_HEADER + ALIGN
  {
    (request + ALIGN - 1 + BLOCK_HEADER) / ALIGN * ALIGN
  }

  function SmearBits(x: bv32): bv32 {
    var a := x | (x >> 1);
    var b := a | (a >> 2);
    var c := b | (b >> 4);
    var d := c | (c >> 8);
    d | (d >> 16)
  }

  /** Smallest power of two that is not below `x`. */
  function CeilPowerOfTwo(x: bv32): (r: bv32)
    requires 1 <= x <= 0x4000_0000
    ensures x <= r                  // not below x
    ensures r & (r - 1) == 0        // a power of two
    ensures r >> 1 < x              // the next smaller power of two is below x
  {
    SmearBits(x - 1) + 1
  }
}
