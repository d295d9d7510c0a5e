/** The medium tier as a value: the address-ordered block list, the free ring and the statistics. */
module MediumSpec {
  import opened HeapLayout

  /** A block header; its address is (page, offs). */
  datatype Blk = Blk(page: int, offs: int, size: int, free: bool)

  datatype Stats = Stats(allocSize: int, usedSize: int, dataSize: int, allocCount: int, freeCount: int,
                         hitCount: int, mergeCount: int, freePageCount: int)
  {
    function RegisterAlloc(size: int): Stats {
      this.(allocCount := allocCount + 1, usedSize := usedSize + size, dataSize := dataSize + size - BLOCK_HEADER)
    }

    function RegisterFree(size: int): Stats {
      this.(freeCount := freeCount + 1, usedSize := usedSize - size, dataSize := dataSize - (size - BLOCK_HEADER))
    }
  }

  const NO_STATS := Stats(0, 0, 0, 0, 0, 0, 0, 0)

  /** `blocks` is the block list without its dummy, `ring` the free ring without its dummy. */
  datatype State = State(blocks: seq<Blk>, ring: seq<Blk>, nextPage: int, stats: Stats)

  const EMPTY := State([], [], 1, NO_STATS)

  // ---------------------------------------------------------------- operations

  /** Position of the first ring entry that is not larger than `size`. */
  function InsertPos(ring: seq<Blk>, size: int): (k: nat)
    ensures k <= |ring|
    ensures forall i :: 0 <= i < k ==> ring[i].size > size
    ensures k < |ring| ==> ring[k].size <= size
  {
    if ring == [] || size >= ring[0].size then 0 else 1 + InsertPos(ring[1..], size)
  }

  /** Last entry of the leading run of ring entries that fit `size`. */
  function BestFit(ring: seq<Blk>, size: int): (k: nat)
    requires ring != [] && ring[0].size >= size
    ensures k < |ring|
    ensures forall i :: 0 <= i <= k ==> ring[i].size >= size
    ensures k + 1 < |ring| ==> ring[k + 1].size < size
  {
    if |ring| == 1 || ring[1].size < size then 0 else 1 + BestFit(ring[1..], size)
  }

  function IndexOf(bs: seq<Blk>, b: Blk): (i: nat)
    requires b in bs
    ensures i < |bs| && bs[i] == b
  {
    if bs[0] == b then 0 else 1 + IndexOf(bs[1..], b)
  }

  function RemoveAt<T>(s: seq<T>, k: nat): seq<T>
    requires k < |s|
  {
    s[..k] + s[k + 1..]
  }

  function InsertAt<T>(s: seq<T>, k: nat, x: T): seq<T>
    requires k <= |s|
  {
    s[..k] + [x] + s[k..]
  }

  /** No neighbour of block `i` in the block list lies on the same page. */
  predicate AloneOnPage(bs: seq<Blk>, i: nat)
    requires i < |bs|
  {
    (i == 0 || bs[i - 1].page != bs[i].page) && (i + 1 == |bs| || bs[i + 1].page != bs[i].page)
  }

  /** Four whole pages follow position `pos` of the free ring. */
  predicate FourPagesAt(ring: seq<Blk>, pos: nat) {
    pos + 3 < |ring| && forall i :: pos <= i < pos + 4 ==> ring[i].size == PAGE_SIZE
  }

  predicate Releases(m: State, b: Blk) {
    var pos := InsertPos(m.ring, b.size);
    && b.size == PAGE_SIZE && FourPagesAt(m.ring, pos)
    && m.ring[pos] in m.blocks && AloneOnPage(m.blocks, IndexOf(m.blocks, m.ring[pos]))
  }

  /** Link the free block `b`, already in the block list, into the ring; a fifth free page goes back to the system. */
  function InsertFree(m: State, b: Blk): State {
    var pos := InsertPos(m.ring, b.size);
    if Releases(m, b) then
      m.(blocks := RemoveAt(m.blocks, IndexOf(m.blocks, m.ring[pos])),
         ring := m.ring[pos := b],
         stats := m.stats.(allocSize := m.stats.allocSize - PAGE_SIZE, freePageCount := m.stats.freePageCount + 1))
    else
      m.(ring := InsertAt(m.ring, pos, b))
  }

  datatype Outcome = Null | ToLarge | Granted(block: Blk)

  /** A fresh page, wholly free, at the front of both lists. */
  function AddPage(m: State): State {
    var b := Blk(m.nextPage, 0, PAGE_SIZE, true);
    m.(blocks := [b] + m.blocks, ring := [b] + m.ring, nextPage := m.nextPage + 1,
       stats := m.stats.(allocSize := m.stats.allocSize + PAGE_SIZE))
  }

  /** Whether block `i` is handed out whole instead of being split. */
  predicate GrantWhole(bs: seq<Blk>, i: nat, size: int)
    requires i < |bs|
  {
    var rest := bs[i].size - size;
    rest < MAX_SMALL_SIZE && (rest < MAX_SMALL_SIZE / 2 || i + 1 == |bs| || bs[i + 1].page != bs[i].page)
  }

  /** The ring after block `b`, its entry `k`, has shrunk to `rest`. */
  function ShrunkRing(ring: seq<Blk>, k: nat, rest: Blk): seq<Blk>
    requires k < |ring|
  {
    var others := RemoveAt(ring, k);
    if k < |others| && rest.size < others[k].size
    then InsertAt(others, InsertPos(others, rest.size), rest)
    else ring[k := rest]
  }

  /** Serve `size` bytes from block `i`, which is entry `k` of the ring. */
  function Carve(m: State, i: nat, k: nat, size: int): (State, Blk)
    requires i < |m.blocks| && k < |m.ring| && m.blocks[i] == m.ring[k]
  {
    var b := m.blocks[i];
    if GrantWhole(m.blocks, i, size) then
      var g := b.(free := false);
      (m.(blocks := m.blocks[i := g], ring := RemoveAt(m.ring, k), stats := m.stats.RegisterAlloc(g.size)), g)
    else
      var rest := b.(size := b.size - size);
      var g := Blk(b.page, b.offs + rest.size, size, false);
      var blocks := m.blocks[..i] + [rest, g] + m.blocks[i + 1..];
      (m.(blocks := blocks, ring := ShrunkRing(m.ring, k, rest), stats := m.stats.RegisterAlloc(g.size)), g)
  }

  predicate Fits(m: State, size: int) {
    m.ring != [] && m.ring[0].size >= size
  }

  /** Serve `size` bytes from the best fitting free block. */
  function Serve(m: State, size: int): (State, Blk)
    requires Fits(m, size) && forall b :: b in m.ring ==> b in m.blocks
  {
    var k := BestFit(m.ring, size);
    var hit := m.(stats := m.stats.(hitCount := m.stats.hitCount + 1));
    Carve(hit, IndexOf(m.blocks, m.ring[k]), k, size)
  }

  /** `sysOk` is the answer of the system allocator, should it be asked. */
  function Alloc(m: State, request: int, sysOk: bool): (State, Outcome)
    requires request >= 0
    requires forall b :: b in m.ring ==> b in m.blocks
  {
    var size := BlockBytes(request);
    if Fits(m, size) then
      var (m', g) := Serve(m, size);
      (m', Granted(g))
    else if size > PAGE_SIZE / 2 then (m, ToLarge)
    else if !sysOk then (m, Null)
    else
      var (m', g) := Carve(AddPage(m), 0, 0, size);
      (m', Granted(g))
  }

  predicate MergesDown(bs: seq<Blk>, i: nat)
    requires i < |bs|
  {
    i > 0 && bs[i - 1].free && bs[i - 1].page == bs[i].page
  }

  predicate MergesUp(bs: seq<Blk>, i: nat)
    requires i < |bs|
  {
    i + 1 < |bs| && bs[i + 1].free && bs[i + 1].page == bs[i].page
  }

  function Without(ring: seq<Blk>, b: Blk): seq<Blk>
    requires b in ring
  {
    RemoveAt(ring, IndexOf(ring, b))
  }

  function MergedLow(bs: seq<Blk>, i: nat): (lo: nat)
    requires i < |bs|
    ensures lo <= i
  {
    if MergesDown(bs, i) then i - 1 else i
  }

  function MergedHigh(bs: seq<Blk>, i: nat): (hi: nat)
    requires i < |bs|
    ensures i < hi <= |bs|
  {
    if MergesUp(bs, i) then i + 2 else i + 1
  }

  /** Block `i` freed and joined with its free neighbours. */
  function Merged(bs: seq<Blk>, i: nat): Blk
    requires i < |bs|
  {
    Blk(bs[i].page,
        if MergesDown(bs, i) then bs[i - 1].offs else bs[i].offs,
        (if MergesDown(bs, i) then bs[i - 1].size else 0) + bs[i].size
            + (if MergesUp(bs, i) then bs[i + 1].size else 0),
        true)
  }

  /** The free ring without the neighbours that block `i` absorbs. */
  function Unringed(m: State, i: nat): seq<Blk>
    requires i < |m.blocks| && RingHoldsFree(m.blocks, m.ring) && Ordered(m.blocks)
  {
    var r := if MergesDown(m.blocks, i) then Without(m.ring, m.blocks[i - 1]) else m.ring;
    if MergesUp(m.blocks, i) then
      assert MergesDown(m.blocks, i) ==> Before(m.blocks[i - 1], m.blocks[i + 1]);
      Without(r, m.blocks[i + 1])
    else r
  }

  /** State after the merge and before the merged block is linked into the ring. */
  function Coalesce(m: State, i: nat): State
    requires i < |m.blocks| && RingHoldsFree(m.blocks, m.ring) && Ordered(m.blocks)
  {
    var b := m.blocks[i];
    m.(blocks := m.blocks[..MergedLow(m.blocks, i)] + [Merged(m.blocks, i)] + m.blocks[MergedHigh(m.blocks, i)..],
       ring := Unringed(m, i),
       stats := m.stats.RegisterFree(b.size).(mergeCount := m.stats.mergeCount
                  + (if MergesDown(m.blocks, i) then 1 else 0) + (if MergesUp(m.blocks, i) then 1 else 0)))
  }

  /** Free the live block `i`. */
  function Free(m: State, i: nat): State
    requires i < |m.blocks| && RingHoldsFree(m.blocks, m.ring) && Ordered(m.blocks)
  {
    InsertFree(Coalesce(m, i), Merged(m.blocks, i))
  }

  // ---------------------------------------------------------------- invariant

  const HEAD := Blk(DUMMY_PAGE, PAGE_SIZE, 0, true)  // dummy_block seen from its successor
  const TAIL := Blk(-1, 0, 0, true)                  // dummy_block seen from its predecessor

  /**
    How two neighbours of the block list relate: on one page they touch and are not both free;
    otherwise the first one ends its page, the second one starts a page with a smaller id.
   */
  predicate Adjacent(a: Blk, b: Blk) {
    if a.page == b.page then b.offs == a.offs + a.size && !(a.free && b.free)
    else a.page > b.page && a.offs + a.size == PAGE_SIZE && b.offs == 0
  }

  ghost predicate Chain(s: seq<Blk>) {
    forall i, j :: 0 <= i && j == i + 1 && j < |s| ==> Adjacent(s[i], s[j])
  }

  function Pad(bs: seq<Blk>): seq<Blk> {
    [HEAD] + bs + [TAIL]
  }

  predicate Sound(b: Blk) {
    0 <= b.page < DUMMY_PAGE && 0 <= b.offs && MAX_SMALL_SIZE / 2 <= b.size <= PAGE_SIZE && b.size % ALIGN == 0
  }

  /** `a` ends before `b` starts, or lies on a newer page. */
  predicate Before(a: Blk, b: Blk) {
    a.page > b.page || (a.page == b.page && a.offs + a.size <= b.offs && a.offs < b.offs)
  }

  ghost predicate Ordered(bs: seq<Blk>) {
    forall i, j :: 0 <= i < j < |bs| ==> Before(bs[i], bs[j])
  }

  ghost predicate NoDup<T>(s: seq<T>) {
    forall i, j :: 0 <= i < j < |s| ==> s[i] != s[j]
  }

  ghost predicate SortedDown(ring: seq<Blk>) {
    forall i, j :: 0 <= i < j < |ring| ==> ring[i].size >= ring[j].size
  }

  ghost predicate RingHoldsFree(bs: seq<Blk>, ring: seq<Blk>) {
    NoDup(ring) && forall b :: b in ring <==> b in bs && b.free
  }

  predicate AtMostFourPages(ring: seq<Blk>) {
    |ring| > 4 ==> ring[4].size < PAGE_SIZE
  }

  function Total(bs: seq<Blk>): int {
    if bs == [] then 0 else bs[0].size + Total(bs[1..])
  }

  function LiveTotal(bs: seq<Blk>): int {
    if bs == [] then 0 else (if bs[0].free then 0 else bs[0].size) + LiveTotal(bs[1..])
  }

  function LiveCount(bs: seq<Blk>): int {
    if bs == [] then 0 else (if bs[0].free then 0 else 1) + LiveCount(bs[1..])
  }

  /** What `checkMemory` recomputes by walking the block list. */
  predicate Accounted(bs: seq<Blk>, st: Stats) {
    && st.allocSize == Total(bs)
    && st.usedSize == LiveTotal(bs)
    && st.dataSize == LiveTotal(bs) - BLOCK_HEADER * LiveCount(bs)
    && st.allocCount - st.freeCount == LiveCount(bs)
  }

  ghost predicate Layout(bs: seq<Blk>, nextPage: int) {
    && Chain(Pad(bs))
    && (forall b :: b in bs ==> Sound(b) && b.page < nextPage)
    && 0 <= nextPage <= DUMMY_PAGE
  }

  ghost predicate Inv(m: State) {
    && Layout(m.blocks, m.nextPage)
    && RingHoldsFree(m.blocks, m.ring)
    && SortedDown(m.ring)
    && AtMostFourPages(m.ring)
    && Accounted(m.blocks, m.stats)
  }
}
