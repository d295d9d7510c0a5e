/** The small tier as a value: one bump page, one list per size slot, and the ledger of all blocks carved so far. */
module SmallSpec {
  import opened HeapLayout

  const SMALL_HEADER: int := 8        // sizeof(SmallBlock)
  const SMALL_PAGE_HEADER: int := 16  // sizeof(SmallPage)
  const SLOT_COUNT: int := (MAX_SMALL_SIZE + SMALL_HEADER) / ALIGN + 1

  /** A block header at (page, offs); pages are numbered in the order they were added. */
  datatype SBlk = SBlk(page: int, offs: int, slot: int)
  {
    function Bytes(): int { slot * ALIGN + ALIGN }
    function Data(): int { Bytes() - SMALL_HEADER }
    function End(): int { offs + Bytes() }
  }

  datatype SStats = SStats(allocSize: int, usedSize: int, dataSize: int, allocCount: int, freeCount: int, hitCount: int)
  {
    function Hit(): SStats { this.(hitCount := hitCount + 1) }

    function RegisterAlloc(b: SBlk): SStats {
      this.(allocCount := allocCount + 1, usedSize := usedSize + b.Bytes(), dataSize := dataSize + b.Data())
    }

    function RegisterFree(b: SBlk): SStats {
      this.(freeCount := freeCount + 1, usedSize := usedSize - b.Bytes(), dataSize := dataSize - b.Data())
    }
  }

  /** `pageSize` is 0 before the first page (the dummy page). `carved` and `live` record what has been handed out. */
  datatype SState = SState(pages: int, pageSize: int, bump: int, lists: seq<seq<SBlk>>, stats: SStats,
                           carved: seq<SBlk>, live: set<SBlk>)

  /** Bytes a small block takes for a request. */
  function SmallBytes(request: int): (r: int)
    requires request >= 0
    ensures r % ALIGN == 0 && request + SMALL_HEADER <= r < request + SMALL_HEADER + ALIGN
  {
    (request + ALIGN - 1 + SMALL_HEADER) / ALIGN * ALIGN
  }

  /** The slot whose blocks take exactly `size` bytes. */
  function Slot(size: int): (i: int)
    requires size % ALIGN == 0 && ALIGN <= size < SLOT_COUNT * ALIGN + ALIGN
    ensures 0 <= i < SLOT_COUNT && SBlk(0, 0, i).Bytes() == size
  {
    size / ALIGN - 1
  }

  function Push(lists: seq<seq<SBlk>>, b: SBlk): seq<seq<SBlk>>
    requires 0 <= b.slot < |lists|
  {
    lists[b.slot := [b] + lists[b.slot]]
  }

  predicate WellFormed(s: SState) {
    && |s.lists| == SLOT_COUNT
    && s.bump % ALIGN == 0 && s.pageSize % ALIGN == 0 && 0 <= s.bump <= s.pageSize
  }

  /** The unbumped tail of the page, as the block it would make. */
  function Tail(s: SState): SBlk
    requires WellFormed(s) && ALIGN <= s.pageSize - s.bump < SLOT_COUNT * ALIGN + ALIGN
  {
    SBlk(s.pages, s.bump, Slot(s.pageSize - s.bump))
  }

  /** Whether the tail too short for `size` is worth listing. */
  predicate Salvages(s: SState, size: int) {
    2 * ALIGN < s.pageSize - s.bump < size
  }

  function Salvage(s: SState, size: int): (s': SState)
    requires WellFormed(s) && size < SLOT_COUNT * ALIGN + ALIGN
  {
    if Salvages(s, size) then s.(lists := Push(s.lists, Tail(s)), carved := s.carved + [Tail(s)]) else s
  }

  function NewPage(s: SState): SState {
    s.(pages := s.pages + 1, pageSize := PAGE_SIZE, bump := SMALL_PAGE_HEADER,
       stats := s.stats.(allocSize := s.stats.allocSize + PAGE_SIZE))
  }

  /** Cut `size` bytes at the bump pointer. */
  function Bump(s: SState, size: int): (SState, SBlk)
    requires size % ALIGN == 0 && ALIGN <= size < SLOT_COUNT * ALIGN + ALIGN
  {
    var b := SBlk(s.pages, s.bump, Slot(size));
    (s.(bump := s.bump + size, carved := s.carved + [b]), b)
  }

  function Grant(s: SState, b: SBlk): SState {
    s.(live := s.live + {b}, stats := s.stats.RegisterAlloc(b))
  }

  datatype SOutcome = SNull | SGranted(block: SBlk)

  function AllocSmall(s: SState, request: int, sysOk: bool): (SState, SOutcome)
    requires WellFormed(s) && 0 < request <= MAX_SMALL_SIZE
  {
    var size := SmallBytes(request);
    var i := Slot(size);
    if s.lists[i] != [] then
      var b := s.lists[i][0];
      (Grant(s.(lists := s.lists[i := s.lists[i][1..]], stats := s.stats.Hit()), b), SGranted(b))
    else if s.pageSize - s.bump < size then
      if !sysOk then (Salvage(s, size), SNull)
      else
        var (s', b) := Bump(NewPage(Salvage(s, size)), size);
        (Grant(s', b), SGranted(b))
    else
      var (s', b) := Bump(s.(stats := s.stats.Hit()), size);
      (Grant(s', b), SGranted(b))
  }

  /** A refusal does no harm: no page is needed, or the tail of the page in use is not worth listing. */
  predicate Harmless(s: SState, request: int)
    requires WellFormed(s) && 0 < request <= MAX_SMALL_SIZE
  {
    var size := SmallBytes(request);
    s.lists[Slot(size)] != [] || s.pageSize - s.bump >= size || s.pageSize - s.bump <= 2 * ALIGN
  }

  function FreeSmall(s: SState, b: SBlk): SState
    requires 0 <= b.slot < |s.lists|
  {
    s.(lists := Push(s.lists, b), live := s.live - {b}, stats := s.stats.RegisterFree(b))
  }

  function EmptyLists(n: nat): (r: seq<seq<SBlk>>)
    ensures |r| == n && forall k :: 0 <= k < n ==> r[k] == []
  {
    if n == 0 then [] else EmptyLists(n - 1) + [[]]
  }

  function SmallEmpty(): SState {
    SState(0, 0, 0, EmptyLists(SLOT_COUNT), SStats(0, 0, 0, 0, 0, 0), [], {})
  }

  // ---------------------------------------------------------------- invariant

  const START := SBlk(0, PAGE_SIZE - ALIGN, 0)  // stands before the first block

  /** Neighbours in the ledger touch, or the second starts the next page and at most 2 * ALIGN bytes were given up. */
  predicate Follows(a: SBlk, b: SBlk) {
    if a.page == b.page then b.offs == a.End()
    else b.page == a.page + 1 && b.offs == SMALL_PAGE_HEADER && 0 <= PAGE_SIZE - a.End() <= 2 * ALIGN
  }

  ghost predicate Ledger(s: seq<SBlk>) {
    forall i, j :: 0 <= i && j == i + 1 && j < |s| ==> Follows(s[i], s[j])
  }

  predicate Fine(b: SBlk) {
    0 <= b.slot < SLOT_COUNT && SMALL_PAGE_HEADER <= b.offs && b.End() <= PAGE_SIZE
  }

  ghost predicate Unique(s: seq<SBlk>) {
    forall i, j :: 0 <= i < j < |s| ==> s[i] != s[j]
  }

  /** The ledger ends where the bump pointer stands. */
  predicate BumpAtEnd(s: SState) {
    if s.carved == [] then s.pages == 0 && s.pageSize == 0 && s.bump == 0
    else var last := s.carved[|s.carved| - 1];
         s.pageSize == PAGE_SIZE && last.page == s.pages && last.End() == s.bump
  }

  /** Every carved block is live or on the one list of its slot, never both. */
  ghost predicate Partition(s: SState)
    requires |s.lists| == SLOT_COUNT && forall b :: b in s.carved ==> Fine(b)
  {
    && s.live <= (set b | b in s.carved)
    && (forall b :: b in s.carved ==> Fine(b) && (b in s.live <==> b !in s.lists[b.slot]))
    && (forall k :: 0 <= k < SLOT_COUNT ==>
          Unique(s.lists[k]) && forall b :: b in s.lists[k] ==> b in s.carved && b.slot == k)
  }

  function UsedBytes(carved: seq<SBlk>, live: set<SBlk>): int {
    if carved == [] then 0 else (if carved[0] in live then carved[0].Bytes() else 0) + UsedBytes(carved[1..], live)
  }

  function UsedCount(carved: seq<SBlk>, live: set<SBlk>): int {
    if carved == [] then 0 else (if carved[0] in live then 1 else 0) + UsedCount(carved[1..], live)
  }

  predicate SAccounted(s: SState) {
    && s.stats.allocSize == s.pages * PAGE_SIZE
    && s.stats.usedSize == UsedBytes(s.carved, s.live)
    && s.stats.dataSize == UsedBytes(s.carved, s.live) - SMALL_HEADER * UsedCount(s.carved, s.live)
    && s.stats.allocCount - s.stats.freeCount == UsedCount(s.carved, s.live)
  }

  ghost predicate SInv(s: SState) {
    && WellFormed(s)
    && Ledger([START] + s.carved) && (forall b :: b in s.carved ==> Fine(b))
    && BumpAtEnd(s)
    && Partition(s)
    && SAccounted(s)
  }
}
