/** The public face of the heap: dispatch over the three tiers, block sizes, byte totals, and whole runs. */
module HeapManager {
  import opened HeapLayout
  import M = MediumSpec
  import MP = MediumProofs
  import MT = MediumTheorems
  import S = SmallSpec
  import SP = SmallProofs
  import ST = SmallTheorems
  import L = LargeSpec

  /** A pointer together with the block-type tag the source keeps in front of it. */
  datatype Ptr = NullPtr | SmallPtr(s: S.SBlk) | MediumPtr(m: M.Blk) | LargePtr(l: L.LBlk)

  datatype Heap = Heap(small: S.SState, medium: M.State, large: L.LState)

  const MEDIUM_LIMIT: int := PAGE_SIZE / 2  // medium_size_mask + 1

  function AllocLarge(h: Heap, request: int, sysOk: bool): (Heap, Ptr)
    requires request >= 0
  {
    var (s, out) := L.AllocLarge(h.large, request, sysOk);
    (h.(large := s), match out case LNull => NullPtr case LGranted(b) => LargePtr(b))
  }

  function AllocMedium(h: Heap, request: int, sysOk: bool): (Heap, Ptr)
    requires request >= 0 && forall b :: b in h.medium.ring ==> b in h.medium.blocks
  {
    var (m, out) := M.Alloc(h.medium, request, sysOk);
    match out
    case Null => (h, NullPtr)
    case ToLarge => AllocLarge(h, request, sysOk)
    case Granted(b) => (h.(medium := m), MediumPtr(b))
  }

  function AllocSmall(h: Heap, request: int, sysOk: bool): (Heap, Ptr)
    requires S.WellFormed(h.small) && 0 < request <= MAX_SMALL_SIZE
  {
    var (s, out) := S.AllocSmall(h.small, request, sysOk);
    (h.(small := s), match out case SNull => NullPtr case SGranted(b) => SmallPtr(b))
  }

  function Malloc(h: Heap, size: int, sysOk: bool): (Heap, Ptr)
    requires S.WellFormed(h.small) && forall b :: b in h.medium.ring ==> b in h.medium.blocks
  {
    if size <= 0 then (h, NullPtr)
    else if size < MAX_SMALL_SIZE then AllocSmall(h, size, sysOk)
    else if size < MEDIUM_LIMIT then AllocMedium(h, size, sysOk)
    else AllocLarge(h, size, sysOk)
  }

  function GetSize(p: Ptr): int {
    match p
    case NullPtr => 0
    case SmallPtr(b) => b.Data()
    case MediumPtr(b) => b.size - BLOCK_HEADER
    case LargePtr(b) => b.size - BLOCK_HEADER
  }

  /** The null pointer is ignored; any other pointer must be live. */
  function Free(h: Heap, p: Ptr): Heap
    requires HInv(h) && (p == NullPtr || IsLive(h, p))
  {
    match p
    case NullPtr => h
    case SmallPtr(b) => assert b in h.small.carved; h.(small := S.FreeSmall(h.small, b))
    case MediumPtr(b) =>
      MP.LayoutOrdered(h.medium.blocks, h.medium.nextPage);
      h.(medium := M.Free(h.medium, M.IndexOf(h.medium.blocks, b)))
    case LargePtr(b) => h.(large := L.FreeLarge(h.large, b))
  }

  function GetAllocatedBytes(h: Heap): int {
    h.small.stats.allocSize + h.medium.stats.allocSize + h.large.stats.allocSize
  }

  function GetUsedBytes(h: Heap): int {
    h.small.stats.dataSize + h.medium.stats.dataSize + h.large.stats.dataSize
  }

  function GetCachedBytes(h: Heap): int {
    GetAllocatedBytes(h) - GetUsedBytes(h)
  }

  // ---------------------------------------------------------------- invariant

  ghost predicate HInv(h: Heap) {
    S.SInv(h.small) && M.Inv(h.medium) && L.LInv(h.large)
  }

  /** The pointers callers hold. */
  predicate IsLive(h: Heap, p: Ptr) {
    match p
    case NullPtr => false
    case SmallPtr(b) => b in h.small.live
    case MediumPtr(b) => b in h.medium.blocks && !b.free
    case LargePtr(b) => b in h.large.blocks
  }

  /** A medium page still has an id. */
  predicate IdLeft(h: Heap, size: int) {
    MAX_SMALL_SIZE <= size < MEDIUM_LIMIT ==> MP.PageIdLeft(h.medium, size)
  }

  /**
   * The hypotheses on the surroundings: a small request is not refused a page in mid-page, and a medium page has an id.
   */
  predicate Served(h: Heap, size: int, sysOk: bool)
    requires S.WellFormed(h.small)
  {
    && (0 < size < MAX_SMALL_SIZE ==> sysOk || S.Harmless(h.small, size))
    && IdLeft(h, size)
  }

  // ---------------------------------------------------------------- one call

  /** What one `malloc` does: the pointer is new, large enough, and no other live pointer is affected. */
  ghost predicate Serves(h: Heap, size: int, h': Heap, p: Ptr) {
    && (p != NullPtr ==> !IsLive(h, p) && size <= GetSize(p))
    && forall q :: IsLive(h', q) <==> IsLive(h, q) || (q == p && p != NullPtr)
  }

  lemma SmallServes(h: Heap, size: int, sysOk: bool)
    requires S.SInv(h.small) && 0 < size < MAX_SMALL_SIZE && (sysOk || S.Harmless(h.small, size))
    ensures var (h', p) := AllocSmall(h, size, sysOk);
            (p == NullPtr ==> !sysOk) && Serves(h, size, h', p) && S.SInv(h'.small)
  {
    var (s, out) := S.AllocSmall(h.small, size, sysOk);
    SmallAnswers(h.small, size, sysOk, s, out);
    if out.SGranted? {
      SmallGranted(h, size, s, out.block);
    }
  }

  lemma SmallAnswers(s: S.SState, size: int, sysOk: bool, s': S.SState, out: S.SOutcome)
    requires S.SInv(s) && 0 < size < MAX_SMALL_SIZE && (sysOk || S.Harmless(s, size))
    requires (s', out) == S.AllocSmall(s, size, sysOk)
    ensures S.SInv(s') && (out.SNull? ==> !sysOk && s' == s)
    ensures out.SGranted? ==> out.block !in s.live && s'.live == s.live + {out.block} && size <= out.block.Data()
  {
    SP.AllocSmallKeeps(s, size, sysOk);
    if out.SGranted? {
      ST.SmallGrant(s, size, sysOk);
    }
  }

  lemma SmallGranted(h: Heap, size: int, s: S.SState, b: S.SBlk)
    requires b !in h.small.live && s.live == h.small.live + {b} && size <= b.Data()
    ensures Serves(h, size, h.(small := s), SmallPtr(b))
  {
  }

  lemma LargeServes(h: Heap, size: int, sysOk: bool)
    requires L.LInv(h.large) && 0 < size
    ensures var (h', p) := AllocLarge(h, size, sysOk);
            (p == NullPtr <==> !sysOk) && Serves(h, size, h', p) && L.LInv(h'.large)
  {
    L.AllocLargeKeeps(h.large, size, sysOk);
  }

  lemma MediumGranted(h: Heap, size: int, m: M.State, b: M.Blk)
    requires b !in h.medium.blocks && !b.free && size + BLOCK_HEADER <= b.size
    requires forall x :: x in m.blocks && !x.free <==> (x in h.medium.blocks && !x.free) || x == b
    ensures Serves(h, size, h.(medium := m), MediumPtr(b))
  {
  }

  lemma MediumServes(h: Heap, size: int, sysOk: bool)
    requires M.Inv(h.medium) && L.LInv(h.large) && MAX_SMALL_SIZE <= size
    ensures var (h', p) := AllocMedium(h, size, sysOk);
            (p == NullPtr ==> !sysOk) && Serves(h, size, h', p) && L.LInv(h'.large)
  {
    MT.AllocRefuses(h.medium, size, sysOk);
    var (m, out) := M.Alloc(h.medium, size, sysOk);
    match out
    case Null =>
    case ToLarge => LargeServes(h, size, sysOk);
    case Granted(b) =>
      MT.AllocMembers(h.medium, size, sysOk);
      MediumGranted(h, size, m, b);
  }

  lemma MallocKeeps(h: Heap, size: int, sysOk: bool)
    requires HInv(h) && Served(h, size, sysOk)
    ensures HInv(Malloc(h, size, sysOk).0)
  {
    if size <= 0 {
    } else if size < MAX_SMALL_SIZE {
      SmallServes(h, size, sysOk);
    } else if size < MEDIUM_LIMIT {
      MediumServes(h, size, sysOk);
      MP.AllocKeeps(h.medium, size, sysOk);
      MT.AllocRefuses(h.medium, size, sysOk);
    } else {
      LargeServes(h, size, sysOk);
    }
  }

  /** A refusal in mid-page: the request ends with null and no pointer changes, but the small tier is broken. */
  lemma SmallRefused(h: Heap, size: int)
    requires S.SInv(h.small) && 0 < size < MAX_SMALL_SIZE && !S.Harmless(h.small, size)
    ensures var (h', p) := AllocSmall(h, size, false); p == NullPtr && Serves(h, size, h', p) && !S.SInv(h'.small)
  {
    ST.RefusedPage(h.small, size);
  }

  /**
   * Every request is answered correctly; null comes back only for sizes below one or when the system refuses. The heap
   * stays in order iff the system does not refuse a page while the tail of the page in use is worth listing.
   */
  lemma MallocServes(h: Heap, size: int, sysOk: bool)
    requires HInv(h) && IdLeft(h, size)
    ensures var (h', p) := Malloc(h, size, sysOk);
            && Serves(h, size, h', p)
            && (p == NullPtr ==> size <= 0 || !sysOk) && (size <= 0 ==> p == NullPtr && h' == h)
    ensures HInv(Malloc(h, size, sysOk).0) <==> (0 < size < MAX_SMALL_SIZE ==> sysOk || S.Harmless(h.small, size))
  {
    if Served(h, size, sysOk) {
      MallocKeeps(h, size, sysOk);
    }
    if size <= 0 {
    } else if size < MAX_SMALL_SIZE {
      if Served(h, size, sysOk) {
        SmallServes(h, size, sysOk);
      } else {
        SmallRefused(h, size);
      }
    } else if size < MEDIUM_LIMIT {
      MediumServes(h, size, sysOk);
    } else {
      LargeServes(h, size, sysOk);
    }
  }

  /** A free block of the medium tier holds the request. */
  ghost predicate SomeMediumFits(h: Heap, size: int)
    requires size >= 0
  {
    exists b :: b in h.medium.blocks && b.free && b.size >= BlockBytes(size)
  }

  /**
   * Which tier answers. Below 256 bytes it is the small one. From 256 to 32767 it is the medium one, if a free block
   * holds the request or a page can be taken for it; a request that does not fit half a page and finds no block goes
   * to the large tier like those of 32768 bytes and more. The other tiers do not change.
   */
  lemma MallocTier(h: Heap, size: int, sysOk: bool)
    requires HInv(h) && 0 < size
    ensures var (h', p) := Malloc(h, size, sysOk);
            && (p.SmallPtr? ==> size < 256) && (size < 256 ==> h'.medium == h.medium && h'.large == h.large)
            && (p.MediumPtr? <==> 256 <= size < 32768
                                  && (SomeMediumFits(h, size) || (BlockBytes(size) <= 32768 && sysOk)))
            && (p.LargePtr? <==> sysOk && 256 <= size
                                 && (size >= 32768 || (BlockBytes(size) > 32768 && !SomeMediumFits(h, size))))
            && (size >= 256 ==> h'.small == h.small)
            && (p.MediumPtr? ==> h'.large == h.large) && (p.LargePtr? ==> h'.medium == h.medium)
            && (p == NullPtr && size >= 256 ==> h' == h)
  {
    if MAX_SMALL_SIZE <= size {
      MT.AllocRefuses(h.medium, size, sysOk);
      MediumAnswers(h.medium, size, sysOk);
    }
  }

  /** Granted iff a block fits, or the request fits half a page and the system answers. */
  lemma MediumAnswers(m: M.State, size: int, sysOk: bool)
    requires M.Inv(m) && MAX_SMALL_SIZE <= size
    ensures M.Alloc(m, size, sysOk).1.Granted?
            <==> (exists b :: b in m.blocks && b.free && b.size >= BlockBytes(size))
                 || (BlockBytes(size) <= PAGE_SIZE / 2 && sysOk)
  {
    if M.Fits(m, BlockBytes(size)) {
      MT.SmallestFit(m, BlockBytes(size));
    } else {
      MT.NothingFits(m, BlockBytes(size));
    }
  }

  /** The answer holds the request and less than ALIGN bytes more; in the medium tier up to MAX_SMALL_SIZE on top. */
  lemma SizeAnswered(h: Heap, size: int, sysOk: bool)
    requires HInv(h) && 0 < size && Malloc(h, size, sysOk).1 != NullPtr
    ensures var p := Malloc(h, size, sysOk).1;
            size <= GetSize(p) < size + 8 + (if p.MediumPtr? then 256 else 0)
  {
    if size < MAX_SMALL_SIZE {
      ST.SmallGrant(h.small, size, sysOk);
    } else if M.Alloc(h.medium, size, sysOk).1.Granted? {
      MT.AllocGrants(h.medium, size, sysOk);
    }
  }

  lemma FreeKeeps(h: Heap, p: Ptr)
    requires HInv(h) && (p == NullPtr || IsLive(h, p))
    ensures HInv(Free(h, p))
  {
    match p
    case NullPtr =>
    case SmallPtr(b) => SP.FreeSmallKeeps(h.small, b);
    case MediumPtr(b) => MP.FreeKeeps(h.medium, M.IndexOf(h.medium.blocks, b));
    case LargePtr(b) => L.FreeLargeKeeps(h.large, b);
  }

  lemma MediumEnds(h: Heap, b: M.Blk)
    requires M.Inv(h.medium) && b in h.medium.blocks && !b.free
    ensures M.Ordered(h.medium.blocks)
    ensures var h' := h.(medium := M.Free(h.medium, M.IndexOf(h.medium.blocks, b)));
            forall q :: IsLive(h', q) <==> IsLive(h, q) && q != MediumPtr(b)
  {
    var i := M.IndexOf(h.medium.blocks, b);
    MT.FreeMembers(h.medium, i);
    MediumGone(h, b, M.Free(h.medium, i));
  }

  lemma MediumGone(h: Heap, b: M.Blk, m: M.State)
    requires forall x :: x in m.blocks && !x.free <==> x in h.medium.blocks && !x.free && x != b
    ensures forall q :: IsLive(h.(medium := m), q) <==> IsLive(h, q) && q != MediumPtr(b)
  {
  }

  lemma LargeEnds(h: Heap, b: L.LBlk)
    requires L.LInv(h.large) && b in h.large.blocks
    ensures forall q :: IsLive(h.(large := L.FreeLarge(h.large, b)), q) <==> IsLive(h, q) && q != LargePtr(b)
  {
    L.FreeLargeKeeps(h.large, b);
  }

  lemma SmallEnds(h: Heap, b: S.SBlk)
    requires b in h.small.live && 0 <= b.slot < |h.small.lists|
    ensures forall q :: IsLive(h.(small := S.FreeSmall(h.small, b)), q) <==> IsLive(h, q) && q != SmallPtr(b)
  {
  }

  /** `free` ends exactly the pointer it is given. */
  lemma FreeEnds(h: Heap, p: Ptr)
    requires HInv(h) && (p == NullPtr || IsLive(h, p))
    ensures HInv(Free(h, p))
    ensures forall q :: IsLive(Free(h, p), q) <==> IsLive(h, q) && q != p
  {
    FreeKeeps(h, p);
    match p
    case NullPtr =>
    case SmallPtr(b) => SmallEnds(h, b);
    case MediumPtr(b) => MediumEnds(h, b);
    case LargePtr(b) => LargeEnds(h, b);
  }

  // ---------------------------------------------------------------- live pointers and byte totals

  /** The bytes behind two pointers never meet: different allocations of the system, or disjoint ranges of one page. */
  predicate Apart(p: Ptr, q: Ptr) {
    match (p, q)
    case (SmallPtr(a), SmallPtr(b)) => a.page != b.page || a.End() <= b.offs || b.End() <= a.offs
    case (MediumPtr(a), MediumPtr(b)) => a.page != b.page || a.offs + a.size <= b.offs || b.offs + b.size <= a.offs
    case (LargePtr(a), LargePtr(b)) => a.id != b.id
    case _ => true
  }

  lemma LiveApart(h: Heap, p: Ptr, q: Ptr)
    requires HInv(h) && IsLive(h, p) && IsLive(h, q) && p != q
    ensures Apart(p, q)
  {
    match (p, q)
    case (SmallPtr(a), SmallPtr(b)) =>
      if a.page == b.page {
        SP.CarvedDisjoint(h.small, a, b);
      }
    case (MediumPtr(a), MediumPtr(b)) =>
      if a.page == b.page {
        MT.BlocksDisjoint(h.medium, a, b);
      }
    case _ =>
  }

  lemma SmallTotals(s: S.SState)
    requires S.SInv(s)
    ensures 0 <= s.stats.dataSize <= s.stats.allocSize
  {
    ST.UsedBounds(s.carved, s.live);
    ST.CarvedFits(s.carved);
  }

  lemma MediumTotals(m: M.State)
    requires M.Inv(m)
    ensures 0 <= m.stats.dataSize <= m.stats.allocSize
  {
    assert forall b :: b in m.blocks ==> M.Sound(b);
    MT.LiveTotalBounds(m.blocks);
  }

  /** Used bytes never exceed allocated bytes, so cached bytes are never negative. */
  lemma CachedNeverNegative(h: Heap)
    requires HInv(h)
    ensures 0 <= GetUsedBytes(h) <= GetAllocatedBytes(h) && 0 <= GetCachedBytes(h)
  {
    SmallTotals(h.small);
    MediumTotals(h.medium);
    L.SumFloor(h.large.blocks);
  }

  // ---------------------------------------------------------------- sums over the live pointers

  function SmallLive(c: seq<S.SBlk>, live: set<S.SBlk>): seq<Ptr> {
    if c == [] then [] else (if c[0] in live then [SmallPtr(c[0])] else []) + SmallLive(c[1..], live)
  }

  function MediumLive(bs: seq<M.Blk>): seq<Ptr> {
    if bs == [] then [] else (if bs[0].free then [] else [MediumPtr(bs[0])]) + MediumLive(bs[1..])
  }

  function LargeLive(bs: seq<L.LBlk>): seq<Ptr> {
    if bs == [] then [] else [LargePtr(bs[0])] + LargeLive(bs[1..])
  }

  /** The live pointers, tier by tier. */
  function LivePointers(h: Heap): seq<Ptr> {
    SmallLive(h.small.carved, h.small.live) + (MediumLive(h.medium.blocks) + LargeLive(h.large.blocks))
  }

  function SumSizes(ps: seq<Ptr>): int {
    if ps == [] then 0 else GetSize(ps[0]) + SumSizes(ps[1..])
  }

  lemma {:induction false} SumSizesJoin(ps: seq<Ptr>, qs: seq<Ptr>)
    ensures SumSizes(ps + qs) == SumSizes(ps) + SumSizes(qs)
  {
    if ps == [] {
      assert ps + qs == qs;
    } else {
      assert (ps + qs)[1..] == ps[1..] + qs;
      SumSizesJoin(ps[1..], qs);
    }
  }

  predicate OncePtr(ps: seq<Ptr>) {
    forall i, j :: 0 <= i < j < |ps| ==> ps[i] != ps[j]
  }

  lemma OnceJoin(ps: seq<Ptr>, qs: seq<Ptr>)
    requires OncePtr(ps) && OncePtr(qs) && forall p :: p in ps ==> p !in qs
    ensures OncePtr(ps + qs) && forall p :: p in ps + qs <==> p in ps || p in qs
  {
    assert forall i :: 0 <= i < |ps| ==> ps[i] in ps;
    assert forall i :: 0 <= i < |qs| ==> qs[i] in qs;
  }

  lemma {:induction false} SmallLiveSums(c: seq<S.SBlk>, live: set<S.SBlk>)
    requires S.Unique(c)
    ensures SumSizes(SmallLive(c, live)) == S.UsedBytes(c, live) - 8 * S.UsedCount(c, live)
    ensures OncePtr(SmallLive(c, live))
    ensures forall p :: p in SmallLive(c, live) <==> p.SmallPtr? && p.s in c && p.s in live
  {
    if c != [] {
      SmallLiveSums(c[1..], live);
      var head := if c[0] in live then [SmallPtr(c[0])] else [];
      assert forall k :: 0 < k < |c| ==> c[k] == c[1..][k - 1];
      assert forall x :: x in c <==> x == c[0] || x in c[1..];
      assert c[0] !in c[1..];
      SumSizesJoin(head, SmallLive(c[1..], live));
      OnceJoin(head, SmallLive(c[1..], live));
    }
  }

  lemma {:induction false} MediumLiveSums(bs: seq<M.Blk>)
    requires M.NoDup(bs)
    ensures SumSizes(MediumLive(bs)) == M.LiveTotal(bs) - 24 * M.LiveCount(bs)
    ensures OncePtr(MediumLive(bs)) && forall p :: p in MediumLive(bs) <==> p.MediumPtr? && p.m in bs && !p.m.free
  {
    if bs != [] {
      MediumLiveSums(bs[1..]);
      var head := if bs[0].free then [] else [MediumPtr(bs[0])];
      assert forall k :: 0 < k < |bs| ==> bs[k] == bs[1..][k - 1];
      assert forall x :: x in bs <==> x == bs[0] || x in bs[1..];
      assert bs[0] !in bs[1..];
      SumSizesJoin(head, MediumLive(bs[1..]));
      OnceJoin(head, MediumLive(bs[1..]));
    }
  }

  lemma {:induction false} LargeLiveSums(bs: seq<L.LBlk>)
    requires forall i, j :: 0 <= i < j < |bs| ==> bs[i].id != bs[j].id
    ensures SumSizes(LargeLive(bs)) == L.Sum(bs) - 24 * |bs|
    ensures OncePtr(LargeLive(bs)) && forall p :: p in LargeLive(bs) <==> p.LargePtr? && p.l in bs
  {
    if bs != [] {
      assert forall k :: 0 < k < |bs| ==> bs[k] == bs[1..][k - 1];
      LargeLiveSums(bs[1..]);
      assert forall x :: x in bs <==> x == bs[0] || x in bs[1..];
      assert bs[0] !in bs[1..];
      SumSizesJoin([LargePtr(bs[0])], LargeLive(bs[1..]));
      OnceJoin([LargePtr(bs[0])], LargeLive(bs[1..]));
    }
  }

  /** Used bytes are the sizes of the live pointers, each counted once; allocated bytes are pages and large blocks. */
  lemma ByteTotals(h: Heap)
    requires HInv(h)
    ensures OncePtr(LivePointers(h)) && forall p :: p in LivePointers(h) <==> IsLive(h, p)
    ensures GetUsedBytes(h) == SumSizes(LivePointers(h))
    ensures GetAllocatedBytes(h) == h.small.pages * 65536 + M.Total(h.medium.blocks) + L.Sum(h.large.blocks)
    ensures GetCachedBytes(h) == GetAllocatedBytes(h) - GetUsedBytes(h)
  {
    SP.LedgerUnique(h.small.carved);
    MP.LayoutOrdered(h.medium.blocks, h.medium.nextPage);
    var s, m, l := SmallLive(h.small.carved, h.small.live), MediumLive(h.medium.blocks), LargeLive(h.large.blocks);
    SmallLiveSums(h.small.carved, h.small.live);
    MediumLiveSums(h.medium.blocks);
    LargeLiveSums(h.large.blocks);
    SumSizesJoin(m, l);
    OnceJoin(m, l);
    SumSizesJoin(s, m + l);
    OnceJoin(s, m + l);
  }

  // ---------------------------------------------------------------- runs

  datatype Call = CallMalloc(size: int, sysOk: bool) | CallFree(p: Ptr)

  ghost predicate Permitted(h: Heap, c: Call)
    requires S.WellFormed(h.small)
  {
    match c
    case CallMalloc(size, sysOk) => Served(h, size, sysOk)
    case CallFree(p) => p == NullPtr || IsLive(h, p)
  }

  ghost function Step(h: Heap, c: Call): (h': Heap)
    requires HInv(h) && Permitted(h, c)
    ensures HInv(h')
  {
    match c
    case CallMalloc(size, sysOk) =>
      MallocKeeps(h, size, sysOk);
      Malloc(h, size, sysOk).0
    case CallFree(p) =>
      FreeKeeps(h, p);
      Free(h, p)
  }

  ghost predicate ValidRun(h: Heap, calls: seq<Call>)
    requires HInv(h)
    decreases |calls|
  {
    calls == [] || (Permitted(h, calls[0]) && ValidRun(Step(h, calls[0]), calls[1..]))
  }

  ghost function Run(h: Heap, calls: seq<Call>): (h': Heap)
    requires HInv(h) && ValidRun(h, calls)
    ensures HInv(h')
    decreases |calls|
  {
    if calls == [] then h else Run(Step(h, calls[0]), calls[1..])
  }

  /** A pointer that no call of the run frees is still live at its end, with its address and size unchanged. */
  lemma {:induction false} LiveUntilFreed(h: Heap, calls: seq<Call>, p: Ptr)
    requires HInv(h) && ValidRun(h, calls) && IsLive(h, p) && CallFree(p) !in calls
    ensures IsLive(Run(h, calls), p)
    decreases |calls|
  {
    if calls != [] {
      var c := calls[0];
      assert c in calls;
      match c {
        case CallMalloc(size, sysOk) => MallocServes(h, size, sysOk);
        case CallFree(q) => FreeEnds(h, q);
      }
      assert forall x :: x in calls[1..] ==> x in calls;
      LiveUntilFreed(Step(h, c), calls[1..], p);
    }
  }

  function EmptyHeap(): Heap {
    Heap(S.SmallEmpty(), M.EMPTY, L.NO_LARGE)
  }

  /** So every run from the empty heap stays in the invariant. */
  lemma EmptyHeapInv(h: Heap)
    requires h == EmptyHeap()
    ensures HInv(h)
  {
    ST.SmallEmptyInv(h.small);
    MT.EmptyInv(h.medium);
    L.NoLargeInv(h.large);
  }

  // ---------------------------------------------------------------- a refusal that does harm

  /** What `malloc` needs of the heap it finds; unlike the invariant, a harmful refusal leaves it intact. */
  predicate Ready(h: Heap) {
    S.WellFormed(h.small) && forall b :: b in h.medium.ring ==> b in h.medium.blocks
  }

  /** The heap after `n` requests of 255 bytes. */
  function FilledHeap(n: nat): (h: Heap)
    requires n <= 248
    ensures Ready(h) && ST.IsFilled(h.small, n)
  {
    if n == 0 then EmptyHeap()
    else
      var before := FilledHeap(n - 1);
      ST.FillStep(before.small, n - 1);
      Malloc(before, 255, true).0
  }

  /**
    A concrete failure: after 248 requests of 255 bytes, one more that the system refuses a page, and requests of
    8 and 40 bytes, two live pointers share bytes.
   */
  lemma RefusedPageOverlap(h: Heap)
    requires h == FilledHeap(248)
    ensures var (h1, refused) := Malloc(h, 255, false);
            refused == NullPtr && Ready(h1)
            && var (h2, p) := Malloc(h1, 8, true);
               Ready(h2)
               && var (h3, q) := Malloc(h2, 40, true);
                  IsLive(h3, p) && IsLive(h3, q) && p != q && !Apart(p, q)
  {
    var s1, s2, s3, a, b := ST.FilledServedTwice(h.small);
    SmallCall(h, 255, false, s1, S.SNull);
    SmallCall(h.(small := s1), 8, true, s2, S.SGranted(a));
    SmallCall(h.(small := s2), 40, true, s3, S.SGranted(b));
    OverlapsMeet(b, a);
  }

  /** A small request changes the small tier only. */
  lemma SmallCall(h: Heap, size: int, sysOk: bool, s: S.SState, out: S.SOutcome)
    requires Ready(h) && 0 < size < MAX_SMALL_SIZE && S.WellFormed(s) && (s, out) == S.AllocSmall(h.small, size, sysOk)
    ensures Ready(h.(small := s))
    ensures Malloc(h, size, sysOk) == (h.(small := s), match out case SNull => NullPtr case SGranted(b) => SmallPtr(b))
  {
  }

  lemma OverlapsMeet(a: S.SBlk, b: S.SBlk)
    requires ST.Overlap(a, b) && S.Fine(a) && S.Fine(b)
    ensures !Apart(SmallPtr(b), SmallPtr(a))
  {
  }
}
