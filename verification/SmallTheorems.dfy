/** Whole runs of the small tier, and what a failed page request does to it. */
module SmallTheorems {
  import opened HeapLayout
  import opened SmallSpec
  import opened SmallProofs

  /** An answered request is served with enough bytes by a block that was not live, and nothing else changes hands. */
  lemma SmallGrant(s: SState, request: int, sysOk: bool)
    requires SInv(s) && 0 < request <= MAX_SMALL_SIZE && AllocSmall(s, request, sysOk).1.SGranted?
    ensures var (s', out) := AllocSmall(s, request, sysOk);
            && SInv(s') && out.block !in s.live && s'.live == s.live + {out.block}
            && request <= out.block.Data() < request + ALIGN && out.block.slot < SLOT_COUNT
  {
    var size := SmallBytes(request);
    var i := Slot(size);
    AllocSmallKeeps(s, request, true);
    if s.lists[i] != [] {
      assert s.lists[i][0] in s.lists[i];
    } else {
      var g := AllocSmall(s, request, sysOk).1.block;
      if g in s.live {
        BehindBump(s, g);
      }
    }
  }

  /**
   * Where a granted block comes from: the head of the list of its slot if there is one; else the page in use if it has
   * room; and only else a new page.
   */
  lemma SmallSource(s: SState, request: int, size: int, i: int)
    requires SInv(s) && 0 < request <= MAX_SMALL_SIZE && size == SmallBytes(request) && (i + 1) * 8 == size
    ensures 0 <= i < |s.lists|
    ensures var (s', out) := AllocSmall(s, request, true);
            && out.SGranted? && out.block.slot == i
            && (s.lists[i] != [] ==> out.block == s.lists[i][0] && s'.pages == s.pages && s'.bump == s.bump)
            && (s.lists[i] == [] && s.pageSize - s.bump >= size ==>
                  out.block.page == s.pages == s'.pages && out.block.offs == s.bump && s'.bump == s.bump + size)
            && (s.lists[i] == [] && s.pageSize - s.bump < size ==>
                  out.block.page == s.pages + 1 == s'.pages && out.block.offs == 16 && s'.bump == 16 + size)
  {
    assert Slot(size) == i;
    if s.lists[i] != [] {
      assert s.lists[i][0] in s.lists[i];
    }
  }

  /** A block that was freed is what the next request of its size gets, without a page from the system. */
  lemma SmallFreedIsNext(s: SState, b: SBlk, request: int, sysOk: bool)
    requires SInv(s) && b in s.live && 0 < request <= MAX_SMALL_SIZE && SmallBytes(request) == b.Bytes()
    ensures Fine(b)
    ensures AllocSmall(FreeSmall(s, b), request, sysOk).1 == SGranted(b)
    ensures AllocSmall(FreeSmall(s, b), request, sysOk).0.pages == s.pages
  {
    FreeSmallKeeps(s, b);
    assert Slot(SmallBytes(request)) == b.slot;
  }

  // ---------------------------------------------------------------- runs

  datatype SOp = SRequest(size: int, sysOk: bool) | SReturn(block: SBlk)

  predicate SAllowed(s: SState, op: SOp)
    requires WellFormed(s)
  {
    match op
    case SRequest(size, sysOk) => 0 < size <= MAX_SMALL_SIZE && (sysOk || Harmless(s, size))
    case SReturn(b) => b in s.live
  }

  function SStep(s: SState, op: SOp): (s': SState)
    requires SInv(s) && SAllowed(s, op)
    ensures SInv(s')
  {
    match op
    case SRequest(size, sysOk) =>
      AllocSmallKeeps(s, size, sysOk);
      AllocSmall(s, size, sysOk).0
    case SReturn(b) =>
      FreeSmallKeeps(s, b);
      FreeSmall(s, b)
  }

  ghost predicate SValidRun(s: SState, ops: seq<SOp>)
    requires SInv(s)
    decreases |ops|
  {
    ops == [] || (SAllowed(s, ops[0]) && SValidRun(SStep(s, ops[0]), ops[1..]))
  }

  ghost function SRun(s: SState, ops: seq<SOp>): (s': SState)
    requires SInv(s) && SValidRun(s, ops)
    ensures SInv(s')
    decreases |ops|
  {
    if ops == [] then s else SRun(SStep(s, ops[0]), ops[1..])
  }

  function PageBytes(c: seq<SBlk>, page: int): int {
    if c == [] then 0 else (if c[0].page == page then c[0].Bytes() else 0) + PageBytes(c[1..], page)
  }

  lemma {:induction false} PageBytesAppend(c: seq<SBlk>, b: SBlk, page: int)
    ensures PageBytes(c + [b], page) == PageBytes(c, page) + (if b.page == page then b.Bytes() else 0)
  {
    if c == [] {
      assert c + [b] == [b];
    } else {
      assert (c + [b])[1..] == c[1..] + [b];
      PageBytesAppend(c[1..], b, page);
    }
  }

  /**
   * Walking the ledger: the page of its last block is filled up to that block, all older pages but for 2 * ALIGN bytes.
   */
  lemma {:induction false} PagesFilled(c: seq<SBlk>, page: int)
    requires Ledger([START] + c) && (forall b :: b in c ==> Fine(b)) && c != []
    ensures var last := c[|c| - 1];
            && (page == last.page ==> SMALL_PAGE_HEADER + PageBytes(c, page) == last.End())
            && (1 <= page < last.page ==> PAGE_SIZE - 2 * ALIGN <= SMALL_PAGE_HEADER + PageBytes(c, page) <= PAGE_SIZE)
            && (page > last.page ==> PageBytes(c, page) == 0) && last.page >= 1
    decreases |c|
  {
    var n := |c| - 1;
    var s, front, last := [START] + c, c[..n], c[n];
    assert c == front + [last];
    PageBytesAppend(front, last, page);
    assert Follows(s[n], s[n + 1]) && s[n + 1] == last;
    assert Fine(last);
    if n > 0 {
      assert [START] + front == s[..n + 1];
      assert s[n] == front[n - 1];
      PagesFilled(front, page);
    }
  }

  /** Each page is its header, its blocks and the unbumped tail; a retired page gives up at most 2 * ALIGN bytes. */
  lemma SmallPartition(s: SState, page: int)
    requires SInv(s) && 1 <= page <= s.pages
    ensures page == s.pages ==> SMALL_PAGE_HEADER + PageBytes(s.carved, page) + (s.pageSize - s.bump) == PAGE_SIZE
    ensures page < s.pages ==> 0 <= PAGE_SIZE - (SMALL_PAGE_HEADER + PageBytes(s.carved, page)) <= 2 * ALIGN
    ensures forall b :: b in s.carved ==> (b in s.live) != (b in s.lists[b.slot])
    ensures forall k, b :: 0 <= k < SLOT_COUNT && b in s.lists[k] ==> b in s.carved && b.Bytes() == (k + 1) * ALIGN
  {
    PagesFilled(s.carved, page);
  }

  lemma {:induction false} UsedBounds(c: seq<SBlk>, live: set<SBlk>)
    requires forall b :: b in c ==> Fine(b)
    ensures SMALL_HEADER * UsedCount(c, live) <= UsedBytes(c, live) && 0 <= UsedCount(c, live)
    ensures UsedBytes(c, live) <= UsedBytes(c, set b | b in c)
  {
    if c != [] {
      assert Fine(c[0]);
      UsedBounds(c[1..], live);
      UsedMonotone(c[1..], set b | b in c[1..], set b | b in c);
    }
  }

  lemma {:induction false} UsedMonotone(c: seq<SBlk>, l1: set<SBlk>, l2: set<SBlk>)
    requires l1 <= l2 && forall b :: b in c ==> Fine(b)
    ensures UsedBytes(c, l1) <= UsedBytes(c, l2)
  {
    if c != [] {
      assert Fine(c[0]);
      UsedMonotone(c[1..], l1, l2);
    }
  }

  /** All carved bytes together fit the pages. */
  lemma {:induction false} CarvedFits(c: seq<SBlk>)
    requires Ledger([START] + c) && (forall b :: b in c ==> Fine(b))
    ensures var all := set b | b in c;
            UsedBytes(c, all) <= if c == [] then 0 else (c[|c| - 1].page - 1) * PAGE_SIZE + c[|c| - 1].End()
    decreases |c|
  {
    if c != [] {
      var n := |c| - 1;
      var s, front, last := [START] + c, c[..n], c[n];
      var all, older := set b | b in c, set b | b in front;
      assert c == front + [last];
      assert [START] + front == s[..n + 1];
      assert Follows(s[n], s[n + 1]) && s[n + 1] == last;
      assert Fine(last) && last in all;
      CarvedFits(front);
      LedgerUnique(c);
      assert all == older + {last} && last !in front;
      UsedAbsent(front, older, last);
      UsedAppend(front, all, last);
      if n > 0 {
        assert s[n] == front[n - 1];
      }
    }
  }

  /** What the statistics promise after every run. */
  lemma SmallRunChecks(s0: SState, ops: seq<SOp>)
    requires SInv(s0) && SValidRun(s0, ops)
    ensures var s := SRun(s0, ops);
            && 0 <= s.stats.dataSize <= s.stats.usedSize <= s.stats.allocSize
            && s.stats.freeCount <= s.stats.allocCount
            && (forall b :: b in s.carved ==> b.slot < SLOT_COUNT && (b in s.live) != (b in s.lists[b.slot]))
  {
    var s := SRun(s0, ops);
    UsedBounds(s.carved, s.live);
    CarvedFits(s.carved);
  }

  // ---------------------------------------------------------------- the system runs dry

  /**
    A page request the system refuses keeps the invariant exactly when the tail of the bump page was not
    worth listing: otherwise the tail is listed and still bumped from.
   */
  lemma RefusedPage(s: SState, request: int)
    requires SInv(s) && 0 < request <= MAX_SMALL_SIZE && AllocSmall(s, request, false).1 == SNull
    ensures SInv(AllocSmall(s, request, false).0) <==> s.pageSize - s.bump <= 2 * ALIGN
  {
    var s' := AllocSmall(s, request, false).0;
    if Salvages(s, SmallBytes(request)) {
      assert s'.carved[|s'.carved| - 1].End() == s.pageSize;
    }
  }

  /** The tier after `n` requests of 255 bytes: one page, nothing listed, 264 bytes a block. */
  predicate IsFilled(s: SState, n: nat) {
    && WellFormed(s) && (forall k :: 0 <= k < SLOT_COUNT ==> s.lists[k] == [])
    && if n == 0 then s.pages == 0 && s.pageSize == 0 && s.bump == 0
       else s.pages == 1 && s.pageSize == PAGE_SIZE && s.bump == SMALL_PAGE_HEADER + 264 * n
  }

  lemma FillStep(s: SState, n: nat)
    requires n < 248 && IsFilled(s, n)
    ensures IsFilled(AllocSmall(s, 255, true).0, n + 1)
  {
    assert SmallBytes(255) == 264;
  }

  /** Two blocks that start at the same byte, one listed as free and one just granted. */
  predicate Clash(lists: seq<seq<SBlk>>, t: SBlk, g: SBlk) {
    0 <= t.slot < |lists| && t in lists[t.slot] && t != g && t.page == g.page && t.offs == g.offs
  }

  /** After a refusal that listed the tail, a smaller request is served from the very same bytes. */
  lemma ListedTailReused(s: SState, big: int, little: int)
    requires WellFormed(s) && 0 < little < big <= MAX_SMALL_SIZE && Salvages(s, SmallBytes(big))
    requires s.lists[Slot(SmallBytes(big))] == [] && s.lists[Slot(SmallBytes(little))] == []
    requires SmallBytes(little) < s.pageSize - s.bump
    ensures var refused := AllocSmall(s, big, false).0;
            && WellFormed(refused)
            && var (s', out) := AllocSmall(refused, little, true);
               out.SGranted? && Clash(s'.lists, Tail(s), out.block)
  {
  }

  /** Two blocks that start at the same byte. */
  predicate Overlap(a: SBlk, b: SBlk) {
    a != b && a.page == b.page && a.offs == b.offs
  }

  /** A request that takes exactly the listed block `t` gets it. */
  lemma ListedGranted(s: SState, t: SBlk, request: int)
    requires WellFormed(s) && 0 < request <= MAX_SMALL_SIZE && 0 <= t.slot < SLOT_COUNT && t.Data() == request
    requires s.lists[t.slot] != [] && s.lists[t.slot][0] == t
    ensures AllocSmall(s, request, true).1 == SGranted(t) && AllocSmall(s, request, true).0.live == s.live + {t}
  {
    assert Slot(SmallBytes(request)) == t.slot;
  }

  /** What a little request finds after the refusal: the tail at the head of its list, and still bumped from. */
  lemma ListedTailBumped(s: SState, big: int, little: int, s1: SState, s2: SState, g: SBlk)
    requires WellFormed(s) && 0 < little < big <= MAX_SMALL_SIZE && Salvages(s, SmallBytes(big))
    requires s.lists[Slot(SmallBytes(big))] == [] && s.lists[Slot(SmallBytes(little))] == []
    requires SmallBytes(little) < s.pageSize - s.bump && s1 == AllocSmall(s, big, false).0
    requires WellFormed(s1) && s2 == AllocSmall(s1, little, true).0
             && g == SBlk(s.pages, s.bump, Slot(SmallBytes(little)))
    ensures AllocSmall(s1, little, true).1 == SGranted(g) && WellFormed(s2) && s2.live == s.live + {g}
    ensures s2.lists[Tail(s).slot] == [Tail(s)] + s.lists[Tail(s).slot] && Overlap(Tail(s), g)
  {
  }

  /**
    So wherever a refusal does harm, two requests can be answered with two blocks that start at the same byte:
    `little` is bumped from the tail, and a request for exactly the tail is served from the list.
   */
  lemma TailServedTwice(s: SState, big: int, little: int)
    requires WellFormed(s) && 0 < little < big <= MAX_SMALL_SIZE && Salvages(s, SmallBytes(big))
    requires s.lists[Slot(SmallBytes(big))] == [] && s.lists[Slot(SmallBytes(little))] == []
    requires SmallBytes(little) < s.pageSize - s.bump
    ensures var s1, exact := AllocSmall(s, big, false).0, Tail(s).Data();
            && WellFormed(s1) && 0 < exact <= MAX_SMALL_SIZE
            && var (s2, first) := AllocSmall(s1, little, true);
               && first.SGranted? && WellFormed(s2)
               && var (s3, second) := AllocSmall(s2, exact, true);
                  second.SGranted? && Overlap(second.block, first.block) && {first.block, second.block} <= s3.live
  {
    ListedTailReused(s, big, little);
    var s1 := AllocSmall(s, big, false).0;
    var s2 := AllocSmall(s1, little, true).0;
    ListedTailBumped(s, big, little, s1, s2, SBlk(s.pages, s.bump, Slot(SmallBytes(little))));
    ListedGranted(s2, Tail(s), Tail(s).Data());
  }

  /** On the filled tier: a refused request of 255 bytes, then 8 bytes bumped from the tail, then 40 from the list. */
  lemma FilledServedTwice(s: SState) returns (s1: SState, s2: SState, s3: SState, a: SBlk, b: SBlk)
    requires IsFilled(s, 248)
    ensures (s1, SNull) == AllocSmall(s, 255, false) && WellFormed(s1)
    ensures (s2, SGranted(a)) == AllocSmall(s1, 8, true) && WellFormed(s2)
    ensures (s3, SGranted(b)) == AllocSmall(s2, 40, true) && WellFormed(s3)
    ensures Overlap(b, a) && Fine(a) && Fine(b) && {a, b} <= s3.live
  {
    assert SmallBytes(255) == 264 && SmallBytes(8) == 16;
    TailServedTwice(s, 255, 8);
    s1 := AllocSmall(s, 255, false).0;
    s2, a := AllocSmall(s1, 8, true).0, SBlk(1, 65488, 1);
    b := SBlk(1, 65488, 5);
    ListedTailBumped(s, 255, 8, s1, s2, a);
    ListedGranted(s2, b, 40);
    s3 := AllocSmall(s2, 40, true).0;
  }

  /** The heap starts in a good state. */
  lemma SmallEmptyInv(s: SState)
    requires s == SmallEmpty()
    ensures SInv(s)
  {
    assert [START] + s.carved == [START];
    assert Ledger([START] + s.carved);
    assert Partition(s);
    assert SAccounted(s);
  }
}
