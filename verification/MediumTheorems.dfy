/** The promises of the medium tier, stated about its states, its steps and its runs. */
module MediumTheorems {
  import opened HeapLayout
  import opened MediumSpec
  import opened MediumProofs

  ghost function Live(m: State): set<Blk> {
    set b | b in m.blocks && !b.free
  }

  // ---------------------------------------------------------------- layout of one state

  /** Byte ranges of two different blocks never meet, and none leaves its page. */
  lemma BlocksDisjoint(m: State, a: Blk, b: Blk)
    requires Inv(m) && a in m.blocks && b in m.blocks && a != b && a.page == b.page
    ensures a.offs + a.size <= b.offs || b.offs + b.size <= a.offs
    ensures 0 <= a.offs && a.offs + a.size <= PAGE_SIZE
  {
    LayoutOrdered(m.blocks, m.nextPage);
    var i :| 0 <= i < |m.blocks| && m.blocks[i] == a;
    var j :| 0 <= j < |m.blocks| && m.blocks[j] == b;
    assert Before(a, b) || Before(b, a);
    InsidePage(m.blocks, m.nextPage, i);
  }

  function PageTotal(bs: seq<Blk>, page: int): int {
    if bs == [] then 0 else (if bs[0].page == page then bs[0].size else 0) + PageTotal(bs[1..], page)
  }

  lemma {:induction false} PageTotalAbsent(bs: seq<Blk>, page: int)
    requires forall b :: b in bs ==> b.page != page
    ensures PageTotal(bs, page) == 0
  {
    if bs != [] {
      assert bs[0] in bs;
      PageTotalAbsent(bs[1..], page);
    }
  }

  /** From block `i` on, its page is covered up to the end. */
  lemma {:induction false} RestOfPage(bs: seq<Blk>, nextPage: int, i: nat)
    requires Layout(bs, nextPage) && i < |bs|
    ensures PageTotal(bs[i..], bs[i].page) == PAGE_SIZE - bs[i].offs
    decreases |bs| - i
  {
    Neighbours(bs, nextPage, i);
    assert bs[i..][1..] == bs[i + 1..];
    if i + 1 < |bs| && bs[i + 1].page == bs[i].page {
      RestOfPage(bs, nextPage, i + 1);
    } else {
      LayoutOrdered(bs, nextPage);
      assert bs[i] in bs;
      forall b | b in bs[i + 1..] ensures b.page != bs[i].page {
        var j :| i + 1 <= j < |bs| && bs[j] == b;
        assert Before(bs[i + 1], bs[j]) || j == i + 1;
      }
      PageTotalAbsent(bs[i + 1..], bs[i].page);
    }
  }

  lemma {:induction false} PageTotalFrom(bs: seq<Blk>, nextPage: int, i: nat, page: int)
    requires Layout(bs, nextPage) && i <= |bs|
    requires i < |bs| ==> i == 0 || bs[i - 1].page != bs[i].page || bs[i].page != page
    ensures PageTotal(bs[i..], page) == if exists b :: b in bs[i..] && b.page == page then PAGE_SIZE else 0
    decreases |bs| - i
  {
    if i < |bs| {
      assert bs[i..][0] == bs[i] && bs[i..][1..] == bs[i + 1..];
      Neighbours(bs, nextPage, i);
      if bs[i].page == page {
        assert bs[i] in bs[i..];
        RestOfPage(bs, nextPage, i);
      } else {
        PageTotalFrom(bs, nextPage, i + 1, page);
        assert forall b :: b in bs[i..] && b.page == page <==> b in bs[i + 1..] && b.page == page;
      }
    }
  }

  /** The blocks of a page tile it exactly. */
  lemma PageTiled(m: State, b: Blk)
    requires Inv(m) && b in m.blocks
    ensures PageTotal(m.blocks, b.page) == PAGE_SIZE
  {
    assert m.blocks[0..] == m.blocks;
    PageTotalFrom(m.blocks, m.nextPage, 0, b.page);
  }

  /** Blocks of one page are contiguous in the block list, in address order, each starting where the last one ended. */
  lemma {:induction false} PageContiguous(m: State, i: nat, j: nat)
    requires Inv(m) && i < j < |m.blocks| && m.blocks[i].page == m.blocks[j].page
    ensures forall k :: i <= k < j ==> m.blocks[k].page == m.blocks[i].page
                                       && m.blocks[k + 1].offs == m.blocks[k].offs + m.blocks[k].size
  {
    LayoutOrdered(m.blocks, m.nextPage);
    forall k | i <= k < j
      ensures m.blocks[k].page == m.blocks[i].page && m.blocks[k + 1].offs == m.blocks[k].offs + m.blocks[k].size
    {
      Neighbours(m.blocks, m.nextPage, k);
      assert k == i || Before(m.blocks[i], m.blocks[k]);
      assert Before(m.blocks[k], m.blocks[j]);
      assert k + 1 == j || Before(m.blocks[k + 1], m.blocks[j]);
    }
  }

  /** No two neighbours on a page are both free. */
  lemma MaximallyCoalesced(m: State, a: Blk, b: Blk)
    requires Inv(m) && a in m.blocks && b in m.blocks && a.page == b.page && b.offs == a.offs + a.size
    ensures !(a.free && b.free)
  {
    LayoutOrdered(m.blocks, m.nextPage);
    var i :| 0 <= i < |m.blocks| && m.blocks[i] == a;
    var j :| 0 <= j < |m.blocks| && m.blocks[j] == b;
    assert a.size > 0 && b.size > 0;
    assert Before(a, b) && i < j;
    var x := m.blocks[i + 1];
    assert x in m.blocks;
    NothingBetween(a, x, b);
    assert i + 1 == j || (Before(a, x) && Before(x, b));
    Neighbours(m.blocks, m.nextPage, i);
  }

  /** No block fits between two that touch. */
  lemma NothingBetween(a: Blk, x: Blk, b: Blk)
    requires a.page == b.page && b.offs == a.offs + a.size && x.size > 0
    ensures !(Before(a, x) && Before(x, b))
  {
  }

  /** At most four wholly free pages are kept. */
  lemma FourFreePages(m: State)
    requires Inv(m)
    ensures |set b | b in m.blocks && b.free && b.size == PAGE_SIZE| <= 4
  {
    var pages := set b | b in m.blocks && b.free && b.size == PAGE_SIZE;
    var n := if |m.ring| < 4 then |m.ring| else 4;
    var first := set i | 0 <= i < n :: m.ring[i];
    forall b | b in pages ensures b in first {
      var k :| 0 <= k < |m.ring| && m.ring[k] == b;
      assert k < n;
    }
    FirstFew(m.ring, n);
    SubsetSize(pages, first);
  }

  lemma {:induction false} FirstFew(ring: seq<Blk>, n: nat)
    requires n <= |ring|
    ensures |set i | 0 <= i < n :: ring[i]| <= n
  {
    if n > 0 {
      var s := set i | 0 <= i < n - 1 :: ring[i];
      FirstFew(ring, n - 1);
      assert (set i | 0 <= i < n :: ring[i]) == s + {ring[n - 1]};
    }
  }

  lemma {:induction false} SubsetSize<T>(a: set<T>, b: set<T>)
    requires a <= b
    ensures |a| <= |b|
  {
    if a != {} {
      var x :| x in a;
      SubsetSize(a - {x}, b - {x});
    }
  }

  // ---------------------------------------------------------------- one step

  lemma CarveGrants(m: State, i: nat, k: nat, size: int)
    requires Inv(m) && i < |m.blocks| && k < |m.ring| && m.blocks[i] == m.ring[k]
    requires MAX_SMALL_SIZE / 2 <= size <= m.blocks[i].size
    ensures var (m', g) := Carve(m, i, k, size);
            && Live(m') == Live(m) + {g} && g !in m.blocks
            && size <= g.size < size + MAX_SMALL_SIZE
            && CutFrom(m.blocks, m'.blocks, size, m.blocks[i], g)
            && m'.nextPage == m.nextPage
  {
    var b := m.blocks[i];
    assert m.ring[k] in m.ring;
    var (m', g) := Carve(m, i, k, size);
    LastOfPage(m.blocks, m.nextPage, i);
    if GrantWhole(m.blocks, i, size) {
      assert m'.blocks == m.blocks[..i] + [g] + m.blocks[i + 1..];
      OneMoreLive(m, m', i, [g], g);
    } else {
      var rest := b.(size := b.size - size);
      OneMoreLive(m, m', i, [rest, g], g);
      assert m'.blocks[i] == rest;
    }
  }

  /** Some block of the page starts there. */
  predicate StartsAt(bs: seq<Blk>, page: int, offs: int) {
    exists c :: c in bs && c.page == page && c.offs == offs
  }

  /** The block list tells whether a block is the last one of its page. */
  lemma LastOfPage(bs: seq<Blk>, nextPage: int, i: nat)
    requires Layout(bs, nextPage) && i < |bs|
    ensures i + 1 == |bs| || bs[i + 1].page != bs[i].page <==> !StartsAt(bs, bs[i].page, bs[i].offs + bs[i].size)
  {
    Neighbours(bs, nextPage, i);
    LayoutOrdered(bs, nextPage);
    if i + 1 < |bs| && bs[i + 1].page == bs[i].page {
      assert bs[i + 1] in bs;
    }
    if c :| c in bs && c.page == bs[i].page && c.offs == bs[i].offs + bs[i].size {
      var j :| 0 <= j < |bs| && bs[j] == c;
      assert bs[i] in bs && bs[j] in bs;
      SamePageBehind(bs, i, j);
    }
  }

  lemma SamePageBehind(bs: seq<Blk>, i: nat, j: nat)
    requires Ordered(bs) && i < |bs| && j < |bs| && bs[i].size > 0 && bs[j].size > 0
    requires bs[j].page == bs[i].page && bs[j].offs == bs[i].offs + bs[i].size
    ensures i + 1 < |bs| && bs[i + 1].page == bs[i].page
  {
    var a, b := bs[i], bs[j];
    assert j < i ==> Before(b, a);
    assert j > i + 1 ==> Before(a, bs[i + 1]) && Before(bs[i + 1], b);
  }

  /**
    How the free block `b` serves `size` bytes: its tail end is granted. It is granted whole iff less than half of
    MAX_SMALL_SIZE bytes would be left, or less than MAX_SMALL_SIZE at the end of its page; else exactly `size` bytes
    are granted and the front stays free.
   */
  ghost predicate CutFrom(was: seq<Blk>, now: seq<Blk>, size: int, b: Blk, g: Blk) {
    && g.page == b.page && b.offs <= g.offs && g.offs + g.size == b.offs + b.size
    && (g.size == b.size
        <==> b.size - size < 128 || (b.size - size < 256 && !StartsAt(was, b.page, b.offs + b.size)))
    && (g.size != b.size ==> g.size == size && Blk(b.page, b.offs, b.size - size, true) in now)
  }

  /** The free block `i` gives way to `mid`, whose last block is the grant and whose others are free. */
  lemma OneMoreLive(m: State, m': State, i: nat, mid: seq<Blk>, g: Blk)
    requires Inv(m) && i < |m.blocks| && m.blocks[i].free && m'.blocks == m.blocks[..i] + mid + m.blocks[i + 1..]
    requires g in mid && !g.free && forall x :: x in mid && x != g ==> x.free
    requires g.page == m.blocks[i].page && m.blocks[i].offs <= g.offs < m.blocks[i].offs + m.blocks[i].size
    ensures Live(m') == Live(m) + {g} && g !in m.blocks
  {
    LayoutOrdered(m.blocks, m.nextPage);
    if g in m.blocks {
      OnlyOneStarts(m.blocks, i, g);
    }
    assert m.blocks[i..i + 1] == [m.blocks[i]];
    ReplaceMembers(m.blocks, i, i + 1, mid);
  }

  /** `g` is cut from a smallest free block of `m` that holds `size` bytes. */
  ghost predicate FromSmallest(m: State, now: seq<Blk>, size: int, g: Blk) {
    exists b :: IsSmallestFit(m, size, b) && CutFrom(m.blocks, now, size, b, g)
  }

  ghost predicate IsSmallestFit(m: State, size: int, b: Blk) {
    b in m.blocks && b.free && b.size >= size
    && forall c :: c in m.blocks && c.free && c.size >= size ==> b.size <= c.size
  }

  ghost predicate SomeFits(m: State, size: int) {
    exists b :: b in m.blocks && b.free && b.size >= size
  }

  lemma HitGrants(m: State, request: int, sysOk: bool)
    requires Inv(m) && MAX_SMALL_SIZE <= request && Fits(m, BlockBytes(request))
    ensures var (m', out) := Alloc(m, request, sysOk);
            var size := BlockBytes(request);
            && out.Granted? && Live(m') == Live(m) + {out.block} && out.block !in m.blocks
            && size <= out.block.size < size + MAX_SMALL_SIZE
            && m'.nextPage == m.nextPage && SomeFits(m, size) && FromSmallest(m, m'.blocks, size, out.block)
            && m'.stats.hitCount == m.stats.hitCount + 1
  {
    var size := BlockBytes(request);
    var k := BestFit(m.ring, size);
    SmallestFit(m, size);
    var i := IndexOf(m.blocks, m.ring[k]);
    var (m', g) := Carve(HitState(m), i, k, size);
    assert Alloc(m, request, sysOk) == (m', Granted(g));
    HitCarved(m, i, k, size, m', g);
  }

  lemma HitCarved(m: State, i: nat, k: nat, size: int, m': State, g: Blk)
    requires Inv(m) && i < |m.blocks| && k < |m.ring| && m.blocks[i] == m.ring[k]
    requires MAX_SMALL_SIZE / 2 <= size <= m.blocks[i].size && (m', g) == Carve(HitState(m), i, k, size)
    ensures Live(m') == Live(m) + {g} && g !in m.blocks && CutFrom(m.blocks, m'.blocks, size, m.ring[k], g)
    ensures size <= g.size < size + MAX_SMALL_SIZE && m'.nextPage == m.nextPage
  {
    assert Live(HitState(m)) == Live(m);
    CarveGrants(HitState(m), i, k, size);
  }

  /**
    Best fit: when some free block fits, the grant comes from a smallest one and no page is added;
    a page is added only when no free block fits. The grant exceeds the rounded request by less than
    MAX_SMALL_SIZE, is the only new live block, and every other live block stays as it was.
   */
  lemma AllocGrants(m: State, request: int, sysOk: bool)
    requires Inv(m) && MAX_SMALL_SIZE <= request
    requires Alloc(m, request, sysOk).1.Granted?
    ensures var (m', out) := Alloc(m, request, sysOk);
            var size := BlockBytes(request);
            && Live(m') == Live(m) + {out.block} && out.block !in m.blocks
            && size <= out.block.size < size + MAX_SMALL_SIZE
            && (SomeFits(m, size) ==> m'.nextPage == m.nextPage && FromSmallest(m, m'.blocks, size, out.block))
            && (!SomeFits(m, size) ==>
                  m'.nextPage == m.nextPage + 1 && size <= 32768
                  && m'.blocks == [Blk(m.nextPage, 0, 65536 - size, true), out.block] + m.blocks
                  && out.block == Blk(m.nextPage, 65536 - size, size, false))
            && m'.stats.hitCount == m.stats.hitCount + (if SomeFits(m, size) then 1 else 0)
  {
    if Fits(m, BlockBytes(request)) {
      HitGrants(m, request, sysOk);
    } else {
      NothingFits(m, BlockBytes(request));
      MissGrants(m, request);
    }
  }

  lemma SmallestFit(m: State, size: int)
    requires Inv(m) && Fits(m, size)
    ensures var b := m.ring[BestFit(m.ring, size)];
            IsSmallestFit(m, size, b)
  {
    var k := BestFit(m.ring, size);
    assert m.ring[k] in m.ring;
    forall c | c in m.blocks && c.free && c.size >= size ensures m.ring[k].size <= c.size {
      assert c in m.ring;
      var j :| 0 <= j < |m.ring| && m.ring[j] == c;
      assert j <= k;
    }
  }

  lemma NothingFits(m: State, size: int)
    requires Inv(m) && !Fits(m, size)
    ensures forall c :: c in m.blocks && c.free ==> c.size < size
  {
    forall c | c in m.blocks && c.free ensures c.size < size {
      assert c in m.ring;
      var j :| 0 <= j < |m.ring| && m.ring[j] == c;
      assert j == 0 || m.ring[0].size >= m.ring[j].size;
    }
  }

  lemma MissGrants(m: State, request: int)
    requires Inv(m) && MAX_SMALL_SIZE <= request
    requires !Fits(m, BlockBytes(request)) && BlockBytes(request) <= PAGE_SIZE / 2
    ensures var (m', out) := Alloc(m, request, true);
            && Live(m') == Live(m) + {out.block} && out.block !in m.blocks
            && m'.nextPage == m.nextPage + 1 && m'.stats.hitCount == m.stats.hitCount
            && out.block == Blk(m.nextPage, PAGE_SIZE - BlockBytes(request), BlockBytes(request), false)
            && m'.blocks == [Blk(m.nextPage, 0, PAGE_SIZE - BlockBytes(request), true), out.block] + m.blocks
  {
    var size := BlockBytes(request);
    var b := Blk(m.nextPage, 0, PAGE_SIZE, true);
    var rest := b.(size := PAGE_SIZE - size);
    var g := Blk(b.page, rest.size, size, false);
    var p := AddPage(m);
    NewPageCarved(m, p, size, rest, g);
    assert Alloc(m, request, true) == (Carve(p, 0, 0, size).0, Granted(g));
    TwoAhead(m, Carve(p, 0, 0, size).0, rest, g);
  }

  lemma NewPageCarved(m: State, p: State, size: int, rest: Blk, g: Blk)
    requires p == AddPage(m) && 0 <= size <= PAGE_SIZE / 2
    requires rest == Blk(m.nextPage, 0, PAGE_SIZE - size, true) && g == Blk(m.nextPage, rest.size, size, false)
    ensures var (m', g') := Carve(p, 0, 0, size);
            g' == g && m'.blocks == [rest, g] + m.blocks && m'.nextPage == m.nextPage + 1
            && m'.stats.hitCount == m.stats.hitCount
  {
    assert !GrantWhole(p.blocks, 0, size);
    assert p.blocks[..0] + [rest, g] + p.blocks[1..] == [rest, g] + m.blocks;
  }

  lemma TwoAhead(m: State, m': State, rest: Blk, g: Blk)
    requires Inv(m) && m'.blocks == [rest, g] + m.blocks && rest.free && !g.free && g.page == m.nextPage
    ensures Live(m') == Live(m) + {g} && g !in m.blocks
  {
  }

  /** A refused request leaves everything as it was. */
  lemma AllocRefuses(m: State, request: int, sysOk: bool)
    requires Inv(m) && MAX_SMALL_SIZE <= request
    ensures var (m', out) := Alloc(m, request, sysOk);
            && (!out.Granted? ==> m' == m)
            && (out.ToLarge? <==> BlockBytes(request) > PAGE_SIZE / 2
                                  && forall c :: c in m.blocks && c.free ==> c.size < BlockBytes(request))
            && (out.Null? ==> !sysOk)
  {
    var size := BlockBytes(request);
    if Fits(m, size) {
      SmallestFit(m, size);
    } else {
      NothingFits(m, size);
    }
  }

  // ---------------------------------------------------------------- freeing

  lemma InsertFreeLive(m: State, b: Blk)
    requires InvBut(m, b)
    ensures Live(InsertFree(m, b)) == Live(m)
  {
    if Releases(m, b) {
      var cur := m.ring[InsertPos(m.ring, b.size)];
      assert cur in m.ring;
      LayoutOrdered(m.blocks, m.nextPage);
      RemoveMembers(m.blocks, IndexOf(m.blocks, cur));
    }
  }

  lemma CoalesceLive(m: State, i: nat)
    requires Inv(m) && i < |m.blocks| && !m.blocks[i].free && Ordered(m.blocks)
    ensures Live(Coalesce(m, i)) == Live(m) - {m.blocks[i]}
  {
    LayoutOrdered(m.blocks, m.nextPage);
    MergeMembers(m.blocks, i);
  }

  /** Freeing ends exactly one live block; a page given back to the system takes none with it. */
  lemma FreeDrops(m: State, i: nat)
    requires Inv(m) && i < |m.blocks| && !m.blocks[i].free
    ensures Ordered(m.blocks) && Live(Free(m, i)) == Live(m) - {m.blocks[i]}
  {
    LayoutOrdered(m.blocks, m.nextPage);
    CoalesceLive(m, i);
    CoalesceInv(m, i);
    InsertFreeLive(Coalesce(m, i), Merged(m.blocks, i));
  }

  /** `AllocGrants` block by block: the grant is the only block that turned live, and none stopped being live. */
  lemma AllocMembers(m: State, request: int, sysOk: bool)
    requires Inv(m) && MAX_SMALL_SIZE <= request
    ensures var (m', out) := Alloc(m, request, sysOk);
            if out.Granted?
            then out.block !in m.blocks && !out.block.free && request + BLOCK_HEADER <= out.block.size
                 && forall x :: x in m'.blocks && !x.free <==> (x in m.blocks && !x.free) || x == out.block
            else m' == m
  {
    AllocRefuses(m, request, sysOk);
    var (m', out) := Alloc(m, request, sysOk);
    if out.Granted? {
      AllocGrants(m, request, sysOk);
      assert out.block in Live(m');
      assert forall x :: x in m'.blocks && !x.free <==> x in Live(m');
      assert forall x :: x in m.blocks && !x.free <==> x in Live(m);
    }
  }

  /** A free block of the page ends, or starts, there. */
  predicate FreeEndsAt(bs: seq<Blk>, page: int, offs: int) {
    exists a :: a in bs && a.free && a.page == page && a.offs + a.size == offs
  }

  predicate FreeStartsAt(bs: seq<Blk>, page: int, offs: int) {
    exists a :: a in bs && a.free && a.page == page && a.offs == offs
  }

  lemma MergesIffTouched(bs: seq<Blk>, nextPage: int, i: nat)
    requires Layout(bs, nextPage) && i < |bs|
    ensures MergesDown(bs, i) <==> FreeEndsAt(bs, bs[i].page, bs[i].offs)
    ensures MergesUp(bs, i) <==> FreeStartsAt(bs, bs[i].page, bs[i].offs + bs[i].size)
  {
    LayoutOrdered(bs, nextPage);
    Neighbours(bs, nextPage, i);
    assert bs[i] in bs;
    if MergesDown(bs, i) {
      assert bs[i - 1] in bs;
    }
    if MergesUp(bs, i) {
      assert bs[i + 1] in bs;
    }
    if a :| a in bs && a.free && a.page == bs[i].page && a.offs + a.size == bs[i].offs {
      var j :| 0 <= j < |bs| && bs[j] == a;
      SamePageBehind(bs, j, i);
      NextIs(bs, nextPage, j, i);
    }
    if a :| a in bs && a.free && a.page == bs[i].page && a.offs == bs[i].offs + bs[i].size {
      var j :| 0 <= j < |bs| && bs[j] == a;
      SamePageBehind(bs, i, j);
      NextIs(bs, nextPage, i, j);
    }
  }

  /** The block that starts where block `i` ends is the next one. */
  lemma NextIs(bs: seq<Blk>, nextPage: int, i: nat, j: nat)
    requires Layout(bs, nextPage) && Ordered(bs) && i + 1 < |bs| && j < |bs| && bs[i + 1].page == bs[i].page
    requires bs[j].page == bs[i].page && bs[j].offs == bs[i].offs + bs[i].size
    ensures j == i + 1
  {
    Neighbours(bs, nextPage, i);
    assert bs[i + 1] in bs && bs[j] in bs;
    var a, b := bs[i + 1], bs[j];
    assert j < i + 1 ==> Before(b, a);
    assert j > i + 1 ==> Before(a, b);
  }

  /** A free joins the block with each free block that touches it, and counts the joins. */
  lemma FreeCounts(m: State, i: nat)
    requires Inv(m) && i < |m.blocks| && !m.blocks[i].free
    ensures Ordered(m.blocks)
    ensures var b := m.blocks[i];
            Free(m, i).stats.mergeCount
            == m.stats.mergeCount + (if FreeEndsAt(m.blocks, b.page, b.offs) then 1 else 0)
               + (if FreeStartsAt(m.blocks, b.page, b.offs + b.size) then 1 else 0)
  {
    LayoutOrdered(m.blocks, m.nextPage);
    MergesIffTouched(m.blocks, m.nextPage, i);
  }

  ghost function WholePages(bs: seq<Blk>): set<Blk> {
    set b | b in bs && b.free && b.size == PAGE_SIZE
  }

  /** A page goes back to the system iff the free makes a fifth wholly free one; it is one of the other four. */
  lemma FifthPageReleased(m: State, i: nat)
    requires Inv(m) && i < |m.blocks| && !m.blocks[i].free
    ensures Ordered(m.blocks)
    ensures var b, m' := Merged(m.blocks, i), Free(m, i);
            var merged := m.blocks[..MergedLow(m.blocks, i)] + [b] + m.blocks[MergedHigh(m.blocks, i)..];
            if b.size == PAGE_SIZE && |WholePages(m.blocks)| == 4
            then exists p :: p in WholePages(m.blocks) && WholePages(m'.blocks) == WholePages(m.blocks) - {p} + {b}
                             && m'.stats.allocSize == m.stats.allocSize - PAGE_SIZE
            else m'.blocks == merged && m'.stats.allocSize == m.stats.allocSize
  {
    LayoutOrdered(m.blocks, m.nextPage);
    CoalesceInv(m, i);
    if Merged(m.blocks, i).size == PAGE_SIZE {
      MergeKeepsPages(m, i);
    }
    FifthInserted(Coalesce(m, i), Merged(m.blocks, i), WholePages(m.blocks), Free(m, i));
  }

  lemma FifthInserted(c: State, b: Blk, pages: set<Blk>, m': State)
    requires InvBut(c, b) && m' == InsertFree(c, b)
    requires b.size == PAGE_SIZE ==> forall x :: x in pages <==> x in c.ring && x.size == PAGE_SIZE
    ensures if b.size == PAGE_SIZE && |pages| == 4
            then exists p :: p in pages && WholePages(m'.blocks) == pages - {p} + {b}
                             && m'.stats.allocSize == c.stats.allocSize - PAGE_SIZE
            else m'.blocks == c.blocks && m'.stats.allocSize == c.stats.allocSize
  {
    ReleasesIffFour(c, b);
    if b.size == PAGE_SIZE {
      RingWithinPages(c);
      FourIffFull(c.ring, pages, InsertPos(c.ring, PAGE_SIZE));
    }
    if Releases(c, b) {
      LayoutOrdered(c.blocks, c.nextPage);
      PageExchanged(c, b, pages);
    }
  }

  lemma RingWithinPages(c: State)
    requires Layout(c.blocks, c.nextPage) && forall x :: x in c.ring ==> x in c.blocks
    ensures forall x :: x in c.ring ==> x.size <= PAGE_SIZE
  {
    assert forall x :: x in c.blocks ==> Sound(x);
  }

  /** The free pages before the merge are the whole pages of the ring after it. */
  lemma MergeKeepsPages(m: State, i: nat)
    requires Inv(m) && i < |m.blocks| && !m.blocks[i].free && Ordered(m.blocks) && Merged(m.blocks, i).size == PAGE_SIZE
    ensures var c := Coalesce(m, i);
            forall x :: x in WholePages(m.blocks) <==> x in c.ring && x.size == PAGE_SIZE
  {
    UnringedFacts(m, i);
    assert m.blocks[i] in m.blocks;
    if MergesDown(m.blocks, i) {
      assert m.blocks[i - 1] in m.blocks;
    }
    if MergesUp(m.blocks, i) {
      assert m.blocks[i + 1] in m.blocks;
    }
  }

  /** Four whole pages head the ring iff there are four of them at all. */
  lemma FourIffFull(ring: seq<Blk>, pages: set<Blk>, pos: nat)
    requires NoDup(ring) && SortedDown(ring) && AtMostFourPages(ring) && pos == InsertPos(ring, PAGE_SIZE)
    requires forall x :: x in ring ==> x.size <= PAGE_SIZE
    requires forall x :: x in pages <==> x in ring && x.size == PAGE_SIZE
    ensures FourPagesAt(ring, pos) <==> |pages| == 4
  {
    if ring != [] {
      assert ring[0] in ring && pos == 0;
    }
    var n := PagesAhead(ring);
    assert pages == set x | x in ring[..n];
    PrefixSize(ring[..n]);
    assert n >= 4 <==> FourPagesAt(ring, pos) by {
      assert FourPagesAt(ring, pos) ==> ring[3].size == PAGE_SIZE;
    }
  }

  /** How many whole pages head the ring. */
  function PagesAhead(ring: seq<Blk>): (n: nat)
    requires SortedDown(ring) && forall x :: x in ring ==> x.size <= PAGE_SIZE
    ensures n <= |ring| && forall k :: 0 <= k < |ring| ==> (k < n <==> ring[k].size == PAGE_SIZE)
  {
    if ring == [] || ring[0].size < PAGE_SIZE then
      assert forall k :: 0 <= k < |ring| ==> ring[0].size >= ring[k].size;
      0
    else
      assert ring[0] in ring;
      assert forall k :: 0 <= k < |ring[1..]| ==> ring[1..][k] == ring[k + 1];
      1 + PagesAhead(ring[1..])
  }

  lemma {:induction false} PrefixSize(s: seq<Blk>)
    requires NoDup(s)
    ensures |set x | x in s| == |s|
  {
    if s != [] {
      var l := |s| - 1;
      PrefixSize(s[..l]);
      assert (set x | x in s) == (set x | x in s[..l]) + {s[l]};
    }
  }

  lemma PageExchanged(c: State, b: Blk, pages: set<Blk>)
    requires InvBut(c, b) && Releases(c, b) && NoDup(c.blocks)
    requires forall x :: x in pages <==> x in c.ring && x.size == PAGE_SIZE
    ensures exists p :: p in pages && WholePages(InsertFree(c, b).blocks) == pages - {p} + {b}
  {
    var p := c.ring[InsertPos(c.ring, b.size)];
    assert p in c.ring;
    RemoveMembers(c.blocks, IndexOf(c.blocks, p));
    assert WholePages(InsertFree(c, b).blocks) == pages - {p} + {b};
  }

  /** `FreeDrops` block by block. */
  lemma FreeMembers(m: State, i: nat)
    requires Inv(m) && i < |m.blocks| && !m.blocks[i].free
    ensures Ordered(m.blocks)
    ensures forall x :: x in Free(m, i).blocks && !x.free <==> x in m.blocks && !x.free && x != m.blocks[i]
  {
    FreeDrops(m, i);
    var m' := Free(m, i);
    assert forall x :: x in m'.blocks && !x.free <==> x in Live(m');
    assert forall x :: x in m.blocks && !x.free <==> x in Live(m);
  }

  // ---------------------------------------------------------------- allocate, then free

  lemma {:induction false} IndexUnique(bs: seq<Blk>, i: nat)
    requires NoDup(bs) && i < |bs|
    ensures IndexOf(bs, bs[i]) == i
  {
    var k := IndexOf(bs, bs[i]);
    assert bs[k] == bs[i];
  }

  /** Taking a shrunk entry out of the ring leaves the other entries in their order. */
  lemma ShrunkThenOut(ring: seq<Blk>, k: nat, rest: Blk)
    requires NoDup(ring) && k < |ring| && rest !in ring
    ensures rest in ShrunkRing(ring, k, rest)
    ensures Without(ShrunkRing(ring, k, rest), rest) == RemoveAt(ring, k)
  {
    var others := RemoveAt(ring, k);
    var r := ShrunkRing(ring, k, rest);
    ShrunkRingMembers(ring, k, rest);
    var p := if k < |others| && rest.size < others[k].size then InsertPos(others, rest.size) else k;
    assert r[p] == rest;
    IndexUnique(r, p);
    assert RemoveAt(r, p) == others;
  }

  /** Putting a removed entry back never finds four other whole pages. */
  lemma NoReleaseOnReturn(ring: seq<Blk>, k: nat)
    requires SortedDown(ring) && AtMostFourPages(ring) && k < |ring|
    ensures !(ring[k].size == PAGE_SIZE && FourPagesAt(RemoveAt(ring, k), InsertPos(RemoveAt(ring, k), PAGE_SIZE)))
  {
    var others := RemoveAt(ring, k);
    RemoveSorted(ring, k);
    assert |others| > 3 ==> others[3] == ring[if 3 < k then 3 else 4];
  }

  lemma ReturnMultiset(ring: seq<Blk>, k: nat, p: nat)
    requires k < |ring| && p < |ring|
    ensures multiset(InsertAt(RemoveAt(ring, k), p, ring[k])) == multiset(ring)
  {
    var others := RemoveAt(ring, k);
    assert ring == ring[..k] + [ring[k]] + ring[k + 1..];
    assert multiset(ring) == multiset(others) + multiset{ring[k]};
    assert others == others[..p] + others[p..];
  }

  /** Linking `b = ring[k]` back into a ring that lost only it restores the ring as a multiset. */
  lemma ReturnToRing(m: State, c: State, k: nat)
    requires Inv(m) && k < |m.ring| && c.blocks == m.blocks && c.ring == RemoveAt(m.ring, k)
    ensures var r := InsertFree(c, m.ring[k]);
            r.blocks == m.blocks && multiset(r.ring) == multiset(m.ring) && r.nextPage == c.nextPage
                && r.stats == c.stats
  {
    NoReleaseOnReturn(m.ring, k);
    ReturnMultiset(m.ring, k, InsertPos(c.ring, m.ring[k].size));
  }

  lemma WholeMergesBack(m: State, i: nat, k: nat, size: int)
    requires Inv(m) && i < |m.blocks| && k < |m.ring| && m.blocks[i] == m.ring[k] && GrantWhole(m.blocks, i, size)
    ensures var bs := Carve(m, i, k, size).0.blocks;
            && bs[i] == Carve(m, i, k, size).1 && !MergesDown(bs, i) && !MergesUp(bs, i)
            && Merged(bs, i) == m.blocks[i] && bs[..i] + [m.blocks[i]] + bs[i + 1..] == m.blocks
  {
    Neighbours(m.blocks, m.nextPage, i);
    assert m.ring[k] in m.ring;
  }

  lemma SplitMergesBack(m: State, i: nat, k: nat, size: int)
    requires Inv(m) && i < |m.blocks| && k < |m.ring| && m.blocks[i] == m.ring[k] && !GrantWhole(m.blocks, i, size)
    ensures var bs := Carve(m, i, k, size).0.blocks;
            && |bs| == |m.blocks| + 1 && bs[i] == m.blocks[i].(size := m.blocks[i].size - size)
            && bs[i + 1] == Carve(m, i, k, size).1 && MergesDown(bs, i + 1) && !MergesUp(bs, i + 1)
            && Merged(bs, i + 1) == m.blocks[i] && bs[..i] + [m.blocks[i]] + bs[i + 2..] == m.blocks
  {
    Neighbours(m.blocks, m.nextPage, i);
    assert m.ring[k] in m.ring;
  }

  lemma SplitRingBack(m: State, i: nat, k: nat, size: int)
    requires Inv(m) && i < |m.blocks| && k < |m.ring| && m.blocks[i] == m.ring[k] && 0 < size < m.blocks[i].size
    ensures var rest := m.blocks[i].(size := m.blocks[i].size - size);
            rest in ShrunkRing(m.ring, k, rest) && Without(ShrunkRing(m.ring, k, rest), rest) == RemoveAt(m.ring, k)
  {
    var rest := m.blocks[i].(size := m.blocks[i].size - size);
    LayoutOrdered(m.blocks, m.nextPage);
    assert rest !in m.ring by {
      if rest in m.ring {
        OnlyOneStarts(m.blocks, i, rest);
      }
    }
    ShrunkThenOut(m.ring, k, rest);
  }

  /** Position of the grant in the block list. */
  function GrantIndex(m: State, i: nat, size: int): nat
    requires i < |m.blocks|
  {
    if GrantWhole(m.blocks, i, size) then i else i + 1
  }

  lemma GrantCoalesces(m: State, i: nat, k: nat, size: int)
    requires Inv(m) && i < |m.blocks| && k < |m.ring| && m.blocks[i] == m.ring[k]
    requires MAX_SMALL_SIZE / 2 <= size <= m.blocks[i].size
    requires var m' := Carve(m, i, k, size).0; Ordered(m'.blocks) && RingHoldsFree(m'.blocks, m'.ring)
    ensures var (m', g) := Carve(m, i, k, size);
            var j := GrantIndex(m, i, size);
            && j < |m'.blocks| && m'.blocks[j] == g && Merged(m'.blocks, j) == m.ring[k]
            && Coalesce(m', j).blocks == m.blocks && Coalesce(m', j).ring == RemoveAt(m.ring, k)
  {
    if GrantWhole(m.blocks, i, size) {
      WholeMergesBack(m, i, k, size);
    } else {
      SplitMergesBack(m, i, k, size);
      SplitRingBack(m, i, k, size);
    }
  }

  /** Serving from block `i` and freeing the grant gives the block list and the free entries back. */
  lemma CarveThenFree(m: State, i: nat, k: nat, size: int)
    requires Inv(m) && i < |m.blocks| && k < |m.ring| && m.blocks[i] == m.ring[k]
    requires MAX_SMALL_SIZE / 2 <= size <= m.blocks[i].size && size % ALIGN == 0
    ensures var (m', g) := Carve(m, i, k, size);
            && g in m'.blocks && Ordered(m'.blocks) && RingHoldsFree(m'.blocks, m'.ring)
            && Undone(m, Free(m', IndexOf(m'.blocks, g)))
  {
    var (m', g) := Carve(m, i, k, size);
    var j := GrantIndex(m, i, size);
    CarveKeeps(m, i, k, size);
    LayoutOrdered(m'.blocks, m'.nextPage);
    GrantCoalesces(m, i, k, size);
    IndexUnique(m'.blocks, j);
    ReturnToRing(m, Coalesce(m', j), k);
  }

  /** Same blocks, same free entries, same bytes accounted for, no page added or released. */
  ghost predicate Undone(m: State, m'': State) {
    && m''.blocks == m.blocks && multiset(m''.ring) == multiset(m.ring) && m''.nextPage == m.nextPage
    && m''.stats.allocSize == m.stats.allocSize && m''.stats.usedSize == m.stats.usedSize
    && m''.stats.dataSize == m.stats.dataSize && m''.stats.freePageCount == m.stats.freePageCount
  }

  /** Allocate-then-free is an identity whenever the allocation needed no new page. */
  lemma AllocThenFree(m: State, request: int, sysOk: bool)
    requires Inv(m) && MAX_SMALL_SIZE <= request && SomeFits(m, BlockBytes(request))
    ensures var (m', out) := Alloc(m, request, sysOk);
            && out.Granted? && out.block in m'.blocks && Ordered(m'.blocks) && RingHoldsFree(m'.blocks, m'.ring)
            && Undone(m, Free(m', IndexOf(m'.blocks, out.block)))
  {
    var size := BlockBytes(request);
    if !Fits(m, size) {
      NothingFits(m, size);
    }
    var k := BestFit(m.ring, size);
    assert m.ring[k] in m.ring;
    var hit := m.(stats := m.stats.(hitCount := m.stats.hitCount + 1));
    var i := IndexOf(m.blocks, m.ring[k]);
    assert Alloc(m, request, sysOk) == (Carve(hit, i, k, size).0, Granted(Carve(hit, i, k, size).1));
    CarveThenFree(hit, i, k, size);
  }

  // ---------------------------------------------------------------- runs

  /** The caller's moves: a request with the system's answer, or a pointer given back. */
  datatype Op = Request(size: int, sysOk: bool) | Return(block: Blk)

  /** A returned pointer must be live; a request comes from the dispatcher's medium range with a page id left. */
  predicate Allowed(m: State, op: Op) {
    match op
    case Request(size, _) => MAX_SMALL_SIZE <= size && PageIdLeft(m, size)
    case Return(b) => b in m.blocks && !b.free
  }

  function Step(m: State, op: Op): (m': State)
    requires Inv(m) && Allowed(m, op)
    ensures Inv(m')
  {
    match op
    case Request(size, sysOk) =>
      AllocKeeps(m, size, sysOk);
      Alloc(m, size, sysOk).0
    case Return(b) =>
      FreeKeeps(m, IndexOf(m.blocks, b));
      Free(m, IndexOf(m.blocks, b))
  }

  ghost predicate ValidRun(m: State, ops: seq<Op>)
    requires Inv(m)
    decreases |ops|
  {
    ops == [] || (Allowed(m, ops[0]) && ValidRun(Step(m, ops[0]), ops[1..]))
  }

  ghost function Run(m: State, ops: seq<Op>): (m': State)
    requires Inv(m) && ValidRun(m, ops)
    ensures Inv(m')
    decreases |ops|
  {
    if ops == [] then m else Run(Step(m, ops[0]), ops[1..])
  }

  /** Sum over a set of blocks held by callers, by peeling the block list. */
  lemma {:induction false} LiveTotalBounds(bs: seq<Blk>)
    requires forall b :: b in bs ==> b.size >= BLOCK_HEADER
    ensures BLOCK_HEADER * LiveCount(bs) <= LiveTotal(bs) <= Total(bs) && LiveCount(bs) >= 0
  {
    if bs != [] {
      assert bs[0] in bs;
      LiveTotalBounds(bs[1..]);
    }
  }

  lemma EmptyInv(m: State)
    requires m == EMPTY
    ensures Inv(m)
  {
    assert Pad(m.blocks) == [HEAD, TAIL];
    assert m.blocks == [] && m.ring == [];
    assert Layout(m.blocks, 1);
    assert RingHoldsFree(m.blocks, m.ring);
    assert SortedDown(m.ring);
    assert Accounted(m.blocks, m.stats);
  }

  /** What `checkMemory` asserts, after every run from the empty heap or from any state another run left. */
  lemma EveryRunChecks(m0: State, ops: seq<Op>)
    requires Inv(m0) && ValidRun(m0, ops)
    ensures var m := Run(m0, ops);
            && 0 <= m.stats.dataSize <= m.stats.usedSize <= m.stats.allocSize
            && m.stats.allocSize == Total(m.blocks) && m.stats.usedSize == LiveTotal(m.blocks)
            && m.stats.freeCount <= m.stats.allocCount
            && (forall b :: b in m.blocks ==> PageTotal(m.blocks, b.page) == PAGE_SIZE)
            && (forall b :: b in m.ring <==> b in m.blocks && b.free)
            && |set b | b in m.blocks && b.free && b.size == PAGE_SIZE| <= 4
  {
    var m := Run(m0, ops);
    assert forall b :: b in m.blocks ==> Sound(b);
    LiveTotalBounds(m.blocks);
    forall b | b in m.blocks ensures PageTotal(m.blocks, b.page) == PAGE_SIZE {
      PageTiled(m, b);
    }
    FourFreePages(m);
  }
}
