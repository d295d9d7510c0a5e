/** What every step and every run of the medium tier keeps. */
module MediumProofs {
  import opened HeapLayout
  import opened MediumSpec

  // ---------------------------------------------------------------- chains

  lemma ChainParts(a: seq<Blk>, b: seq<Blk>)
    requires Chain(a + b)
    ensures Chain(a) && Chain(b)
    ensures a != [] && b != [] ==> Adjacent(a[|a| - 1], b[0])
  {
    var s := a + b;
    forall i, j | 0 <= i && j == i + 1 && j < |a| ensures Adjacent(a[i], a[j]) {
      assert s[i] == a[i] && s[j] == a[j];
    }
    forall i, j | 0 <= i && j == i + 1 && j < |b| ensures Adjacent(b[i], b[j]) {
      assert s[|a| + i] == b[i] && s[|a| + j] == b[j];
    }
    if a != [] && b != [] {
      assert s[|a| - 1] == a[|a| - 1] && s[|a|] == b[0];
    }
  }

  lemma ChainJoin(a: seq<Blk>, b: seq<Blk>)
    requires Chain(a) && Chain(b)
    requires a != [] && b != [] ==> Adjacent(a[|a| - 1], b[0])
    ensures Chain(a + b)
  {
  }

  /** Replace a run of the chain by another run that presents the same faces to its neighbours. */
  lemma ChainReplace(pre: seq<Blk>, was: seq<Blk>, now: seq<Blk>, post: seq<Blk>)
    requires Chain(pre + was + post) && pre != [] && post != [] && was != [] && now != []
    requires Chain(now)
    requires Adjacent(pre[|pre| - 1], was[0]) ==> Adjacent(pre[|pre| - 1], now[0])
    requires Adjacent(was[|was| - 1], post[0]) ==> Adjacent(now[|now| - 1], post[0])
    ensures Chain(pre + now + post)
  {
    ChainParts(pre + was, post);
    ChainParts(pre, was);
    ChainJoin(pre, now);
    ChainJoin(pre + now, post);
  }

  lemma ChainAt(s: seq<Blk>, i: nat)
    requires Chain(s) && i + 1 < |s|
    ensures Adjacent(s[i], s[i + 1])
  {
  }

  lemma PadAround(bs: seq<Blk>, lo: nat, hi: nat)
    requires lo <= hi <= |bs|
    ensures Pad(bs) == ([HEAD] + bs[..lo]) + bs[lo..hi] + (bs[hi..] + [TAIL])
  {
    assert bs == bs[..lo] + bs[lo..hi] + bs[hi..];
  }

  lemma {:induction false} ChainBefore(s: seq<Blk>, i: nat, j: nat)
    requires Chain(s) && i < j < |s|
    requires forall b :: b in s ==> b.size > 0
    ensures Before(s[i], s[j])
    decreases j - i
  {
    ChainAt(s, j - 1);
    assert s[j - 1].size > 0;
    if i < j - 1 {
      ChainBefore(s, i, j - 1);
    }
  }

  /** Address order of the whole block list, from the neighbour relation alone. */
  lemma LayoutOrdered(bs: seq<Blk>, nextPage: int)
    requires Layout(bs, nextPage)
    ensures Ordered(bs) && NoDup(bs)
  {
    ChainParts([HEAD] + bs, [TAIL]);
    ChainParts([HEAD], bs);
    forall i, j | 0 <= i < j < |bs| ensures Before(bs[i], bs[j]) {
      ChainBefore(bs, i, j);
    }
  }

  lemma Neighbours(bs: seq<Blk>, nextPage: int, i: nat)
    requires Layout(bs, nextPage) && i < |bs|
    ensures Adjacent(if i == 0 then HEAD else bs[i - 1], bs[i])
    ensures Adjacent(bs[i], if i + 1 == |bs| then TAIL else bs[i + 1])
  {
    var s := Pad(bs);
    ChainAt(s, i);
    ChainAt(s, i + 1);
    assert s[i + 1] == bs[i];
  }

  // ---------------------------------------------------------------- sums

  lemma {:induction false} SumsJoin(a: seq<Blk>, b: seq<Blk>)
    ensures Total(a + b) == Total(a) + Total(b)
    ensures LiveTotal(a + b) == LiveTotal(a) + LiveTotal(b)
    ensures LiveCount(a + b) == LiveCount(a) + LiveCount(b)
  {
    if a == [] {
      assert a + b == b;
    } else {
      assert (a + b)[1..] == a[1..] + b;
      SumsJoin(a[1..], b);
    }
  }

  lemma SumsSplit(bs: seq<Blk>, lo: nat, hi: nat, mid: seq<Blk>)
    requires lo <= hi <= |bs|
    ensures var now := bs[..lo] + mid + bs[hi..];
            && Total(now) - Total(bs) == Total(mid) - Total(bs[lo..hi])
            && LiveTotal(now) - LiveTotal(bs) == LiveTotal(mid) - LiveTotal(bs[lo..hi])
            && LiveCount(now) - LiveCount(bs) == LiveCount(mid) - LiveCount(bs[lo..hi])
  {
    assert bs == bs[..lo] + bs[lo..hi] + bs[hi..];
    SumsJoin(bs[..lo] + bs[lo..hi], bs[hi..]);
    SumsJoin(bs[..lo], bs[lo..hi]);
    SumsJoin(bs[..lo] + mid, bs[hi..]);
    SumsJoin(bs[..lo], mid);
  }

  // ---------------------------------------------------------------- ring

  lemma InsertSorted(ring: seq<Blk>, b: Blk)
    requires SortedDown(ring)
    ensures SortedDown(InsertAt(ring, InsertPos(ring, b.size), b))
  {
  }

  lemma RemoveSorted(ring: seq<Blk>, k: nat)
    requires SortedDown(ring) && k < |ring|
    ensures SortedDown(RemoveAt(ring, k))
  {
  }

  lemma RemoveMembers(ring: seq<Blk>, k: nat)
    requires NoDup(ring) && k < |ring|
    ensures NoDup(RemoveAt(ring, k))
    ensures forall b :: b in RemoveAt(ring, k) <==> b in ring && b != ring[k]
  {
    var r := RemoveAt(ring, k);
    forall b | b in ring && b != ring[k] ensures b in r {
      var i :| 0 <= i < |ring| && ring[i] == b;
      assert r[if i < k then i else i - 1] == b;
    }
  }

  lemma InsertMembers(ring: seq<Blk>, k: nat, x: Blk)
    requires NoDup(ring) && k <= |ring| && x !in ring
    ensures NoDup(InsertAt(ring, k, x))
    ensures forall b :: b in InsertAt(ring, k, x) <==> b in ring || b == x
  {
    assert ring == ring[..k] + ring[k..];
  }

  lemma UpdateMembers(ring: seq<Blk>, k: nat, x: Blk)
    requires NoDup(ring) && k < |ring| && x !in ring
    ensures NoDup(ring[k := x])
    ensures forall b :: b in ring[k := x] <==> b == x || (b in ring && b != ring[k])
  {
    var r := ring[k := x];
    assert r[k] == x;
    forall b | b in ring && b != ring[k] ensures b in r {
      var i :| 0 <= i < |ring| && ring[i] == b;
      assert r[i] == b;
    }
  }

  /** A shorter ring prefix can only hold fewer pages. */
  lemma RemoveKeepsFour(ring: seq<Blk>, k: nat)
    requires SortedDown(ring) && AtMostFourPages(ring) && k < |ring|
    requires forall b :: b in ring ==> b.size <= PAGE_SIZE
    ensures AtMostFourPages(RemoveAt(ring, k))
  {
    var r := RemoveAt(ring, k);
    if |r| > 4 {
      assert r[4] == ring[if 4 < k then 4 else 5];
      assert ring[4].size >= ring[5].size;
    }
  }

  lemma InsertKeepsFour(ring: seq<Blk>, b: Blk)
    requires SortedDown(ring) && AtMostFourPages(ring)
    requires forall x :: x in ring ==> x.size <= PAGE_SIZE
    requires b.size < PAGE_SIZE || !FourPagesAt(ring, InsertPos(ring, b.size))
    requires b.size <= PAGE_SIZE
    ensures AtMostFourPages(InsertAt(ring, InsertPos(ring, b.size), b))
  {
    var k := InsertPos(ring, b.size);
    if |ring| >= 4 {
      InsertedAt(ring, k, b, 4);
      if b.size == PAGE_SIZE {
        assert ring[0] in ring && k == 0;
        NotFourPages(ring);
      } else if k < 4 {
        assert ring[k].size >= ring[3].size;
      }
    }
  }

  lemma InsertedAt(ring: seq<Blk>, k: nat, b: Blk, i: nat)
    requires k <= |ring| && i <= |ring|
    ensures InsertAt(ring, k, b)[i] == if i < k then ring[i] else if i == k then b else ring[i - 1]
  {
  }

  lemma NotFourPages(ring: seq<Blk>)
    requires SortedDown(ring) && !FourPagesAt(ring, 0) && |ring| >= 4 && forall x :: x in ring ==> x.size <= PAGE_SIZE
    ensures ring[3].size < PAGE_SIZE
  {
    assert forall i :: 0 <= i < 4 ==> ring[i] in ring && ring[i].size >= ring[3].size;
  }

  // ---------------------------------------------------------------- pages

  /** Every block lies inside its page. */
  lemma {:induction false} InsidePage(bs: seq<Blk>, nextPage: int, i: nat)
    requires Layout(bs, nextPage) && i < |bs|
    ensures bs[i].offs + bs[i].size <= PAGE_SIZE
    decreases |bs| - i
  {
    Neighbours(bs, nextPage, i);
    if i + 1 < |bs| && bs[i + 1].page == bs[i].page {
      assert bs[i + 1] in bs;
      InsidePage(bs, nextPage, i + 1);
    }
  }

  /** A block as large as a page is the only block of its page. */
  lemma WholePageAlone(bs: seq<Blk>, nextPage: int, i: nat)
    requires Layout(bs, nextPage) && i < |bs| && bs[i].size == PAGE_SIZE
    ensures bs[i].offs == 0 && AloneOnPage(bs, i)
    ensures forall j :: 0 <= j < |bs| && j != i ==> bs[j].page != bs[i].page
  {
    LayoutOrdered(bs, nextPage);
    assert bs[i] in bs;
    InsidePage(bs, nextPage, i);
    forall j | 0 <= j < |bs| && j != i ensures bs[j].page != bs[i].page {
      assert bs[j] in bs;
      InsidePage(bs, nextPage, j);
      assert Before(bs[i], bs[j]) || Before(bs[j], bs[i]);
    }
  }

  lemma RemovePageLayout(bs: seq<Blk>, nextPage: int, i: nat)
    requires Layout(bs, nextPage) && i < |bs| && bs[i].size == PAGE_SIZE
    ensures Layout(RemoveAt(bs, i), nextPage)
  {
    WholePageAlone(bs, nextPage, i);
    Neighbours(bs, nextPage, i);
    var pre, post := [HEAD] + bs[..i], bs[i + 1..] + [TAIL];
    PadAround(bs, i, i + 1);
    ChainParts(pre + bs[i..i + 1], post);
    ChainParts(pre, bs[i..i + 1]);
    ChainJoin(pre, post);
    assert Pad(RemoveAt(bs, i)) == pre + post;
  }

  // ---------------------------------------------------------------- linking a free block into the ring

  /** The invariant with the free block `b` still missing from the ring. */
  ghost predicate InvBut(m: State, b: Blk) {
    && Layout(m.blocks, m.nextPage)
    && b in m.blocks && b.free && b !in m.ring
    && NoDup(m.ring) && (forall x :: x in m.ring <==> x in m.blocks && x.free && x != b)
    && SortedDown(m.ring)
    && AtMostFourPages(m.ring)
    && Accounted(m.blocks, m.stats)
  }

  lemma ReleasesIffFour(m: State, b: Blk)
    requires InvBut(m, b)
    ensures Releases(m, b) <==> b.size == PAGE_SIZE && FourPagesAt(m.ring, InsertPos(m.ring, b.size))
  {
    var pos := InsertPos(m.ring, b.size);
    if b.size == PAGE_SIZE && FourPagesAt(m.ring, pos) {
      assert m.ring[pos] in m.ring;
      WholePageAlone(m.blocks, m.nextPage, IndexOf(m.blocks, m.ring[pos]));
    }
  }

  lemma ReleaseKeeps(m: State, b: Blk)
    requires InvBut(m, b) && Releases(m, b)
    ensures Inv(InsertFree(m, b))
  {
    var pos := InsertPos(m.ring, b.size);
    var cur := m.ring[pos];
    assert cur in m.ring;
    var i := IndexOf(m.blocks, cur);
    var bs := RemoveAt(m.blocks, i);
    RemovePageLayout(m.blocks, m.nextPage, i);
    ReleasedRing(m, b, pos, i);
    assert Accounted(bs, InsertFree(m, b).stats) by {
      SumsSplit(m.blocks, i, i + 1, []);
      assert m.blocks[i..i + 1] == [cur];
      assert bs == m.blocks[..i] + [] + m.blocks[i + 1..];
    }
  }

  /** The new free page takes the place of the released one. */
  lemma ReleasedRing(m: State, b: Blk, pos: nat, i: nat)
    requires InvBut(m, b) && pos < |m.ring| && i < |m.blocks| && m.blocks[i] == m.ring[pos]
    ensures RingHoldsFree(RemoveAt(m.blocks, i), m.ring[pos := b])
  {
    LayoutOrdered(m.blocks, m.nextPage);
    RemoveMembers(m.blocks, i);
    UpdateMembers(m.ring, pos, b);
  }

  lemma InsertFreeKeeps(m: State, b: Blk)
    requires InvBut(m, b)
    ensures Inv(InsertFree(m, b))
  {
    if Releases(m, b) {
      ReleaseKeeps(m, b);
    } else {
      var pos := InsertPos(m.ring, b.size);
      ReleasesIffFour(m, b);
      InsertSorted(m.ring, b);
      InsertMembers(m.ring, pos, b);
      InsertKeepsFour(m.ring, b);
    }
  }

  // ---------------------------------------------------------------- allocation

  /** A whole page with a new id goes in front. */
  lemma NewPageLayout(bs: seq<Blk>, nextPage: int, b: Blk)
    requires Layout(bs, nextPage) && nextPage < DUMMY_PAGE && b == Blk(nextPage, 0, PAGE_SIZE, true)
    ensures Layout([b] + bs, nextPage + 1)
  {
    var old' := bs + [TAIL];
    assert Pad(bs) == [HEAD] + old';
    ChainParts([HEAD], old');
    assert bs != [] ==> bs[0] in bs;
    ChainJoin([b], old');
    ChainJoin([HEAD], [b] + old');
    assert Pad([b] + bs) == [HEAD] + ([b] + old');
  }

  lemma AddPageKeeps(m: State)
    requires Inv(m) && m.nextPage < DUMMY_PAGE
    requires m.ring == [] || m.ring[0].size < PAGE_SIZE
    ensures Inv(AddPage(m))
  {
    var b := Blk(m.nextPage, 0, PAGE_SIZE, true);
    var bs, ring := [b] + m.blocks, [b] + m.ring;
    NewPageLayout(m.blocks, m.nextPage, b);
    assert bs[1..] == m.blocks;
    if |ring| > 4 {
      assert ring[4] == m.ring[3];
    }
  }

  /** Exchange a run of blocks for another one that covers the same bytes. */
  lemma ReplaceLayout(bs: seq<Blk>, nextPage: int, lo: nat, hi: nat, mid: seq<Blk>)
    requires Layout(bs, nextPage) && lo < hi <= |bs| && mid != [] && Chain(mid)
    requires forall b :: b in mid ==> Sound(b) && b.page < nextPage
    requires var p := if lo == 0 then HEAD else bs[lo - 1]; Adjacent(p, bs[lo]) ==> Adjacent(p, mid[0])
    requires var n := if hi == |bs| then TAIL else bs[hi]; Adjacent(bs[hi - 1], n) ==> Adjacent(mid[|mid| - 1], n)
    ensures Layout(bs[..lo] + mid + bs[hi..], nextPage)
  {
    var pre, post := [HEAD] + bs[..lo], bs[hi..] + [TAIL];
    PadAround(bs, lo, hi);
    assert pre[|pre| - 1] == if lo == 0 then HEAD else bs[lo - 1];
    assert post[0] == if hi == |bs| then TAIL else bs[hi];
    ChainReplace(pre, bs[lo..hi], mid, post);
    assert Pad(bs[..lo] + mid + bs[hi..]) == pre + mid + post;
  }

  lemma ReplaceMembers(bs: seq<Blk>, lo: nat, hi: nat, mid: seq<Blk>)
    requires NoDup(bs) && lo <= hi <= |bs|
    ensures forall b :: b in bs[..lo] + mid + bs[hi..] <==> b in mid || (b in bs && b !in bs[lo..hi])
  {
    var now := bs[..lo] + mid + bs[hi..];
    forall b | b in bs && b !in bs[lo..hi] ensures b in now {
      var i :| 0 <= i < |bs| && bs[i] == b;
      if i < lo {
        assert now[i] == b;
      } else {
        assert now[lo + |mid| + i - hi] == b;
      }
    }
  }

  /** Only block `i` itself starts inside block `i`. */
  lemma OnlyOneStarts(bs: seq<Blk>, i: nat, x: Blk)
    requires Ordered(bs) && i < |bs| && x in bs
    requires x.page == bs[i].page && bs[i].offs <= x.offs < bs[i].offs + bs[i].size
    ensures x == bs[i]
  {
    var j :| 0 <= j < |bs| && bs[j] == x;
  }

  lemma CarveWholeKeeps(m: State, i: nat, k: nat, size: int)
    requires Inv(m) && i < |m.blocks| && k < |m.ring| && m.blocks[i] == m.ring[k]
    requires GrantWhole(m.blocks, i, size)
    ensures Inv(Carve(m, i, k, size).0)
  {
    var b := m.blocks[i];
    var g := b.(free := false);
    assert m.ring[k] in m.ring;
    var bs := m.blocks[i := g];
    assert bs == m.blocks[..i] + [g] + m.blocks[i + 1..];
    assert m.blocks[i..i + 1] == [b];
    assert Layout(bs, m.nextPage) by { ReplaceLayout(m.blocks, m.nextPage, i, i + 1, [g]); }
    WholeAccounts(m.blocks, m.stats, i, g);
    WholeRing(m, i, k, g);
    RemoveSorted(m.ring, k);
    RemoveKeepsFour(m.ring, k);
  }

  lemma WholeAccounts(bs: seq<Blk>, st: Stats, i: nat, g: Blk)
    requires Accounted(bs, st) && i < |bs| && bs[i].free && g == bs[i].(free := false)
    ensures Accounted(bs[i := g], st.RegisterAlloc(g.size))
  {
    assert bs[i..i + 1] == [bs[i]];
    assert bs[i := g] == bs[..i] + [g] + bs[i + 1..];
    SumsSplit(bs, i, i + 1, [g]);
  }

  lemma WholeRing(m: State, i: nat, k: nat, g: Blk)
    requires Inv(m) && i < |m.blocks| && k < |m.ring| && m.blocks[i] == m.ring[k] && g == m.blocks[i].(free := false)
    ensures RingHoldsFree(m.blocks[i := g], RemoveAt(m.ring, k))
  {
    assert m.blocks[i := g] == m.blocks[..i] + [g] + m.blocks[i + 1..];
    assert m.blocks[i..i + 1] == [m.blocks[i]];
    LayoutOrdered(m.blocks, m.nextPage);
    ReplaceMembers(m.blocks, i, i + 1, [g]);
    RemoveMembers(m.ring, k);
  }

  lemma ShrunkRingSorted(ring: seq<Blk>, k: nat, rest: Blk)
    requires SortedDown(ring) && AtMostFourPages(ring) && k < |ring| && rest.size < ring[k].size
    requires forall b :: b in ring ==> b.size <= PAGE_SIZE
    ensures SortedDown(ShrunkRing(ring, k, rest)) && AtMostFourPages(ShrunkRing(ring, k, rest))
  {
    var others := RemoveAt(ring, k);
    assert ring[k] in ring;
    RemoveSorted(ring, k);
    RemoveKeepsFour(ring, k);
    if k < |others| && rest.size < others[k].size {
      InsertSorted(others, rest);
      InsertKeepsFour(others, rest);
    } else {
      ShrunkInPlace(ring, k, rest);
    }
  }

  /** The entry stays where it is. */
  lemma ShrunkInPlace(ring: seq<Blk>, k: nat, rest: Blk)
    requires SortedDown(ring) && AtMostFourPages(ring) && k < |ring| && rest.size < ring[k].size <= PAGE_SIZE
    requires k + 1 < |ring| ==> rest.size >= ring[k + 1].size
    ensures SortedDown(ring[k := rest]) && AtMostFourPages(ring[k := rest])
  {
  }

  lemma ShrunkRingMembers(ring: seq<Blk>, k: nat, rest: Blk)
    requires NoDup(ring) && k < |ring| && rest !in ring
    ensures NoDup(ShrunkRing(ring, k, rest))
    ensures forall b :: b in ShrunkRing(ring, k, rest) <==> b == rest || (b in ring && b != ring[k])
  {
    var others := RemoveAt(ring, k);
    RemoveMembers(ring, k);
    if k < |others| && rest.size < others[k].size {
      InsertMembers(others, InsertPos(others, rest.size), rest);
    } else {
      UpdateMembers(ring, k, rest);
    }
  }

  lemma SplitRing(m: State, i: nat, k: nat, rest: Blk, g: Blk)
    requires Inv(m) && i < |m.blocks| && k < |m.ring| && m.blocks[i] == m.ring[k]
    requires rest.page == m.blocks[i].page && rest.offs == m.blocks[i].offs && rest.free && !g.free
    requires rest.size < m.blocks[i].size
    ensures RingHoldsFree(m.blocks[..i] + [rest, g] + m.blocks[i + 1..], ShrunkRing(m.ring, k, rest))
  {
    LayoutOrdered(m.blocks, m.nextPage);
    assert m.ring[k] in m.ring;
    assert rest !in m.blocks by {
      if rest in m.blocks {
        OnlyOneStarts(m.blocks, i, rest);
      }
    }
    assert m.blocks[i..i + 1] == [m.blocks[i]];
    ReplaceMembers(m.blocks, i, i + 1, [rest, g]);
    ShrunkRingMembers(m.ring, k, rest);
  }

  lemma SplitLayout(bs: seq<Blk>, nextPage: int, i: nat, rest: Blk, g: Blk)
    requires Layout(bs, nextPage) && i < |bs| && bs[i].free
    requires rest == bs[i].(size := bs[i].size - g.size)
    requires g == Blk(rest.page, rest.offs + rest.size, g.size, false)
    requires Sound(rest) && Sound(g)
    ensures Layout(bs[..i] + [rest, g] + bs[i + 1..], nextPage)
  {
    assert bs[i] in bs;
    ReplaceLayout(bs, nextPage, i, i + 1, [rest, g]);
  }

  lemma SplitAccounts(bs: seq<Blk>, st: Stats, i: nat, rest: Blk, g: Blk)
    requires Accounted(bs, st) && i < |bs| && bs[i].free && rest.free && !g.free && rest.size + g.size == bs[i].size
    ensures Accounted(bs[..i] + [rest, g] + bs[i + 1..], st.RegisterAlloc(g.size))
  {
    assert bs[i..i + 1] == [bs[i]];
    SumsSplit(bs, i, i + 1, [rest, g]);
    SumsJoin([rest], [g]);
    assert [rest, g] == [rest] + [g];
  }

  lemma CarveSplitKeeps(m: State, i: nat, k: nat, size: int)
    requires Inv(m) && i < |m.blocks| && k < |m.ring| && m.blocks[i] == m.ring[k]
    requires MAX_SMALL_SIZE / 2 <= size <= m.blocks[i].size && size % ALIGN == 0
    requires !GrantWhole(m.blocks, i, size)
    ensures Inv(Carve(m, i, k, size).0)
  {
    var b := m.blocks[i];
    assert m.ring[k] in m.ring;
    var rest := b.(size := b.size - size);
    var g := Blk(b.page, b.offs + rest.size, size, false);
    var m' := m.(blocks := m.blocks[..i] + [rest, g] + m.blocks[i + 1..], ring := ShrunkRing(m.ring, k, rest),
                 stats := m.stats.RegisterAlloc(size));
    SplitKeeps(m, i, k, rest, g, m');
    CarveIsSplit(m, i, k, size, m', g);
  }

  lemma CarveIsSplit(m: State, i: nat, k: nat, size: int, m': State, g: Blk)
    requires i < |m.blocks| && k < |m.ring| && m.blocks[i] == m.ring[k] && !GrantWhole(m.blocks, i, size)
    requires var rest := m.blocks[i].(size := m.blocks[i].size - size);
             && g == Blk(rest.page, rest.offs + rest.size, size, false)
             && m' == m.(blocks := m.blocks[..i] + [rest, g] + m.blocks[i + 1..], ring := ShrunkRing(m.ring, k, rest),
                         stats := m.stats.RegisterAlloc(size))
    ensures (m', g) == Carve(m, i, k, size)
  {
  }

  lemma SplitKeeps(m: State, i: nat, k: nat, rest: Blk, g: Blk, m': State)
    requires Inv(m) && i < |m.blocks| && k < |m.ring| && m.blocks[i] == m.ring[k] && m.blocks[i].free
    requires rest == m.blocks[i].(size := m.blocks[i].size - g.size)
    requires g == Blk(rest.page, rest.offs + rest.size, g.size, false)
    requires MAX_SMALL_SIZE / 2 <= rest.size && MAX_SMALL_SIZE / 2 <= g.size && g.size % ALIGN == 0
    requires m' == m.(blocks := m.blocks[..i] + [rest, g] + m.blocks[i + 1..], ring := ShrunkRing(m.ring, k, rest),
                      stats := m.stats.RegisterAlloc(g.size))
    ensures Inv(m')
  {
    assert m.blocks[i] in m.blocks;
    SplitSound(m.blocks[i], rest, g);
    SplitLayout(m.blocks, m.nextPage, i, rest, g);
    SplitAccounts(m.blocks, m.stats, i, rest, g);
    SplitRing(m, i, k, rest, g);
    ShrunkRingSorted(m.ring, k, rest);
  }

  lemma SplitSound(b: Blk, rest: Blk, g: Blk)
    requires Sound(b) && rest == b.(size := b.size - g.size)
             && g == Blk(rest.page, rest.offs + rest.size, g.size, false)
    requires MAX_SMALL_SIZE / 2 <= rest.size && MAX_SMALL_SIZE / 2 <= g.size && g.size % ALIGN == 0
    ensures Sound(rest) && Sound(g)
  {
  }

  lemma CarveKeeps(m: State, i: nat, k: nat, size: int)
    requires Inv(m) && i < |m.blocks| && k < |m.ring| && m.blocks[i] == m.ring[k]
    requires MAX_SMALL_SIZE / 2 <= size <= m.blocks[i].size && size % ALIGN == 0
    ensures Inv(Carve(m, i, k, size).0)
  {
    if GrantWhole(m.blocks, i, size) {
      CarveWholeKeeps(m, i, k, size);
    } else {
      CarveSplitKeeps(m, i, k, size);
    }
  }

  /** The page-id hypothesis: an allocation that adds a page still has an id below the dummy's. */
  predicate PageIdLeft(m: State, request: int)
    requires request >= 0
  {
    var size := BlockBytes(request);
    Fits(m, size) || size > PAGE_SIZE / 2 || m.nextPage < DUMMY_PAGE
  }

  lemma HitKeeps(m: State, request: int, sysOk: bool)
    requires Inv(m) && MAX_SMALL_SIZE <= request && Fits(m, BlockBytes(request))
    ensures Inv(Alloc(m, request, sysOk).0)
  {
    var size := BlockBytes(request);
    var k := BestFit(m.ring, size);
    assert m.ring[k] in m.ring;
    var i := IndexOf(m.blocks, m.ring[k]);
    ServeKeeps(m, HitState(m), i, k, size);
    assert Alloc(m, request, sysOk).0 == Carve(HitState(m), i, k, size).0;
  }

  function HitState(m: State): State {
    m.(stats := m.stats.(hitCount := m.stats.hitCount + 1))
  }

  lemma ServeKeeps(m: State, hit: State, i: nat, k: nat, size: int)
    requires Inv(m) && hit == HitState(m) && i < |m.blocks| && k < |m.ring| && m.blocks[i] == m.ring[k]
    requires MAX_SMALL_SIZE / 2 <= size <= m.blocks[i].size && size % ALIGN == 0
    ensures Inv(Carve(hit, i, k, size).0)
  {
    CarveKeeps(hit, i, k, size);
  }

  lemma MissKeeps(m: State, request: int)
    requires Inv(m) && MAX_SMALL_SIZE <= request && m.nextPage < DUMMY_PAGE
    requires !Fits(m, BlockBytes(request)) && BlockBytes(request) <= PAGE_SIZE / 2
    ensures Inv(Alloc(m, request, true).0)
  {
    AddPageKeeps(m);
    CarveKeeps(AddPage(m), 0, 0, BlockBytes(request));
    assert Alloc(m, request, true).0 == Carve(AddPage(m), 0, 0, BlockBytes(request)).0;
  }

  /** Allocation keeps the whole invariant, whatever the system allocator answers. */
  lemma AllocKeeps(m: State, request: int, sysOk: bool)
    requires Inv(m) && MAX_SMALL_SIZE <= request && PageIdLeft(m, request)
    ensures Inv(Alloc(m, request, sysOk).0)
  {
    if Fits(m, BlockBytes(request)) {
      HitKeeps(m, request, sysOk);
    } else if BlockBytes(request) <= PAGE_SIZE / 2 && sysOk {
      MissKeeps(m, request);
    } else {
      assert Alloc(m, request, sysOk).0 == m;
    }
  }

  // ---------------------------------------------------------------- freeing

  lemma MergedFits(bs: seq<Blk>, nextPage: int, i: nat)
    requires Layout(bs, nextPage) && i < |bs| && !bs[i].free
    ensures var x := Merged(bs, i); Sound(x) && x.page < nextPage
    ensures Layout(bs[..MergedLow(bs, i)] + [Merged(bs, i)] + bs[MergedHigh(bs, i)..], nextPage)
  {
    var lo, hi, x := MergedLow(bs, i), MergedHigh(bs, i), Merged(bs, i);
    MergedSound(bs, nextPage, i);
    Neighbours(bs, nextPage, i);
    Neighbours(bs, nextPage, lo);
    Neighbours(bs, nextPage, hi - 1);
    ReplaceLayout(bs, nextPage, lo, hi, [x]);
  }

  lemma MergedSound(bs: seq<Blk>, nextPage: int, i: nat)
    requires Layout(bs, nextPage) && i < |bs|
    ensures var x := Merged(bs, i); Sound(x) && x.page < nextPage
  {
    var lo, hi := MergedLow(bs, i), MergedHigh(bs, i);
    assert bs[lo] in bs && bs[i] in bs && bs[hi - 1] in bs;
    Neighbours(bs, nextPage, i);
    InsidePage(bs, nextPage, hi - 1);
    RunIsSound(bs[lo], bs[i], bs[hi - 1], Merged(bs, i));
  }

  /** Three neighbours of a page, or fewer, together. */
  lemma RunIsSound(low: Blk, b: Blk, high: Blk, x: Blk)
    requires Sound(low) && Sound(b) && Sound(high) && low.page == b.page == high.page == x.page
    requires low == b || low.offs + low.size == b.offs
    requires high == b || b.offs + b.size == high.offs
    requires x.offs == low.offs && x.offs + x.size == high.offs + high.size <= PAGE_SIZE
    ensures Sound(x)
  {
    var below, above := if low == b then 0 else low.size, if high == b then 0 else high.size;
    assert x.size == below + b.size + above;
  }

  lemma MergedSums(bs: seq<Blk>, i: nat)
    requires i < |bs| && !bs[i].free
    ensures var run := bs[MergedLow(bs, i)..MergedHigh(bs, i)];
            Total(run) == Merged(bs, i).size && LiveTotal(run) == bs[i].size && LiveCount(run) == 1
  {
    var down := if MergesDown(bs, i) then [bs[i - 1]] else [];
    var up := if MergesUp(bs, i) then [bs[i + 1]] else [];
    assert bs[MergedLow(bs, i)..MergedHigh(bs, i)] == down + [bs[i]] + up;
    SumsJoin(down + [bs[i]], up);
    SumsJoin(down, [bs[i]]);
  }

  lemma CoalesceAccounts(m: State, i: nat)
    requires Accounted(m.blocks, m.stats) && RingHoldsFree(m.blocks, m.ring)
    requires i < |m.blocks| && !m.blocks[i].free && Ordered(m.blocks)
    ensures Accounted(Coalesce(m, i).blocks, Coalesce(m, i).stats)
  {
    MergedSums(m.blocks, i);
    SumsSplit(m.blocks, MergedLow(m.blocks, i), MergedHigh(m.blocks, i), [Merged(m.blocks, i)]);
  }

  lemma UnringedFacts(m: State, i: nat)
    requires Inv(m) && i < |m.blocks| && Ordered(m.blocks)
    ensures var r := Unringed(m, i);
            && NoDup(r) && SortedDown(r) && AtMostFourPages(r)
            && forall b :: b in r <==> b in m.ring && !(MergesDown(m.blocks, i) && b == m.blocks[i - 1])
                                                   && !(MergesUp(m.blocks, i) && b == m.blocks[i + 1])
  {
    var r := m.ring;
    if MergesDown(m.blocks, i) {
      var k := IndexOf(r, m.blocks[i - 1]);
      RemoveMembers(r, k);
      RemoveSorted(r, k);
      RemoveKeepsFour(r, k);
      r := RemoveAt(r, k);
    }
    if MergesUp(m.blocks, i) {
      assert MergesDown(m.blocks, i) ==> Before(m.blocks[i - 1], m.blocks[i + 1]);
      var k := IndexOf(r, m.blocks[i + 1]);
      RemoveMembers(r, k);
      RemoveSorted(r, k);
      RemoveKeepsFour(r, k);
    }
  }

  /** The merged block is new: no ring entry has its address and size. */
  lemma MergedIsNew(m: State, i: nat)
    requires Inv(m) && i < |m.blocks| && !m.blocks[i].free && Ordered(m.blocks)
    ensures Merged(m.blocks, i) !in m.blocks
  {
    var bs := m.blocks;
    var x := Merged(bs, i);
    Neighbours(bs, m.nextPage, i);
    assert bs[i] in bs;
    if MergesDown(bs, i) {
      assert bs[i - 1] in bs;
    }
    if x in bs {
      OnlyOneStarts(bs, MergedLow(bs, i), x);
    }
  }

  /** What the merge does to the members of the block list. */
  lemma MergeMembers(bs: seq<Blk>, i: nat)
    requires NoDup(bs) && i < |bs|
    ensures forall b :: b in bs[..MergedLow(bs, i)] + [Merged(bs, i)] + bs[MergedHigh(bs, i)..] <==>
              b == Merged(bs, i) || (b in bs && b != bs[i] && !(MergesDown(bs, i) && b == bs[i - 1])
                                                           && !(MergesUp(bs, i) && b == bs[i + 1]))
  {
    var lo, hi := MergedLow(bs, i), MergedHigh(bs, i);
    ReplaceMembers(bs, lo, hi, [Merged(bs, i)]);
    var down := if MergesDown(bs, i) then [bs[i - 1]] else [];
    var up := if MergesUp(bs, i) then [bs[i + 1]] else [];
    assert bs[lo..hi] == down + [bs[i]] + up;
  }

  lemma CoalesceMembers(m: State, i: nat)
    requires Inv(m) && i < |m.blocks| && !m.blocks[i].free && Ordered(m.blocks)
    ensures var c, x := Coalesce(m, i), Merged(m.blocks, i);
            && x in c.blocks && x !in c.ring
            && forall b :: b in c.ring <==> b in c.blocks && b.free && b != x
  {
    LayoutOrdered(m.blocks, m.nextPage);
    MergeMembers(m.blocks, i);
    UnringedFacts(m, i);
    MergedIsNew(m, i);
  }

  lemma CoalesceInv(m: State, i: nat)
    requires Inv(m) && i < |m.blocks| && !m.blocks[i].free && Ordered(m.blocks)
    ensures InvBut(Coalesce(m, i), Merged(m.blocks, i))
  {
    MergedFits(m.blocks, m.nextPage, i);
    CoalesceAccounts(m, i);
    CoalesceMembers(m, i);
    UnringedFacts(m, i);
  }

  /** Freeing keeps the whole invariant. */
  lemma FreeKeeps(m: State, i: nat)
    requires Inv(m) && i < |m.blocks| && !m.blocks[i].free
    ensures Ordered(m.blocks) && Inv(Free(m, i))
  {
    LayoutOrdered(m.blocks, m.nextPage);
    CoalesceInv(m, i);
    InsertFreeKeeps(Coalesce(m, i), Merged(m.blocks, i));
  }
}
