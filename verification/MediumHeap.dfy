/** The medium tier over linked blocks, method by method as the source has it. */
module MediumHeap {
  import opened HeapLayout
  import opened BlockRings
  import opened MediumSpec
  import opened MediumProofs
  import opened MediumTheorems
  import opened MediumJoins

  datatype Grant = NoMemory | UseLarge | Given(block: Block)

  ghost function Value(b: Block): Blk
    reads b`page, b`size, b`isFree
  {
    Blk(b.page, b.offs, b.size, b.isFree)
  }

  ghost predicate Mirrors(s: seq<Block>, v: seq<Blk>)
    reads s`page, s`size, s`isFree
  {
    |s| == |v| && forall i :: 0 <= i < |s| ==> v[i] == Value(s[i])
  }

  lemma MirrorsInsert(s: seq<Block>, v: seq<Blk>, k: nat, b: Block)
    requires Mirrors(s, v) && k <= |s|
    ensures Mirrors(InsertAt(s, k, b), InsertAt(v, k, Value(b)))
  {
  }

  lemma MirrorsRemove(s: seq<Block>, v: seq<Blk>, k: nat)
    requires Mirrors(s, v) && k < |s|
    ensures Mirrors(RemoveAt(s, k), RemoveAt(v, k))
  {
  }

  lemma FourPagesShift(ring: seq<Blk>, k: nat, b: Blk)
    requires k <= |ring|
    ensures FourPagesAt(InsertAt(ring, k, b), k + 1) <==> FourPagesAt(ring, k)
  {
    var r := InsertAt(ring, k, b);
    assert forall i :: k <= i < |ring| ==> ring[i] == r[i + 1];
    assert forall i :: k < i < |r| ==> r[i] == ring[i - 1];
  }

  lemma InsertFirst<T>(s: seq<T>, x: T)
    ensures InsertAt(s, 0, x) == [x] + s
  {
  }

  lemma CarveIsWhole(m: State, i: nat, k: nat, size: int, m': State, g: Blk)
    requires i < |m.blocks| && k < |m.ring| && m.blocks[i] == m.ring[k] && GrantWhole(m.blocks, i, size)
    requires g == m.blocks[i].(free := false)
    requires m' == m.(blocks := m.blocks[i := g], ring := RemoveAt(m.ring, k), stats := m.stats.RegisterAlloc(g.size))
    ensures (m', g) == Carve(m, i, k, size)
  {
  }

  lemma SplitInPlace(bs: seq<Blk>, i: nat, rest: Blk, g: Blk)
    requires i < |bs|
    ensures bs[i := rest][..i + 1] + [g] + bs[i := rest][i + 1..] == bs[..i] + [rest, g] + bs[i + 1..]
  {
  }

  lemma JoinedIs(bs: seq<Blk>, j: nat, x: Blk)
    requires j + 1 < |bs| && x == bs[j].(size := bs[j].size + bs[j + 1].size)
    ensures RemoveAt(bs[j := x], j + 1) == Joined(bs, j)
  {
  }

  lemma InsertedOnly(m: State, b: Blk)
    requires b.size != PAGE_SIZE
    ensures InsertFree(m, b) == m.(ring := InsertAt(m.ring, InsertPos(m.ring, b.size), b))
  {
  }

  class MediumTier {
    const dummyBlock: Block
    const dummyFree: Block
    var nextPage: int
    var stats: Stats
    ghost var nodes: seq<Block>      // the block list
    ghost var freeNodes: seq<Block>  // the free ring
    ghost var view: State            // their abstract value

    ghost function Blocks(): set<Block>
      reads this
    {
      {dummyBlock, dummyFree} + set b | b in nodes
    }

    /** Both lists are circular, and the free ring runs through blocks of the block list. */
    ghost predicate Links()
      reads this, Blocks(), freeNodes
    {
      && Ring(dummyBlock, nodes) && FreeRing(dummyFree, freeNodes)
      && dummyFree !in nodes && dummyBlock != dummyFree && (forall b :: b in freeNodes ==> b in nodes)
      && dummyFree.size == 0 && dummyBlock.page == DUMMY_PAGE
    }

    /** The ghost value is what the fields say. */
    ghost predicate Tied()
      reads this, nodes, freeNodes
    {
      && Mirrors(nodes, view.blocks) && Mirrors(freeNodes, view.ring)
      && nextPage == view.nextPage && stats == view.stats
    }

    ghost predicate Valid()
      reads this, Blocks(), freeNodes
    {
      Links() && Tied() && Inv(view)
    }

    constructor ()
      ensures Valid() && view == EMPTY && fresh(Blocks())
    {
      dummyBlock := new Block(PAGE_SIZE, DUMMY_PAGE, 0, true);
      dummyFree := new Block(PAGE_SIZE, DUMMY_PAGE, 0, false);
      nextPage, stats := 1, NO_STATS;
      nodes, freeNodes, view := [], [], EMPTY;
      new;
      assert Linked([dummyBlock, dummyBlock]);
      assert Links() && Tied() && fresh(Blocks());
      InitialValid();
    }

    lemma InitialValid()
      requires Links() && Tied() && view == EMPTY
      ensures Valid()
    {
      EmptyInv(view);
    }

    /** Link `block` into the free ring before the first entry that is not larger. */
    method InsertFreeBlock(block: Block)
      requires Links() && Tied() && block in nodes && block !in freeNodes && 0 <= block.size
      requires block.size == PAGE_SIZE ==> Addressed(view.blocks)
      modifies this`nodes, this`freeNodes, this`view, this`stats
      modifies Blocks()`prev, Blocks()`next, Blocks()`prevFree, Blocks()`nextFree
      ensures Links() && Tied() && view == InsertFree(old(view), Value(block))
      ensures block.size < PAGE_SIZE ==> nodes == old(nodes)
      ensures forall b :: b in nodes ==> b in old(nodes)
    {
      var cur, k := FindPlace(block);
      LinkBefore(block, cur, k);
    }

    /** The first ring entry that is not larger, or the dummy. */
    method FindPlace(block: Block) returns (cur: Block, ghost k: nat)
      requires Links() && Tied() && block in nodes && block !in freeNodes && 0 <= block.size
      ensures k == InsertPos(view.ring, block.size) <= |freeNodes| && cur == At(dummyFree, freeNodes, k)
    {
      cur, k := dummyFree.nextFree, 0;
      FreeNeighbour(dummyFree, freeNodes, 0);
      while block.size < cur.size
        invariant 0 <= k <= |freeNodes| && cur == At(dummyFree, freeNodes, k)
        invariant forall i :: 0 <= i < k ==> freeNodes[i].size > block.size
        decreases |freeNodes| - k
        modifies {}
      {
        assert cur != dummyFree && cur != block;  // the source's own assertions
        FreeNeighbour(dummyFree, freeNodes, k);
        cur := cur.nextFree;
        k := k + 1;
      }
      assert k == InsertPos(view.ring, block.size);
    }

    /** Whether four whole pages start at ring position `k`, read off by following the links. */
    method FourPagesFrom(cur: Block, ghost k: nat) returns (r: bool)
      requires Links() && Tied() && k <= |freeNodes| && cur == At(dummyFree, freeNodes, k)
      ensures r <==> FourPagesAt(view.ring, k)
    {
      if cur.size != PAGE_SIZE { return false; }
      FreeNeighbour(dummyFree, freeNodes, k);
      if cur.nextFree.size != PAGE_SIZE { return false; }
      FreeNeighbour(dummyFree, freeNodes, k + 1);
      var nextFree := cur.nextFree.nextFree;
      if nextFree.size != PAGE_SIZE { return false; }
      FreeNeighbour(dummyFree, freeNodes, k + 2);
      r := nextFree.nextFree.size == PAGE_SIZE;
    }

    /** Link `block` in front of ring entry `k`. */
    method PutInRing(block: Block, cur: Block, ghost k: nat)
      requires Links() && Tied() && block in nodes && block !in freeNodes
      requires k <= |freeNodes| && cur == At(dummyFree, freeNodes, k)
      modifies this`freeNodes, this`view, Blocks()`prevFree, Blocks()`nextFree
      ensures Links() && Tied() && freeNodes == InsertAt(old(freeNodes), k, block)
      ensures view == old(view).(ring := InsertAt(old(view.ring), k, Value(block)))
    {
      FreeNeighbour(dummyFree, freeNodes, k);
      block.InsertBeforeFreeLink(cur, dummyFree, freeNodes, k);
      MirrorsInsert(freeNodes, view.ring, k, block);
      freeNodes := InsertAt(freeNodes, k, block);
      view := view.(ring := InsertAt(view.ring, k, Value(block)));
    }

    /** Unlink ring entry `k`. */
    method TakeFromRing(block: Block, ghost k: nat)
      requires Links() && Tied() && k < |freeNodes| && block == freeNodes[k]
      modifies this`freeNodes, this`view, Blocks()`prevFree, Blocks()`nextFree
      ensures Links() && Tied() && freeNodes == RemoveAt(old(freeNodes), k)
      ensures block !in freeNodes && forall b :: b in freeNodes ==> b in old(freeNodes)
      ensures view == old(view).(ring := RemoveAt(old(view.ring), k))
    {
      FreeNeighbour(dummyFree, freeNodes, k);
      block.RemoveFreeLink(dummyFree, freeNodes, k);
      MirrorsRemove(freeNodes, view.ring, k);
      freeNodes := RemoveAt(freeNodes, k);
      view := view.(ring := RemoveAt(view.ring, k));
    }

    /** Unlink block `i`, which is not in the free ring, from the block list. */
    method TakeFromList(block: Block, ghost i: nat)
      requires Links() && Tied() && i < |nodes| && block == nodes[i] && block !in freeNodes
      modifies this`nodes, this`view, Blocks()`prev, Blocks()`next
      ensures Links() && Tied() && nodes == RemoveAt(old(nodes), i)
      ensures view == old(view).(blocks := RemoveAt(old(view.blocks), i))
    {
      Neighbour(dummyBlock, nodes, i);
      block.RemoveLink(dummyBlock, nodes, i);
      MirrorsRemove(nodes, view.blocks, i);
      nodes := RemoveAt(nodes, i);
      view := view.(blocks := RemoveAt(view.blocks, i));
    }

    /** Whether no neighbour of block `i` in the block list shares its page. */
    method AloneInList(cur: Block, ghost i: nat) returns (r: bool)
      requires Links() && Tied() && i < |nodes| && cur == nodes[i] && cur.page < DUMMY_PAGE
      ensures r <==> AloneOnPage(view.blocks, i)
    {
      Neighbour(dummyBlock, nodes, i);
      r := cur.page != cur.next.page && cur.page != cur.prev.page;
    }

    /** Whether `cur`, ring entry `k + 1`, is a fifth whole page after `b` was linked before it. */
    method Surplus(ghost m: State, ghost b: Blk, cur: Block, ghost k: nat) returns (r: bool, ghost i: nat)
      requires Links() && Tied() && Addressed(m.blocks) && b.size == PAGE_SIZE && k == InsertPos(m.ring, b.size)
      requires k + 1 <= |freeNodes| && cur == At(dummyFree, freeNodes, k + 1)
      requires view == m.(ring := InsertAt(m.ring, k, b))
      ensures r <==> Releases(m, b)
      ensures r ==> i < |nodes| && nodes[i] == cur && IndexOf(m.blocks, m.ring[k]) == i
    {
      i := 0;
      r := FourPagesFrom(cur, k + 1);
      FourPagesShift(m.ring, k, b);
      if r {
        assert cur in nodes;
        i :| 0 <= i < |nodes| && nodes[i] == cur;
        assert view.ring[k + 1] == m.ring[k] == Value(cur) == m.blocks[i];
        IndexUnique(m.blocks, i);
        r := AloneInList(cur, i);
      }
    }

    /** Unlink the page of `cur`, ring entry `k + 1` and block `i`, for the system to take back. */
    method ReleasePage(ghost m: State, ghost b: Blk, cur: Block, ghost k: nat, ghost i: nat)
      requires Links() && Tied() && k < |m.ring| && k + 1 < |freeNodes| && cur == freeNodes[k + 1]
      requires i < |nodes| && cur == nodes[i]
      requires view == m.(ring := InsertAt(m.ring, k, b))
      modifies this`nodes, this`freeNodes, this`view, this`stats
      modifies Blocks()`prev, Blocks()`next, Blocks()`prevFree, Blocks()`nextFree
      ensures Links() && Tied() && nodes == RemoveAt(old(nodes), i)
      ensures view == m.(blocks := RemoveAt(m.blocks, i), ring := m.ring[k := b],
                         stats := m.stats.(allocSize := m.stats.allocSize - PAGE_SIZE,
                                           freePageCount := m.stats.freePageCount + 1))
    {
      stats := stats.(allocSize := stats.allocSize - PAGE_SIZE, freePageCount := stats.freePageCount + 1);
      view := view.(stats := stats);
      TakeFromRing(cur, k + 1);
      assert view.ring == m.ring[k := b];
      TakeFromList(cur, i);
    }

    /** After a whole page `b` was linked, give `cur` back if it is a fifth one. */
    method TrimPages(ghost m: State, ghost b: Blk, cur: Block, ghost k: nat)
      requires Links() && Tied() && Addressed(m.blocks) && b.size == PAGE_SIZE && k == InsertPos(m.ring, b.size)
      requires k + 1 <= |freeNodes| && cur == At(dummyFree, freeNodes, k + 1)
      requires view == m.(ring := InsertAt(m.ring, k, b))
      modifies this`nodes, this`freeNodes, this`view, this`stats
      modifies Blocks()`prev, Blocks()`next, Blocks()`prevFree, Blocks()`nextFree
      ensures Links() && Tied() && view == InsertFree(m, b)
      ensures forall b :: b in nodes ==> b in old(nodes)
    {
      var surplus, i := Surplus(m, b, cur, k);
      if surplus {
        assert |freeNodes| == |m.ring| + 1;
        ReleasePage(m, b, cur, k, i);
      }
    }

    /** The ring position is known: link, and release `cur` if it is a fifth whole page. */
    method LinkBefore(block: Block, cur: Block, ghost k: nat)
      requires Links() && Tied() && block in nodes && block !in freeNodes
      requires block.size == PAGE_SIZE ==> Addressed(view.blocks)
      requires k <= |freeNodes| && cur == At(dummyFree, freeNodes, k) && k == InsertPos(view.ring, block.size)
      modifies this`nodes, this`freeNodes, this`view, this`stats
      modifies Blocks()`prev, Blocks()`next, Blocks()`prevFree, Blocks()`nextFree
      ensures Links() && Tied() && view == InsertFree(old(view), Value(block))
      ensures block.size < PAGE_SIZE ==> nodes == old(nodes)
      ensures forall b :: b in nodes ==> b in old(nodes)
    {
      ghost var m, b := view, Value(block);
      PutInRing(block, cur, k);
      TrimAfter(block, m, b, cur, k);
    }

    /** Only a whole page can make a fifth one. */
    method TrimAfter(block: Block, ghost m: State, ghost b: Blk, cur: Block, ghost k: nat)
      requires Links() && Tied() && b == Value(block) && k == InsertPos(m.ring, b.size)
      requires b.size == PAGE_SIZE ==> Addressed(m.blocks)
      requires k + 1 <= |freeNodes| && cur == At(dummyFree, freeNodes, k + 1)
      requires view == m.(ring := InsertAt(m.ring, k, b))
      modifies this`nodes, this`freeNodes, this`view, this`stats
      modifies Blocks()`prev, Blocks()`next, Blocks()`prevFree, Blocks()`nextFree
      ensures Links() && Tied() && view == InsertFree(m, b)
      ensures b.size < PAGE_SIZE ==> nodes == old(nodes)
      ensures forall b :: b in nodes ==> b in old(nodes)
    {
      if block.size == PAGE_SIZE {
        TrimPages(m, b, cur, k);
      } else {
        InsertedOnly(m, b);
      }
    }

    /** Shrink the free block `i`, ring entry `k`, and move it down the ring if it became too small for its place. */
    method ShrinkEntry(block: Block, size: int, ghost i: nat, ghost k: nat)
      requires Links() && Tied() && i < |nodes| && k < |freeNodes| && nodes[i] == block == freeNodes[k]
      requires 0 <= size < PAGE_SIZE
      modifies this`freeNodes, this`nodes, this`view, this`stats, block`size
      modifies Blocks()`prev, Blocks()`next, Blocks()`prevFree, Blocks()`nextFree
      ensures Links() && Tied() && nodes == old(nodes) && block.size == size
      ensures var rest := old(Value(block)).(size := size);
              view == old(view).(blocks := old(view.blocks)[i := rest], ring := ShrunkRing(old(view.ring), k, rest))
    {
      SetSize(block, size, i, k);
      FreeNeighbour(dummyFree, freeNodes, k);
      if block.size < block.nextFree.size {
        TakeFromRing(block, k);
        InsertFreeBlock(block);
      }
    }

    method SetSize(block: Block, size: int, ghost i: nat, ghost k: nat)
      requires Links() && Tied() && i < |nodes| && k < |freeNodes| && nodes[i] == block == freeNodes[k]
      modifies this`view, block`size
      ensures Links() && Tied() && block.size == size
      ensures var rest := old(Value(block)).(size := size);
              view == old(view).(blocks := old(view.blocks)[i := rest], ring := old(view.ring)[k := rest])
    {
      block.size := size;
      view := view.(blocks := view.blocks[i := Value(block)], ring := view.ring[k := Value(block)]);
    }

    /** Unlink ring entry `k`, block `i`, and hand it out whole. */
    method GrantEntry(block: Block, ghost i: nat, ghost k: nat)
      requires Links() && Tied() && i < |nodes| && k < |freeNodes| && nodes[i] == block == freeNodes[k]
      modifies this`freeNodes, this`view, this`stats, block`isFree, Blocks()`prevFree, Blocks()`nextFree
      ensures Links() && Tied() && Value(block) == old(Value(block)).(free := false)
      ensures view == old(view).(blocks := old(view.blocks)[i := Value(block)], ring := RemoveAt(old(view.ring), k),
                                 stats := old(stats).RegisterAlloc(block.size))
    {
      TakeFromRing(block, k);
      block.isFree := false;
      stats := stats.RegisterAlloc(block.size);
      view := view.(blocks := view.blocks[i := Value(block)], stats := stats);
    }

    /** Link the new block `g` behind block `i`. */
    method PutBehind(g: Block, block: Block, ghost i: nat)
      requires Links() && Tied() && i < |nodes| && nodes[i] == block && g !in Blocks()
      modifies this`nodes, this`view, g`prev, g`next, Blocks()`prev, Blocks()`next
      ensures Links() && Tied() && nodes == old(nodes)[..i + 1] + [g] + old(nodes)[i + 1..]
      ensures view == old(view).(blocks := old(view.blocks)[..i + 1] + [Value(g)] + old(view.blocks)[i + 1..])
    {
      Neighbour(dummyBlock, nodes, i);
      g.InsertAfter(block, dummyBlock, nodes, i);
      MirrorsInsert(nodes, view.blocks, i + 1, g);
      nodes := nodes[..i + 1] + [g] + nodes[i + 1..];
      view := view.(blocks := view.blocks[..i + 1] + [Value(g)] + view.blocks[i + 1..]);
    }

    /** A new live block of `size` bytes right behind block `i`. */
    method GrantBehind(block: Block, size: int, ghost i: nat) returns (g: Block)
      requires Links() && Tied() && i < |nodes| && nodes[i] == block
      modifies this`nodes, this`view, this`stats, Blocks()`prev, Blocks()`next
      ensures Links() && Tied() && fresh(g) && nodes == old(nodes)[..i + 1] + [g] + old(nodes)[i + 1..]
      ensures Value(g) == Blk(block.page, block.offs + block.size, size, false)
      ensures view == old(view).(blocks := old(view.blocks)[..i + 1] + [Value(g)] + old(view.blocks)[i + 1..],
                                 stats := old(stats).RegisterAlloc(size))
    {
      g := new Block(block.offs + block.size, block.page, size, false);
      PutBehind(g, block, i);
      stats := stats.RegisterAlloc(size);
      view := view.(stats := stats);
    }

    /** Cut `size` bytes off the tail of the free block `i`, ring entry `k`. */
    method SplitBlock(block: Block, size: int, ghost i: nat, ghost k: nat) returns (g: Block)
      requires Links() && Tied() && i < |nodes| && k < |freeNodes| && nodes[i] == block == freeNodes[k]
      requires 0 < size <= block.size <= PAGE_SIZE
      modifies this`nodes, this`freeNodes, this`view, this`stats, block`size
      modifies Blocks()`prev, Blocks()`next, Blocks()`prevFree, Blocks()`nextFree
      ensures Links() && Tied() && g in nodes && forall b :: b in nodes ==> b in old(nodes) || fresh(b)
      ensures var b := old(Value(block));
              var rest := b.(size := b.size - size);
              && Value(g) == Blk(b.page, b.offs + rest.size, size, false)
              && view == old(view).(blocks := old(view.blocks)[..i] + [rest, Value(g)] + old(view.blocks)[i + 1..],
                                    ring := ShrunkRing(old(view.ring), k, rest),
                                    stats := old(stats).RegisterAlloc(size))
    {
      ghost var bs, b := view.blocks, Value(block);
      ShrinkEntry(block, block.size - size, i, k);
      g := GrantBehind(block, size, i);
      ghost var rest := b.(size := b.size - size);
      SplitInPlace(bs, i, rest, Value(g));
    }

    /** Whether what would be left of block `i` is too small to stay. */
    method TakesWhole(block: Block, size: int, ghost i: nat) returns (whole: bool)
      requires Links() && Tied() && i < |nodes| && nodes[i] == block && block.page < DUMMY_PAGE
      ensures whole <==> GrantWhole(view.blocks, i, size)
    {
      Neighbour(dummyBlock, nodes, i);
      var rest := block.size - size;
      whole := rest < MAX_SMALL_SIZE && (rest < MAX_SMALL_SIZE / 2 || block.next.page != block.page);
    }

    /** Serve `size` bytes from the free block `i`, ring entry `k`: whole, or from its tail end. */
    method CarveBlock(block: Block, size: int, ghost i: nat, ghost k: nat) returns (g: Block)
      requires Links() && Tied() && i < |nodes| && k < |freeNodes| && nodes[i] == block == freeNodes[k]
      requires 0 < size <= block.size <= PAGE_SIZE && block.page < DUMMY_PAGE
      modifies this`nodes, this`freeNodes, this`view, this`stats, block`size, block`isFree
      modifies Blocks()`prev, Blocks()`next, Blocks()`prevFree, Blocks()`nextFree
      ensures Links() && Tied() && view == Carve(old(view), i, k, size).0 && Value(g) == Carve(old(view), i, k, size).1
      ensures g in nodes && forall b :: b in nodes ==> b in old(nodes) || fresh(b)
    {
      var whole := TakesWhole(block, size, i);
      if whole {
        g := CarveWhole(block, size, i, k);
      } else {
        g := CarveTail(block, size, i, k);
      }
    }

    method CarveWhole(block: Block, size: int, ghost i: nat, ghost k: nat) returns (g: Block)
      requires Links() && Tied() && i < |nodes| && k < |freeNodes| && nodes[i] == block == freeNodes[k]
               && GrantWhole(view.blocks, i, size)
      modifies this`freeNodes, this`view, this`stats, block`isFree, Blocks()`prevFree, Blocks()`nextFree
      ensures Links() && Tied() && view == Carve(old(view), i, k, size).0
              && Value(g) == Carve(old(view), i, k, size).1 && g in nodes
    {
      ghost var m := view;
      GrantEntry(block, i, k);
      g := block;
      CarveIsWhole(m, i, k, size, view, Value(g));
    }

    method CarveTail(block: Block, size: int, ghost i: nat, ghost k: nat) returns (g: Block)
      requires Links() && Tied() && i < |nodes| && k < |freeNodes| && nodes[i] == block == freeNodes[k]
               && !GrantWhole(view.blocks, i, size)
      requires 0 < size <= block.size <= PAGE_SIZE
      modifies this`nodes, this`freeNodes, this`view, this`stats, block`size
      modifies Blocks()`prev, Blocks()`next, Blocks()`prevFree, Blocks()`nextFree
      ensures Links() && Tied() && view == Carve(old(view), i, k, size).0 && Value(g) == Carve(old(view), i, k, size).1
      ensures g in nodes && forall b :: b in nodes ==> b in old(nodes) || fresh(b)
    {
      ghost var m := view;
      g := SplitBlock(block, size, i, k);
      CarveIsSplit(m, i, k, size, view, Value(g));
    }

    /** A fresh page from the system, wholly free, first in both lists. */
    method NewPage() returns (block: Block)
      requires Links() && Tied()
      modifies this`nodes, this`freeNodes, this`view, this`stats, this`nextPage
      modifies Blocks()`prev, Blocks()`next, Blocks()`prevFree, Blocks()`nextFree
      ensures Links() && Tied() && view == AddPage(old(view)) && fresh(block)
      ensures nodes == [block] + old(nodes) && freeNodes == [block] + old(freeNodes)
    {
      block := new Block(0, nextPage, PAGE_SIZE, true);
      PutPage(block);
      nextPage := nextPage + 1;
      stats := stats.(allocSize := stats.allocSize + PAGE_SIZE);
      view := view.(nextPage := nextPage, stats := stats);
    }

    /** Link the new free block in front of both lists. */
    method PutPage(block: Block)
      requires Links() && Tied() && block !in Blocks()
      modifies this`nodes, this`freeNodes, this`view, block`prev, block`next, block`prevFree, block`nextFree
      modifies Blocks()`prev, Blocks()`next, Blocks()`prevFree, Blocks()`nextFree
      ensures Links() && Tied() && nodes == [block] + old(nodes) && freeNodes == [block] + old(freeNodes)
      ensures view == old(view).(blocks := [Value(block)] + old(view.blocks), ring := [Value(block)] + old(view.ring))
    {
      PutFirst(block);
      FreeNeighbour(dummyFree, freeNodes, 0);
      InsertFirst(freeNodes, block);
      InsertFirst(view.ring, Value(block));
      PutInRing(block, dummyFree.nextFree, 0);
    }

    /** Link the new block in front of the block list. */
    method PutFirst(block: Block)
      requires Links() && Tied() && block !in Blocks()
      modifies this`nodes, this`view, block`prev, block`next, Blocks()`prev, Blocks()`next
      ensures Links() && Tied() && nodes == [block] + old(nodes)
      ensures view == old(view).(blocks := [Value(block)] + old(view.blocks))
    {
      Neighbour(dummyBlock, nodes, 0);
      block.InsertBefore(dummyBlock.next, dummyBlock, nodes, 0);
      InsertFirst(nodes, block);
      InsertFirst(view.blocks, Value(block));
      MirrorsInsert(nodes, view.blocks, 0, block);
      nodes := [block] + nodes;
      view := view.(blocks := [Value(block)] + view.blocks);
    }

    /** Walk down the free ring while the next entry still fits. */
    method FindBestFit(first: Block, size: int) returns (block: Block, ghost k: nat)
      requires Links() && Tied() && freeNodes != [] && first == freeNodes[0] && first.size >= size > 0
      ensures view.ring != [] && view.ring[0].size >= size
      ensures k == BestFit(view.ring, size) < |freeNodes| && block == freeNodes[BestFit(view.ring, size)]
    {
      block, k := first, 0;
      FreeNeighbour(dummyFree, freeNodes, 0);
      var next := block.nextFree;
      while next.size >= size
        invariant k < |freeNodes| && block == freeNodes[k] && next == At(dummyFree, freeNodes, k + 1)
        invariant forall i :: 0 <= i <= k ==> freeNodes[i].size >= size
        decreases |freeNodes| - k
        modifies {}
      {
        FreeNeighbour(dummyFree, freeNodes, k + 1);
        block, k := next, k + 1;
        next := block.nextFree;
      }
    }

    /** The block-list position of ring entry `k`. */
    lemma Locate(k: nat) returns (i: nat)
      requires Links() && Tied() && Addressed(view.blocks) && k < |freeNodes|
      ensures i < |nodes| && nodes[i] == freeNodes[k] && view.blocks[i] == view.ring[k]
      ensures view.ring[k] in view.blocks && IndexOf(view.blocks, view.ring[k]) == i
      ensures freeNodes[k].page < DUMMY_PAGE && freeNodes[k].size <= PAGE_SIZE
    {
      assert freeNodes[k] in nodes;
      i :| 0 <= i < |nodes| && nodes[i] == freeNodes[k];
      assert view.blocks[i] == Value(nodes[i]) == view.ring[k];
      assert view.blocks[i] in view.blocks;
      IndexUnique(view.blocks, i);
    }

    /** Serve from the best fitting free block. */
    method AllocHit(first: Block, size: int) returns (g: Block)
      requires Links() && Tied() && Addressed(view.blocks) && RingHoldsFree(view.blocks, view.ring)
      requires freeNodes != [] && first == freeNodes[0] && first.size >= size > 0
      modifies this, Blocks()
      ensures Links() && Tied() && Fits(old(view), size) && (view, Value(g)) == Serve(old(view), size)
      ensures g in nodes && forall b :: b in nodes ==> b in old(nodes) || fresh(b)
    {
      var block, k := FindBestFit(first, size);
      ghost var i := Locate(k);
      CountHit();
      g := CarveBlock(block, size, i, k);
    }

    method CountHit()
      requires Links() && Tied()
      modifies this`stats, this`view
      ensures Links() && Tied() && view == HitState(old(view))
    {
      stats := stats.(hitCount := stats.hitCount + 1);
      view := view.(stats := stats);
    }

    /** No free block fits: hand over to the large tier, or ask the system for a page. */
    method AllocMiss(request: int, sysOk: bool) returns (r: Grant)
      requires Links() && Tied() && (forall b :: b in view.ring ==> b in view.blocks)
      requires 0 <= request && PageIdLeft(view, request) && !Fits(view, BlockBytes(request))
      modifies this, Blocks()
      ensures Links() && Tied() && view == Alloc(old(view), request, sysOk).0
      ensures Agrees(r, Alloc(old(view), request, sysOk).1)
      ensures forall b :: b in nodes ==> b in old(nodes) || fresh(b)
    {
      var size := BlockBytes(request);
      if size > PAGE_SIZE / 2 {
        r := UseLarge;
      } else if !sysOk {
        r := NoMemory;
      } else {
        var block := NewPage();
        var g := CarveBlock(block, size, 0, 0);
        r := Given(g);
      }
    }

    /** What the caller gets is what the specification grants. */
    ghost predicate Agrees(r: Grant, out: Outcome)
      reads this, nodes
    {
      match r
      case NoMemory => out == Null
      case UseLarge => out == ToLarge
      case Given(g) => g in nodes && out == Granted(Value(g))
    }

    /** The body of the request, on the part of the invariant it needs. */
    method AllocBlock(request: int, sysOk: bool) returns (r: Grant)
      requires Links() && Tied() && Addressed(view.blocks) && RingHoldsFree(view.blocks, view.ring)
      requires 0 <= request && PageIdLeft(view, request)
      modifies this, Blocks()
      ensures Links() && Tied() && view == Alloc(old(view), request, sysOk).0
      ensures Agrees(r, Alloc(old(view), request, sysOk).1)
      ensures forall b :: b in nodes ==> b in old(nodes) || fresh(b)
    {
      FreeNeighbour(dummyFree, freeNodes, 0);
      var first := dummyFree.nextFree;
      if first.size < BlockBytes(request) {
        r := AllocMiss(request, sysOk);
      } else {
        var g := AllocHit(first, BlockBytes(request));
        r := Given(g);
      }
    }

    /** A request in the medium range; `sysOk` is what the system allocator answers if a page is asked for. */
    method AllocMedium(request: int, sysOk: bool) returns (r: Grant)
      requires Valid() && MAX_SMALL_SIZE <= request && PageIdLeft(view, request)
      modifies this, Blocks()
      ensures Valid() && view == Alloc(old(view), request, sysOk).0
      ensures Agrees(r, Alloc(old(view), request, sysOk).1)
      ensures forall b :: b in nodes ==> b in old(nodes) || fresh(b)
    {
      LayoutAddressed(view.blocks, view.nextPage);
      AllocKeeps(view, request, sysOk);
      r := AllocBlock(request, sysOk);
    }

    /** Grow block `j` over its successor, which leaves the block list. Neither is in the free ring. */
    method Absorb(low: Block, high: Block, ghost j: nat)
      requires Links() && Tied() && j + 1 < |nodes| && low == nodes[j] && high == nodes[j + 1]
      requires low !in freeNodes && high !in freeNodes
      modifies this`nodes, this`view, low`size, Blocks()`prev, Blocks()`next
      ensures Links() && Tied() && nodes == RemoveAt(old(nodes), j + 1)
      ensures view == old(view).(blocks := Joined(old(view.blocks), j))
    {
      ghost var bs := view.blocks;
      Grow(low, low.size + high.size, j);
      TakeFromList(high, j + 1);
      JoinedIs(bs, j, Value(low));
    }

    method Grow(low: Block, size: int, ghost j: nat)
      requires Links() && Tied() && j < |nodes| && low == nodes[j] && low !in freeNodes
      modifies this`view, low`size
      ensures Links() && Tied() && view == old(view).(blocks := old(view.blocks)[j := old(Value(low)).(size := size)])
      ensures low.size == size
    {
      low.size := size;
      view := view.(blocks := view.blocks[j := Value(low)]);
    }

    /** Ring position of a free block of the list. */
    lemma InRing(i: nat) returns (k: nat)
      requires Links() && Tied() && Addressed(view.blocks) && i < |nodes| && view.blocks[i] in view.ring
      ensures k < |freeNodes| && freeNodes[k] == nodes[i] && IndexOf(view.ring, view.blocks[i]) == k
    {
      k := IndexOf(view.ring, view.blocks[i]);
      var j := Locate(k);
      IndexUnique(view.blocks, i);
    }

    /** Join blocks `j` and `j + 1`; `taken`, the free one, leaves the ring. */
    method Join(low: Block, high: Block, ghost j: nat, taken: Block, ghost k: nat)
      requires Links() && Tied() && j + 1 < |nodes| && low == nodes[j] && high == nodes[j + 1]
      requires k < |freeNodes| && freeNodes[k] == taken && taken in {low, high}
      requires low == taken || low !in freeNodes
      requires high == taken || high !in freeNodes
      modifies this`nodes, this`freeNodes, this`view, this`stats, low`size
      modifies Blocks()`prev, Blocks()`next, Blocks()`prevFree, Blocks()`nextFree
      ensures Links() && Tied() && j < |nodes| && nodes[j] == low && low !in freeNodes
      ensures forall b :: b in nodes ==> b in old(nodes)
      ensures view == old(view).(blocks := Joined(old(view.blocks), j), ring := RemoveAt(old(view.ring), k),
                                 stats := old(stats).(mergeCount := old(stats).mergeCount + 1))
    {
      stats := stats.(mergeCount := stats.mergeCount + 1);
      view := view.(stats := stats);
      TakeFromRing(taken, k);
      Absorb(low, high, j);
    }

    /** Join block `i` with a free block right before it on its page. */
    method MergeLower(block: Block, ghost i: nat) returns (cur: Block, ghost j: nat)
      requires Links() && Tied() && Addressed(view.blocks) && LowerReady(view, i)
      requires i < |nodes| && nodes[i] == block && block !in freeNodes
      modifies this`nodes, this`freeNodes, this`view, this`stats, Blocks()`size
      modifies Blocks()`prev, Blocks()`next, Blocks()`prevFree, Blocks()`nextFree
      ensures Links() && Tied() && j < |nodes| && nodes[j] == cur && cur !in freeNodes
      ensures j == MergedLow(old(view.blocks), i) && view == LowerState(old(view), i)
      ensures forall b :: b in nodes ==> b in old(nodes)
    {
      Neighbour(dummyBlock, nodes, i);
      assert view.blocks[i] in view.blocks;
      cur, j := block, i;
      var prev := block.prev;
      if prev.isFree && prev.page == block.page {
        assert MergesDown(view.blocks, i);
        MergeDown(prev, block, i);
        cur, j := prev, i - 1;
      }
    }

    /** Join block `i` with the free block in front of it. */
    method MergeDown(prev: Block, block: Block, ghost i: nat)
      requires Links() && Tied() && Addressed(view.blocks) && LowerReady(view, i)
      requires 0 < i < |nodes| && nodes[i] == block && nodes[i - 1] == prev && block !in freeNodes
               && MergesDown(view.blocks, i)
      modifies this`nodes, this`freeNodes, this`view, this`stats, prev`size
      modifies Blocks()`prev, Blocks()`next, Blocks()`prevFree, Blocks()`nextFree
      ensures Links() && Tied() && i - 1 < |nodes| && nodes[i - 1] == prev && prev !in freeNodes
      ensures view == LowerState(old(view), i) && forall b :: b in nodes ==> b in old(nodes)
    {
      ghost var k := InRing(i - 1);
      Join(prev, block, i - 1, prev, k);
    }

    /** Join block `j` with a free block right behind it on its page. */
    method MergeUpper(cur: Block, ghost j: nat)
      requires Links() && Tied() && Addressed(view.blocks) && NoDup(view.ring)
      requires j < |nodes| && nodes[j] == cur && cur !in freeNodes && UpperReady(view, j)
      modifies this`nodes, this`freeNodes, this`view, this`stats, Blocks()`size
      modifies Blocks()`prev, Blocks()`next, Blocks()`prevFree, Blocks()`nextFree
      ensures Links() && Tied() && j < |nodes| && nodes[j] == cur && cur !in freeNodes
      ensures forall b :: b in nodes ==> b in old(nodes)
      ensures view == UpperState(old(view), j)
    {
      Neighbour(dummyBlock, nodes, j);
      assert view.blocks[j] in view.blocks;
      var next := cur.next;
      if next.isFree && next.page == cur.page {
        assert MergesUp(view.blocks, j);
        ghost var k := InRing(j + 1);
        Join(cur, next, j, next, k);
      }
    }

    lemma LiveNotRinged(i: nat)
      requires Links() && Tied() && RingHoldsFree(view.blocks, view.ring) && i < |nodes| && !nodes[i].isFree
      ensures nodes[i] !in freeNodes
    {
    }

    /** Mark block `j`, which is not in the ring, free. */
    method MarkFree(cur: Block, ghost j: nat)
      requires Links() && Tied() && j < |nodes| && nodes[j] == cur && cur !in freeNodes
      modifies this`view, cur`isFree
      ensures Links() && Tied() && Value(cur) == old(Value(cur)).(free := true)
      ensures view == old(view).(blocks := old(view.blocks)[j := old(view.blocks)[j].(free := true)])
    {
      cur.isFree := true;
      view := view.(blocks := view.blocks[j := Value(cur)]);
    }

    /** Both joins, in the order of the source. */
    method MergeBoth(block: Block, ghost i: nat) returns (cur: Block, ghost j: nat)
      requires Links() && Tied() && JoinsReady(view, i) && i < |nodes| && nodes[i] == block && block !in freeNodes
      modifies this`nodes, this`freeNodes, this`view, this`stats, Blocks()`size
      modifies Blocks()`prev, Blocks()`next, Blocks()`prevFree, Blocks()`nextFree
      ensures Links() && Tied() && j == MergedLow(old(view.blocks), i) && j < |nodes| && nodes[j] == cur
      ensures cur !in freeNodes && forall b :: b in nodes ==> b in old(nodes)
      ensures view == UpperState(LowerState(old(view), i), j)
    {
      cur, j := MergeLower(block, i);
      MergeUpper(cur, j);
    }

    /** Join the live block `i` with its free neighbours and mark the result free. */
    method CoalesceBlock(block: Block, ghost i: nat) returns (cur: Block)
      requires Links() && Tied() && JoinsReady(view, i) && i < |nodes| && nodes[i] == block && block !in freeNodes
      modifies this`nodes, this`freeNodes, this`view, this`stats, Blocks()`size, Blocks()`isFree
      modifies Blocks()`prev, Blocks()`next, Blocks()`prevFree, Blocks()`nextFree
      ensures Links() && Tied() && view == JoinedState(old(view), i)
      ensures MergedLow(old(view.blocks), i) < |view.blocks|
              && Value(cur) == view.blocks[MergedLow(old(view.blocks), i)]
      ensures cur in nodes && cur !in freeNodes && forall b :: b in nodes ==> b in old(nodes)
    {
      StatsDoNotMatter(view, i, stats.RegisterFree(block.size));
      stats := stats.RegisterFree(block.size);
      view := view.(stats := stats);
      ghost var j;
      cur, j := MergeBoth(block, i);
      MarkFree(cur, j);
    }

    /** Free the live block, and give a fifth free page back. */
    method FreeBlock(block: Block, ghost i: nat)
      requires Links() && Tied() && JoinsReady(view, i) && i < |nodes| && nodes[i] == block && block !in freeNodes
      requires Ordered(view.blocks) && RingHoldsFree(view.blocks, view.ring)
      requires JoinedState(view, i) == Coalesce(view, i) && Addressed(Coalesce(view, i).blocks)
      requires MergedLow(view.blocks, i) < |Coalesce(view, i).blocks|
      requires Coalesce(view, i).blocks[MergedLow(view.blocks, i)] == Merged(view.blocks, i)
      modifies this, Blocks()
      ensures Links() && Tied() && view == Free(old(view), i)
      ensures forall b :: b in nodes ==> b in old(nodes)
    {
      var cur := CoalesceBlock(block, i);
      assert Value(cur) in view.blocks;
      InsertFreeBlock(cur);
    }

    /** The pointer given back must be a live block. */
    method FreeMedium(block: Block)
      requires Valid() && block in nodes && !block.isFree
      modifies this, Blocks()
      ensures Valid()
      ensures old(Value(block) in view.blocks && Ordered(view.blocks) && RingHoldsFree(view.blocks, view.ring))
      ensures view == Free(old(view), IndexOf(old(view.blocks), old(Value(block))))
      ensures forall b :: b in nodes ==> b in old(nodes)
    {
      ghost var i :| 0 <= i < |nodes| && nodes[i] == block;
      assert view.blocks[i] == Value(block) && view.blocks[i] in view.blocks;
      LayoutAddressed(view.blocks, view.nextPage);
      IndexUnique(view.blocks, i);
      JoinsAreCoalesce(view, i);
      CoalesceInv(view, i);
      LayoutAddressed(Coalesce(view, i).blocks, view.nextPage);
      FreeKeeps(view, i);
      LiveNotRinged(i);
      FreeBlock(block, i);
    }
  }
}
