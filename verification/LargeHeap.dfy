/** The large tier over linked blocks. */
module LargeHeap {
  import opened HeapLayout
  import opened BlockRings
  import opened SmallSpec
  import LargeSpec

  /** A block header's value; its `offs` is the address the system gave it. */
  ghost function Value(b: Block): LargeSpec.LBlk
    reads b`size
  {
    LargeSpec.LBlk(b.offs, b.size)
  }

  ghost predicate Mirrors(s: seq<Block>, v: seq<LargeSpec.LBlk>)
    reads s`size, s`isFree
  {
    |s| == |v| && forall i :: 0 <= i < |s| ==> v[i] == Value(s[i]) && !s[i].isFree
  }

  class LargeTier {
    const dummyLargeBlock: Block
    var nextId: int                  // stands for the next address of the system
    var stats: SStats
    ghost var nodes: seq<Block>
    ghost var view: LargeSpec.LState

    ghost function Blocks(): set<Block>
      reads this
    {
      {dummyLargeBlock} + set b | b in nodes
    }

    /** The ring is well linked, and the ghost value is what it says. */
    ghost predicate Linked()
      reads this, Blocks()
    {
      && Ring(dummyLargeBlock, nodes) && Mirrors(nodes, view.blocks)
      && nextId == view.nextId && stats == view.stats
    }

    ghost predicate Valid()
      reads this, Blocks()
    {
      Linked() && LargeSpec.LInv(view)
    }

    constructor ()
      ensures Valid() && view == LargeSpec.NO_LARGE && fresh(Blocks())
    {
      dummyLargeBlock := new Block(0, DUMMY_PAGE, 0, false);
      nextId, stats := 0, SStats(0, 0, 0, 0, 0, 0);
      nodes, view := [], LargeSpec.NO_LARGE;
      new;
      assert BlockRings.Linked([dummyLargeBlock, dummyLargeBlock]);
      assert Linked() && fresh(Blocks());
      InitialValid();
    }

    lemma InitialValid()
      requires Linked() && view == LargeSpec.NO_LARGE
      ensures Valid()
    {
      LargeSpec.NoLargeInv(view);
    }

    /** Link the new block in front of the ring. */
    method PutFirst(block: Block)
      requires Linked() && block !in Blocks() && !block.isFree
      modifies this`nodes, this`view, block`prev, block`next, Blocks()`prev, Blocks()`next
      ensures Linked() && nodes == [block] + old(nodes)
      ensures view == old(view).(blocks := [Value(block)] + old(view.blocks))
    {
      Neighbour(dummyLargeBlock, nodes, 0);
      block.InsertBefore(dummyLargeBlock.next, dummyLargeBlock, nodes, 0);
      assert nodes[..0] + [block] + nodes[0..] == [block] + nodes;
      nodes := [block] + nodes;
      view := view.(blocks := [Value(block)] + view.blocks);
    }

    /** `sysOk` is the answer of the system allocator; a refusal changes nothing. */
    method AllocLarge(request: int, sysOk: bool) returns (block: Block?)
      requires Valid() && request >= 0
      modifies this, Blocks()
      ensures Valid() && view == LargeSpec.AllocLarge(old(view), request, sysOk).0
      ensures LargeSpec.AllocLarge(old(view), request, sysOk).1
              == if block == null then LargeSpec.LNull else LargeSpec.LGranted(Value(block))
      ensures nodes == if block == null then old(nodes) else [block] + old(nodes)
      ensures block != null ==> fresh(block)
    {
      if !sysOk {
        return null;
      }
      LargeSpec.AllocLargeKeeps(view, request, true);
      block := AddBlock(BlockBytes(request));
    }

    /** A new block from the system, linked and accounted for. */
    method AddBlock(size: int) returns (block: Block)
      requires Linked()
      modifies this, Blocks()`prev, Blocks()`next
      ensures Linked() && fresh(block) && nodes == [block] + old(nodes)
              && Value(block) == LargeSpec.LBlk(old(nextId), size)
      ensures view == LargeSpec.LState([Value(block)] + old(view.blocks), old(nextId) + 1,
              LargeSpec.AddedStats(old(stats), size))
    {
      block := new Block(nextId, DUMMY_PAGE, size, false);
      PutFirst(block);
      nextId := nextId + 1;
      stats := stats.(allocSize := stats.allocSize + size, allocCount := stats.allocCount + 1,
                      usedSize := stats.usedSize + size, dataSize := stats.dataSize + (size - BLOCK_HEADER));
      view := view.(nextId := nextId, stats := stats);
    }

    /** Unlink block `i`. */
    method TakeOut(block: Block, ghost i: nat)
      requires Linked() && i < |nodes| && nodes[i] == block
      modifies this`nodes, this`view, Blocks()`prev, Blocks()`next
      ensures Linked() && nodes == old(nodes)[..i] + old(nodes)[i + 1..]
      ensures view == old(view).(blocks := old(view.blocks)[..i] + old(view.blocks)[i + 1..])
    {
      Neighbour(dummyLargeBlock, nodes, i);
      block.RemoveLink(dummyLargeBlock, nodes, i);
      nodes := nodes[..i] + nodes[i + 1..];
      view := view.(blocks := view.blocks[..i] + view.blocks[i + 1..]);
    }

    /** Where a block of the ring stands among the values. */
    lemma Locate(block: Block) returns (i: nat)
      requires Valid() && block in nodes
      ensures i < |nodes| && nodes[i] == block
      ensures Value(block) in view.blocks && LargeSpec.IndexOfLarge(view.blocks, Value(block)) == i
    {
      i :| 0 <= i < |nodes| && nodes[i] == block;
      assert view.blocks[i] == Value(block);
      assert view.blocks[LargeSpec.IndexOfLarge(view.blocks, Value(block))].id == view.blocks[i].id;
    }

    /** The pointer given back must be a block of the ring. */
    method FreeLarge(block: Block)
      requires Valid() && block in nodes
      modifies this, Blocks()
      ensures Valid() && old(Value(block) in view.blocks)
      ensures view == LargeSpec.FreeLarge(old(view), old(Value(block)))
      ensures forall b :: b in nodes ==> b in old(nodes)
    {
      ghost var i := Locate(block);
      LargeSpec.FreeLargeKeeps(view, Value(block));
      RemoveBlock(block, i);
    }

    /** Account for block `i` and unlink it. */
    method RemoveBlock(block: Block, ghost i: nat)
      requires Linked() && i < |nodes| && nodes[i] == block
      modifies this`nodes, this`view, this`stats, Blocks()`prev, Blocks()`next
      ensures Linked() && forall b :: b in nodes ==> b in old(nodes)
      ensures view == old(view).(blocks := old(view.blocks)[..i] + old(view.blocks)[i + 1..],
                                 stats := LargeSpec.RemovedStats(old(stats), old(block.size)))
    {
      var size := block.size;
      stats := stats.(allocSize := stats.allocSize - size, freeCount := stats.freeCount + 1,
                      usedSize := stats.usedSize - size, dataSize := stats.dataSize - (size - BLOCK_HEADER));
      view := view.(stats := stats);
      TakeOut(block, i);
    }
  }
}
