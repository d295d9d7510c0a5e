/** Heap blocks and the circular, doubly linked lists they form around a dummy. */
module BlockRings {

  /** A block header. `offs` stands for its address inside its page. */
  class Block {
    const offs: int
    var size: int
    var page: int
    var isFree: bool
    var prev: Block
    var next: Block
    var prevFree: Block
    var nextFree: Block

    constructor (offs: int, page: int, size: int, isFree: bool)
      ensures this.offs == offs && this.page == page && this.size == size && this.isFree == isFree
      ensures prev == next == this && prevFree == nextFree == this
    {
      this.offs, this.page, this.size, this.isFree := offs, page, size, isFree;
      prev, next, prevFree, nextFree := this, this, this, this;
    }

    method InsertBefore(block: Block, ghost d: Block, ghost s: seq<Block>, ghost k: nat)
      requires Ring(d, s) && k <= |s| && block == At(d, s, k) && this != d && this !in s
      modifies this`prev, this`next, block`prev, block.prev`next
      ensures Ring(d, s[..k] + [this] + s[k..])
    {
      ghost var f := [d] + s + [d];
      assert f[k].next == f[k + 1] == block && block.prev == f[k];
      prev := block.prev;
      prev.next := this;
      block.prev := this;
      next := block;
      ghost var s' := s[..k] + [this] + s[k..];
      ghost var f' := [d] + s' + [d];
      forall i, j | 0 <= i && j == i + 1 && j < |f'| ensures f'[i].next == f'[j] && f'[j].prev == f'[i] {
        assert f'[i] == (if i <= k then f[i] else if i == k + 1 then this else f[i - 1]);
        assert f'[j] == (if j <= k then f[j] else if j == k + 1 then this else f[j - 1]);
      }
    }

    method InsertAfter(block: Block, ghost d: Block, ghost s: seq<Block>, ghost k: nat)
      requires Ring(d, s) && k < |s| && block == s[k] && this != d && this !in s
      modifies this`prev, this`next, block`next, block.next`prev
      ensures Ring(d, s[..k + 1] + [this] + s[k + 1..])
    {
      ghost var f := [d] + s + [d];
      assert f[k + 1] == block && block.next == f[k + 2] && f[k + 2].prev == block;
      next := block.next;
      next.prev := this;
      block.next := this;
      prev := block;
      ghost var s' := s[..k + 1] + [this] + s[k + 1..];
      ghost var f' := [d] + s' + [d];
      forall i, j | 0 <= i && j == i + 1 && j < |f'| ensures f'[i].next == f'[j] && f'[j].prev == f'[i] {
        assert f'[i] == (if i <= k + 1 then f[i] else if i == k + 2 then this else f[i - 1]);
        assert f'[j] == (if j <= k + 1 then f[j] else if j == k + 2 then this else f[j - 1]);
      }
    }

    method RemoveLink(ghost d: Block, ghost s: seq<Block>, ghost k: nat)
      requires Ring(d, s) && k < |s| && this == s[k]
      modifies prev`next, next`prev
      ensures Ring(d, s[..k] + s[k + 1..])
    {
      ghost var f := [d] + s + [d];
      assert f[k].next == f[k + 1] == this && this.prev == f[k] && this.next == f[k + 2];
      prev.next := next;
      next.prev := prev;
      ghost var s' := s[..k] + s[k + 1..];
      ghost var f' := [d] + s' + [d];
      forall i, j | 0 <= i && j == i + 1 && j < |f'| ensures f'[i].next == f'[j] && f'[j].prev == f'[i] {
        assert f'[i] == f[if i <= k then i else i + 1] && f'[j] == f[if j <= k then j else j + 1];
      }
    }

    method InsertBeforeFreeLink(block: Block, ghost d: Block, ghost s: seq<Block>, ghost k: nat)
      requires FreeRing(d, s) && k <= |s| && block == At(d, s, k) && this != d && this !in s
      modifies this`prevFree, this`nextFree, block`prevFree, block.prevFree`nextFree
      ensures FreeRing(d, s[..k] + [this] + s[k..])
    {
      ghost var f := [d] + s + [d];
      assert f[k].nextFree == f[k + 1] == block && block.prevFree == f[k];
      prevFree := block.prevFree;
      prevFree.nextFree := this;
      block.prevFree := this;
      nextFree := block;
      ghost var s' := s[..k] + [this] + s[k..];
      ghost var f' := [d] + s' + [d];
      forall i, j | 0 <= i && j == i + 1 && j < |f'| ensures f'[i].nextFree == f'[j] && f'[j].prevFree == f'[i] {
        assert f'[i] == (if i <= k then f[i] else if i == k + 1 then this else f[i - 1]);
        assert f'[j] == (if j <= k then f[j] else if j == k + 1 then this else f[j - 1]);
      }
    }

    method RemoveFreeLink(ghost d: Block, ghost s: seq<Block>, ghost k: nat)
      requires FreeRing(d, s) && k < |s| && this == s[k]
      modifies prevFree`nextFree, nextFree`prevFree
      ensures FreeRing(d, s[..k] + s[k + 1..])
    {
      ghost var f := [d] + s + [d];
      assert f[k].nextFree == f[k + 1] == this && this.prevFree == f[k] && this.nextFree == f[k + 2];
      prevFree.nextFree := nextFree;
      nextFree.prevFree := prevFree;
      ghost var s' := s[..k] + s[k + 1..];
      ghost var f' := [d] + s' + [d];
      forall i, j | 0 <= i && j == i + 1 && j < |f'| ensures f'[i].nextFree == f'[j] && f'[j].prevFree == f'[i] {
        assert f'[i] == f[if i <= k then i else i + 1] && f'[j] == f[if j <= k then j else j + 1];
      }
    }
  }

  /** The `k`-th block of a ring; past the end comes the dummy. */
  ghost function At(d: Block, s: seq<Block>, k: nat): Block
    requires k <= |s|
  {
    if k < |s| then s[k] else d
  }

  ghost predicate Distinct(d: Block, s: seq<Block>) {
    d !in s && forall i, j :: 0 <= i < j < |s| ==> s[i] != s[j]
  }

  ghost predicate Linked(f: seq<Block>)
    reads f`next, f`prev
  {
    forall i, j :: 0 <= i && j == i + 1 && j < |f| ==> f[i].next == f[j] && f[j].prev == f[i]
  }

  ghost predicate FreeLinked(f: seq<Block>)
    reads f`nextFree, f`prevFree
  {
    forall i, j :: 0 <= i && j == i + 1 && j < |f| ==> f[i].nextFree == f[j] && f[j].prevFree == f[i]
  }

  /** The blocks `s`, in this order, form a circular list with the dummy `d`. */
  ghost predicate Ring(d: Block, s: seq<Block>)
    reads d`next, d`prev, s`next, s`prev
  {
    Distinct(d, s) && Linked([d] + s + [d])
  }

  ghost predicate FreeRing(d: Block, s: seq<Block>)
    reads d`nextFree, d`prevFree, s`nextFree, s`prevFree
  {
    Distinct(d, s) && FreeLinked([d] + s + [d])
  }

  /** Following the links walks the ring. */
  lemma Neighbour(d: Block, s: seq<Block>, k: nat)
    requires Ring(d, s) && k <= |s|
    ensures d.next == At(d, s, 0)
    ensures k < |s| ==> s[k].next == At(d, s, k + 1) && s[k].prev == if k == 0 then d else s[k - 1]
    ensures At(d, s, k).prev == if k == 0 then d else s[k - 1]
  {
    var f := [d] + s + [d];
    assert f[0].next == f[1] && f[k].next == f[k + 1];
    if k < |s| {
      assert f[k + 1].next == f[k + 2];
    }
  }

  lemma FreeNeighbour(d: Block, s: seq<Block>, k: nat)
    requires FreeRing(d, s) && k <= |s|
    ensures d.nextFree == At(d, s, 0)
    ensures k < |s| ==> s[k].nextFree == At(d, s, k + 1) && s[k].prevFree == if k == 0 then d else s[k - 1]
    ensures At(d, s, k).prevFree == if k == 0 then d else s[k - 1]
  {
    var f := [d] + s + [d];
    assert f[0].nextFree == f[1] && f[k].nextFree == f[k + 1];
    if k < |s| {
      assert f[k + 1].nextFree == f[k + 2];
    }
  }
}
