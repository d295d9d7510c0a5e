/** The small tier over linked free lists, method by method as the source has it. */
module SmallHeap {
  import opened HeapLayout
  import opened SmallSpec
  import opened SmallProofs
  import opened SmallTheorems

  /** A small block header; (page, offs) stands for its address. */
  class SmallBlock {
    const page: int
    const offs: int
    var sizeSlot: int
    var next: SmallBlock?

    constructor (page: int, offs: int, sizeSlot: int)
      ensures Value(this) == SBlk(page, offs, sizeSlot)
    {
      this.page, this.offs, this.sizeSlot, this.next := page, offs, sizeSlot, null;
    }
  }

  ghost function Value(b: SmallBlock): SBlk
    reads b`sizeSlot
  {
    SBlk(b.page, b.offs, b.sizeSlot)
  }

  /** `s` is the null-terminated list that starts at `head`, and `v` its value. */
  ghost predicate IsList(head: SmallBlock?, s: seq<SmallBlock>, v: seq<SBlk>)
    reads s
  {
    && head == (if s == [] then null else s[0])
    && |s| == |v| && (forall j :: 0 <= j < |s| ==> Value(s[j]) == v[j])
    && (forall i, j :: 0 <= i && j == i + 1 && j < |s| ==> s[i].next == s[j])
    && (s != [] ==> s[|s| - 1].next == null)
  }

  lemma ListTail(head: SmallBlock?, s: seq<SmallBlock>, v: seq<SBlk>)
    requires IsList(head, s, v) && s != []
    ensures IsList(s[0].next, s[1..], v[1..])
  {
    if |s| > 1 {
      assert s[0].next == s[1];
    }
  }

  lemma ListCons(b: SmallBlock, s: seq<SmallBlock>, v: seq<SBlk>)
    requires IsList(b.next, s, v)
    ensures IsList(b, [b] + s, [Value(b)] + v)
  {
  }

  class SmallTier {
    const freeSmallBlocks: array<SmallBlock?>
    var pageNo: int          // number of the current page, 0 for the dummy page
    var pageSize: int
    var smallPageOffs: int
    var stats: SStats
    ghost var lists: seq<seq<SmallBlock>>
    ghost var nodes: set<SmallBlock>  // every block header made so far
    ghost var view: SState

    /** The pointer structure is what `view` says. */
    ghost predicate Linked()
      reads this, freeSmallBlocks, nodes
    {
      && freeSmallBlocks.Length == |lists| == |view.lists| == SLOT_COUNT
      && pageNo == view.pages && pageSize == view.pageSize && smallPageOffs == view.bump && stats == view.stats
      && (forall k, b :: 0 <= k < SLOT_COUNT && b in lists[k] ==> b in nodes)
      && forall k :: 0 <= k < SLOT_COUNT ==> IsList(freeSmallBlocks[k], lists[k], view.lists[k])
    }

    ghost predicate Unlisted(b: SmallBlock)
      reads this
    {
      forall k :: 0 <= k < |lists| ==> b !in lists[k]
    }

    ghost predicate Valid()
      reads this, freeSmallBlocks, nodes
    {
      Linked() && SInv(view)
    }

    constructor ()
      ensures Valid() && view == SmallEmpty() && fresh(freeSmallBlocks) && nodes == {}
    {
      freeSmallBlocks := new SmallBlock?[SLOT_COUNT](_ => null);
      pageNo, pageSize, smallPageOffs := 0, 0, 0;
      stats := SStats(0, 0, 0, 0, 0, 0);
      lists, nodes := seq(SLOT_COUNT, _ => []), {};
      view := SmallEmpty();
      new;
      assert Linked();
      InitialValid();
    }

    /** Put a block that is on no list in front of the list of its slot. */
    method PushBlock(b: SmallBlock)
      requires Linked() && 0 <= b.sizeSlot < SLOT_COUNT && Unlisted(b) && b in nodes
      modifies this`lists, this`view, freeSmallBlocks, b`next
      ensures Linked() && view == old(view).(lists := Push(old(view.lists), Value(b)))
    {
      var i := b.sizeSlot;
      b.next := freeSmallBlocks[i];
      assert forall k :: 0 <= k < SLOT_COUNT ==> IsList(freeSmallBlocks[k], lists[k], view.lists[k]);
      ListCons(b, lists[i], view.lists[i]);
      freeSmallBlocks[i] := b;
      lists := lists[i := [b] + lists[i]];
      view := view.(lists := Push(view.lists, Value(b)));
    }

    /** Take the head of list `i`. */
    method PopBlock(i: int) returns (b: SmallBlock)
      requires Linked() && 0 <= i < SLOT_COUNT && view.lists[i] != []
      modifies this`lists, this`view, freeSmallBlocks
      ensures Linked() && b in nodes && Value(b) == old(view.lists[i][0])
      ensures view == old(view).(lists := old(view.lists)[i := old(view.lists)[i][1..]])
    {
      assert IsList(freeSmallBlocks[i], lists[i], view.lists[i]);
      ListTail(freeSmallBlocks[i], lists[i], view.lists[i]);
      b := freeSmallBlocks[i];
      freeSmallBlocks[i] := b.next;
      assert b in lists[i];
      lists := lists[i := lists[i][1..]];
      view := view.(lists := view.lists[i := view.lists[i][1..]]);
    }

    /** List the tail of the page if it is worth it. */
    method SalvageTail(size: int)
      requires Linked() && WellFormed(view) && size < SLOT_COUNT * ALIGN + ALIGN && pageSize - smallPageOffs < size
      modifies this`lists, this`nodes, this`view, freeSmallBlocks
      ensures Linked() && view == Salvage(old(view), size)
      ensures old(nodes) <= nodes && fresh(nodes - old(nodes))
    {
      var freePageSize := pageSize - smallPageOffs;
      if freePageSize > 2 * ALIGN {
        var b := new SmallBlock(pageNo, smallPageOffs, freePageSize / ALIGN - 1);
        nodes := nodes + {b};
        PushBlock(b);
        view := view.(carved := view.carved + [Value(b)]);
      }
    }

    /** Cut a block at the bump pointer. */
    method BumpBlock(size: int) returns (b: SmallBlock)
      requires Linked() && size % ALIGN == 0 && ALIGN <= size < SLOT_COUNT * ALIGN + ALIGN
      modifies this`smallPageOffs, this`nodes, this`view
      ensures Linked() && fresh(b) && (view, Value(b)) == Bump(old(view), size) && nodes == old(nodes) + {b}
    {
      b := new SmallBlock(pageNo, smallPageOffs, size / ALIGN - 1);
      nodes := nodes + {b};
      smallPageOffs := smallPageOffs + size;
      view := view.(bump := view.bump + size, carved := view.carved + [Value(b)]);
    }

    /** Cut a block off the current page, or off a new one if the system has it. */
    method CutBlock(size: int, sysOk: bool) returns (b: SmallBlock?)
      requires Linked() && WellFormed(view) && size % ALIGN == 0 && ALIGN <= size < SLOT_COUNT * ALIGN + ALIGN
      modifies this, freeSmallBlocks
      ensures Linked() && old(nodes) <= nodes && fresh(nodes - old(nodes)) && (b != null ==> b in nodes)
      ensures var s := old(view);
              if s.pageSize - s.bump >= size then b != null
                  && (view, Value(b)) == Bump(s.(stats := s.stats.Hit()), size)
              else if !sysOk then b == null && view == Salvage(s, size)
              else b != null && (view, Value(b)) == Bump(SmallSpec.NewPage(Salvage(s, size)), size)
    {
      if pageSize - smallPageOffs < size {
        SalvageTail(size);
        if !sysOk {
          return null;
        }
        pageNo, pageSize, smallPageOffs := pageNo + 1, PAGE_SIZE, SMALL_PAGE_HEADER;
        stats := stats.(allocSize := stats.allocSize + PAGE_SIZE);
        view := SmallSpec.NewPage(view);
      } else {
        stats := stats.Hit();
        view := view.(stats := stats);
      }
      b := BumpBlock(size);
    }

    /** A small request; null when a page was needed and the system refused. */
    method AllocSmall(request: int, sysOk: bool) returns (b: SmallBlock?)
      requires Linked() && WellFormed(view) && 0 < request <= MAX_SMALL_SIZE
      modifies this, freeSmallBlocks
      ensures Linked() && view == SmallSpec.AllocSmall(old(view), request, sysOk).0
      ensures SmallSpec.AllocSmall(old(view), request, sysOk).1 == if b == null then SNull else SGranted(Value(b))
      ensures old(nodes) <= nodes && fresh(nodes - old(nodes)) && (b != null ==> b in nodes)
      ensures old(SInv(view)) && (sysOk || Harmless(old(view), request)) ==> Valid()
    {
      ghost var s := view;
      b := AllocBlock(request, sysOk);
      if SInv(s) && (sysOk || Harmless(s, request)) {
        AllocSmallKeeps(s, request, sysOk);
      }
    }

    /** The same on what the code needs: a refusal may have broken the invariant before. */
    method AllocBlock(request: int, sysOk: bool) returns (b: SmallBlock?)
      requires Linked() && WellFormed(view) && 0 < request <= MAX_SMALL_SIZE
      modifies this, freeSmallBlocks
      ensures Linked() && view == SmallSpec.AllocSmall(old(view), request, sysOk).0
      ensures SmallSpec.AllocSmall(old(view), request, sysOk).1 == if b == null then SNull else SGranted(Value(b))
      ensures old(nodes) <= nodes && fresh(nodes - old(nodes)) && (b != null ==> b in nodes)
    {
      var size := SmallBytes(request);
      var i := size / ALIGN - 1;
      assert IsList(freeSmallBlocks[i], lists[i], view.lists[i]);
      if freeSmallBlocks[i] != null {
        b := PopBlock(i);
        stats := stats.Hit();
        view := view.(stats := stats);
      } else {
        b := CutBlock(size, sysOk);
        if b == null {
          return;
        }
      }
      stats := stats.RegisterAlloc(SBlk(b.page, b.offs, b.sizeSlot));
      view := view.(stats := stats, live := view.live + {Value(b)});
    }

    /** Give a live block back. */
    method FreeSmall(b: SmallBlock)
      requires Valid() && b in nodes && Value(b) in view.live
      modifies this, freeSmallBlocks, b`next
      ensures Valid() && Fine(Value(b)) && view == SmallSpec.FreeSmall(old(view), Value(b))
      ensures nodes == old(nodes)
    {
      FreeSmallKeeps(view, Value(b));
      LiveUnlisted(b);
      ReturnBlock(b);
    }

    method ReturnBlock(b: SmallBlock)
      requires Linked() && 0 <= b.sizeSlot < SLOT_COUNT && Unlisted(b) && b in nodes
      modifies this`lists, this`view, this`stats, freeSmallBlocks, b`next
      ensures Linked() && view == SmallSpec.FreeSmall(old(view), Value(b))
    {
      stats := stats.RegisterFree(SBlk(b.page, b.offs, b.sizeSlot));
      view := view.(stats := stats, live := view.live - {Value(b)});
      PushBlock(b);
    }

    /** A live block is on no list. */
    lemma LiveUnlisted(b: SmallBlock)
      requires Valid() && Value(b) in view.live
      ensures Unlisted(b)
    {
      forall k | 0 <= k < |lists| ensures b !in lists[k] {
        assert IsList(freeSmallBlocks[k], lists[k], view.lists[k]);
        assert forall j :: 0 <= j < |lists[k]| ==> view.lists[k][j] in view.lists[k];
      }
    }

    lemma InitialValid()
      requires Linked() && view == SmallEmpty()
      ensures Valid()
    {
      SmallEmptyInv(view);
    }
  }
}
