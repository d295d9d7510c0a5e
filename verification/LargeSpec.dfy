/** The large tier as a value: one system allocation per block, listed for accounting. */
module LargeSpec {
  import opened HeapLayout
  import opened SmallSpec

  /** A large block; `id` stands for the address the system gave it. */
  datatype LBlk = LBlk(id: int, size: int)

  /** `nextId` stands for the next address of the system. */
  datatype LState = LState(blocks: seq<LBlk>, nextId: int, stats: SStats)

  const NO_LARGE := LState([], 0, SStats(0, 0, 0, 0, 0, 0))

  function AddedStats(st: SStats, size: int): SStats {
    st.(allocSize := st.allocSize + size, allocCount := st.allocCount + 1,
        usedSize := st.usedSize + size, dataSize := st.dataSize + (size - BLOCK_HEADER))
  }

  function RemovedStats(st: SStats, size: int): SStats {
    st.(allocSize := st.allocSize - size, freeCount := st.freeCount + 1,
        usedSize := st.usedSize - size, dataSize := st.dataSize - (size - BLOCK_HEADER))
  }

  datatype LOutcome = LNull | LGranted(block: LBlk)

  /** `sysOk` is the answer of the system allocator. */
  function AllocLarge(s: LState, request: int, sysOk: bool): (LState, LOutcome)
    requires request >= 0
  {
    if !sysOk then (s, LNull)
    else
      var b := LBlk(s.nextId, BlockBytes(request));
      (LState([b] + s.blocks, s.nextId + 1, AddedStats(s.stats, b.size)), LGranted(b))
  }

  function IndexOfLarge(bs: seq<LBlk>, b: LBlk): (i: nat)
    requires b in bs
    ensures i < |bs| && bs[i] == b
  {
    if bs[0] == b then 0 else 1 + IndexOfLarge(bs[1..], b)
  }

  function FreeLarge(s: LState, b: LBlk): LState
    requires b in s.blocks
  {
    var i := IndexOfLarge(s.blocks, b);
    s.(blocks := s.blocks[..i] + s.blocks[i + 1..], stats := RemovedStats(s.stats, b.size))
  }

  // ---------------------------------------------------------------- invariant

  function Sum(bs: seq<LBlk>): int {
    if bs == [] then 0 else bs[0].size + Sum(bs[1..])
  }

  /** The system holds exactly what is in use. */
  predicate LargeAccounted(bs: seq<LBlk>, st: SStats) {
    && st.allocSize == st.usedSize == Sum(bs)
    && st.dataSize == Sum(bs) - BLOCK_HEADER * |bs|
    && st.allocCount - st.freeCount == |bs|
  }

  ghost predicate LInv(s: LState) {
    && (forall b :: b in s.blocks ==> b.id < s.nextId && BLOCK_HEADER <= b.size)
    && (forall i, j :: 0 <= i < j < |s.blocks| ==> s.blocks[i].id != s.blocks[j].id)
    && LargeAccounted(s.blocks, s.stats)
  }

  lemma {:induction false} SumRemove(bs: seq<LBlk>, i: nat)
    requires i < |bs|
    ensures Sum(bs[..i] + bs[i + 1..]) == Sum(bs) - bs[i].size
  {
    if i == 0 {
      assert bs[..0] + bs[1..] == bs[1..];
    } else {
      SumRemove(bs[1..], i - 1);
      var r := bs[..i] + bs[i + 1..];
      assert r[0] == bs[0] && r[1..] == bs[1..][..i - 1] + bs[1..][i..];
    }
  }

  /** Every block has its header, so no sum is below the headers. */
  lemma {:induction false} SumFloor(bs: seq<LBlk>)
    requires forall b :: b in bs ==> BLOCK_HEADER <= b.size
    ensures BLOCK_HEADER * |bs| <= Sum(bs)
  {
    if bs != [] {
      SumFloor(bs[1..]);
    }
  }

  lemma NoLargeInv(s: LState)
    requires s == NO_LARGE
    ensures LInv(s)
  {
    assert s.blocks == [];
  }

  lemma AllocLargeKeeps(s: LState, request: int, sysOk: bool)
    requires LInv(s) && request >= 0
    ensures LInv(AllocLarge(s, request, sysOk).0)
  {
    var b := LBlk(s.nextId, BlockBytes(request));
    assert ([b] + s.blocks)[1..] == s.blocks;
  }

  lemma LargeMembers(bs: seq<LBlk>, i: nat)
    requires i < |bs| && forall i, j :: 0 <= i < j < |bs| ==> bs[i].id != bs[j].id
    ensures forall x :: x in bs[..i] + bs[i + 1..] <==> x in bs && x != bs[i]
  {
    var r := bs[..i] + bs[i + 1..];
    forall x | x in bs && x != bs[i] ensures x in r {
      var k :| 0 <= k < |bs| && bs[k] == x;
      assert r[if k < i then k else k - 1] == x;
    }
  }

  /** Exactly the given block leaves, and the accounts follow. */
  lemma FreeLargeKeeps(s: LState, b: LBlk)
    requires LInv(s) && b in s.blocks
    ensures LInv(FreeLarge(s, b))
    ensures forall x :: x in FreeLarge(s, b).blocks <==> x in s.blocks && x != b
  {
    var i := IndexOfLarge(s.blocks, b);
    var r := s.blocks[..i] + s.blocks[i + 1..];
    LargeMembers(s.blocks, i);
    SumRemove(s.blocks, i);
    assert forall k :: 0 <= k < |r| ==> r[k] == s.blocks[if k < i then k else k + 1];
  }
}
