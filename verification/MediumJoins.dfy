/** The two joins of a free, one after the other, and the single merge of the specification. */
module MediumJoins {
  import opened HeapLayout
  import opened MediumSpec
  import opened MediumProofs
  import opened MediumTheorems

  /** What makes an address identify a block: no two headers agree, and no page bears the dummy's id. */
  ghost predicate Addressed(bs: seq<Blk>) {
    NoDup(bs) && forall b :: b in bs ==> b.page < DUMMY_PAGE && 0 <= b.size <= PAGE_SIZE
  }

  lemma LayoutAddressed(bs: seq<Blk>, nextPage: int)
    requires Layout(bs, nextPage)
    ensures Addressed(bs)
  {
    LayoutOrdered(bs, nextPage);
  }

  /** Block list with block `j` grown over its successor. */
  function Joined(bs: seq<Blk>, j: nat): seq<Blk>
    requires j + 1 < |bs|
  {
    bs[..j] + [bs[j].(size := bs[j].size + bs[j + 1].size)] + bs[j + 2..]
  }

  /** Block `i - 1`, if it joins, is in the ring. */
  ghost predicate LowerReady(m: State, i: nat) {
    i < |m.blocks| && (MergesDown(m.blocks, i) ==> m.blocks[i - 1] in m.ring)
  }

  ghost predicate UpperReady(m: State, j: nat) {
    j < |m.blocks| && (MergesUp(m.blocks, j) ==> m.blocks[j + 1] in m.ring)
  }

  /** The state after the join with the block before. */
  function LowerState(m: State, i: nat): State
    requires LowerReady(m, i)
  {
    if !MergesDown(m.blocks, i) then m
    else m.(blocks := Joined(m.blocks, i - 1), ring := Without(m.ring, m.blocks[i - 1]),
            stats := m.stats.(mergeCount := m.stats.mergeCount + 1))
  }

  /** The state after the join with the block behind. */
  function UpperState(m: State, j: nat): State
    requires UpperReady(m, j)
  {
    if !MergesUp(m.blocks, j) then m
    else m.(blocks := Joined(m.blocks, j), ring := Without(m.ring, m.blocks[j + 1]),
            stats := m.stats.(mergeCount := m.stats.mergeCount + 1))
  }

  /** `Free` up to the ring insertion, in the order of the source: account, join below, join above, mark. */
  ghost predicate JoinsReady(m: State, i: nat) {
    && Addressed(m.blocks) && LowerReady(m, i)
    && var low, j := LowerState(m, i), MergedLow(m.blocks, i);
       Addressed(low.blocks) && NoDup(low.ring) && UpperReady(low, j) && j < |UpperState(low, j).blocks|
  }

  ghost function JoinedState(m: State, i: nat): State
    requires JoinsReady(m, i)
  {
    var j := MergedLow(m.blocks, i);
    var all := UpperState(LowerState(m.(stats := m.stats.RegisterFree(m.blocks[i].size)), i), j);
    all.(blocks := all.blocks[j := all.blocks[j].(free := true)])
  }

  lemma StatsDoNotMatter(m: State, i: nat, st: Stats)
    requires JoinsReady(m, i)
    ensures JoinsReady(m.(stats := st), i)
  {
  }

  lemma LowerFacts(m: State, i: nat)
    requires Inv(m) && i < |m.blocks| && !m.blocks[i].free
    ensures LowerReady(m, i) && Addressed(m.blocks)
    ensures Addressed(LowerState(m, i).blocks) && NoDup(LowerState(m, i).ring)
  {
    LayoutAddressed(m.blocks, m.nextPage);
    if MergesDown(m.blocks, i) {
      assert m.blocks[i - 1] in m.blocks;
      RemoveMembers(m.ring, IndexOf(m.ring, m.blocks[i - 1]));
      JoinedAddressed(m.blocks, m.nextPage, i - 1);
    }
  }

  lemma JoinedAddressed(bs: seq<Blk>, nextPage: int, j: nat)
    requires Layout(bs, nextPage) && j + 1 < |bs| && bs[j].page == bs[j + 1].page
    ensures Addressed(Joined(bs, j))
  {
    LayoutOrdered(bs, nextPage);
    InsidePage(bs, nextPage, j + 1);
    Neighbours(bs, nextPage, j);
    assert bs[j] in bs && bs[j + 1] in bs;
    var r := Joined(bs, j);
    var x := r[j];
    forall i | 0 <= i < |r| && i != j ensures r[i] in bs && r[i] != x {
      assert r[i] == bs[if i < j then i else i + 1];
      assert Before(r[i], bs[j]) || Before(bs[j], r[i]);
    }
  }

  lemma LowerJoinFacts(m: State, i: nat)
    requires LowerReady(m, i)
    ensures var bs, low, j := m.blocks, LowerState(m, i).blocks, MergedLow(m.blocks, i);
            && |low| - j == |bs| - i && low[..j] == bs[..j] && low[j + 1..] == bs[i + 1..]
            && low[j] == Merged(bs, i).(size := Merged(bs, i).size - (if MergesUp(bs, i) then bs[i + 1].size else 0),
               free := low[j].free)
            && (MergesUp(low, j) <==> MergesUp(bs, i))
  {
    var bs, low, j := m.blocks, LowerState(m, i).blocks, MergedLow(m.blocks, i);
    assert low[j + 1..] == bs[i + 1..];
    assert i + 1 < |bs| ==> low[j + 1..][0] == bs[i + 1..][0];
  }

  lemma UpperFacts(m: State, i: nat)
    requires Inv(m) && i < |m.blocks| && !m.blocks[i].free && LowerReady(m, i)
    ensures UpperReady(LowerState(m, i), MergedLow(m.blocks, i))
  {
    var bs, low, j := m.blocks, LowerState(m, i), MergedLow(m.blocks, i);
    LowerJoinFacts(m, i);
    if MergesUp(low.blocks, j) {
      assert low.blocks[j + 1..][0] == bs[i + 1..][0];
      assert bs[i + 1] in bs && bs[i + 1] in m.ring;
      if MergesDown(bs, i) {
        LayoutOrdered(bs, m.nextPage);
        assert Before(bs[i - 1], bs[i + 1]);
        RemoveMembers(m.ring, IndexOf(m.ring, bs[i - 1]));
      }
    }
  }

  /** The two joins of the source are the one merge of the specification. */
  lemma JoinsAreCoalesce(m: State, i: nat)
    requires Inv(m) && i < |m.blocks| && !m.blocks[i].free
    ensures Ordered(m.blocks) && JoinsReady(m, i) && JoinedState(m, i) == Coalesce(m, i)
    ensures MergedLow(m.blocks, i) < |Coalesce(m, i).blocks|
            && Coalesce(m, i).blocks[MergedLow(m.blocks, i)] == Merged(m.blocks, i)
  {
    LayoutOrdered(m.blocks, m.nextPage);
    JoinsAreReady(m, i);
    JoinedParts(m, i);
  }

  lemma JoinsAreReady(m: State, i: nat)
    requires Inv(m) && i < |m.blocks| && !m.blocks[i].free
    ensures JoinsReady(m, i)
  {
    LowerFacts(m, i);
    UpperFacts(m, i);
    JoinedBlocks(m, i);
  }

  lemma JoinedParts(m: State, i: nat)
    requires JoinsReady(m, i) && RingHoldsFree(m.blocks, m.ring) && Ordered(m.blocks)
    ensures JoinedState(m, i) == Coalesce(m, i)
    ensures MergedLow(m.blocks, i) < |Coalesce(m, i).blocks|
            && Coalesce(m, i).blocks[MergedLow(m.blocks, i)] == Merged(m.blocks, i)
  {
    JoinedBlocks(m, i);
    LowerJoinFacts(m, i);
  }

  lemma JoinedBlocks(m: State, i: nat)
    requires LowerReady(m, i) && UpperReady(LowerState(m, i), MergedLow(m.blocks, i))
    ensures var all, j := UpperState(LowerState(m, i), MergedLow(m.blocks, i)).blocks, MergedLow(m.blocks, i);
            && j < |all|
            && all[j := all[j].(free := true)]
               == m.blocks[..j] + [Merged(m.blocks, i)] + m.blocks[MergedHigh(m.blocks, i)..]
  {
    LowerJoinFacts(m, i);
    var low, j := LowerState(m, i).blocks, MergedLow(m.blocks, i);
    if MergesUp(low, j) {
      assert low[j + 1..][0] == m.blocks[i + 1..][0];
      assert low[j + 2..] == low[j + 1..][1..] == m.blocks[i + 1..][1..] == m.blocks[i + 2..];
    }
  }
}
