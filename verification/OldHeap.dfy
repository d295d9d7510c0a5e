/** The older heap as an object: lists, records and counters changed in place. */
module OldHeap {
  import opened OldSpec
  import opened OldProofs
  import opened OldTheorems

  function Round8(size: nat): nat {
    (size + 7) / 8 * 8
  }

  /** Every header says how much was asked for, rounded up. */
  predicate HeadersOk(ds: seq<Desc>, info: map<nat, Page>, headers: map<nat, nat>, large: seq<Large>) {
    (forall p :: p in info ==>
       info[p].index < |ds| && p in headers && headers[p] == Round8(PageBytes(ds[info[p].index])))
    && forall k :: 0 <= k < |large| ==> large[k].addr in headers && headers[large[k].addr] == Round8(large[k].size)
  }

  /** Counting a page up or down does not concern the headers. */
  lemma HeadersCounted(ds: seq<Desc>, info: map<nat, Page>, p: nat, x: Page, headers: map<nat, nat>, large: seq<Large>)
    requires HeadersOk(ds, info, headers, large) && p in info && x.index == info[p].index
    ensures HeadersOk(ds, info[p := x], headers, large)
  {
  }

  lemma HeadersPaged(ds: seq<Desc>, info: map<nat, Page>, p: nat, x: Page, headers: map<nat, nat>, large: seq<Large>)
    requires HeadersOk(ds, info, headers, large) && p !in info && x.index < |ds|
    requires forall k :: 0 <= k < |large| ==> large[k].addr != p
    ensures HeadersOk(ds, info[p := x], headers[p := Round8(PageBytes(ds[x.index]))], large)
  {
  }

  // ---------------------------------------------------------------- facts for the loops

  /**
   * The walk over a page list: `list` is what is left of `was`, its first `k` pages are staying, `gone` is released.
   */
  ghost predicate Walking(d: Desc, info: map<nat, Page>, was: seq<nat>, list: seq<nat>, k: nat, gone: seq<nat>) {
    k <= |list| && Distinct(list) && (forall p :: p in list ==> p in was && p !in gone)
    && list[..k] + KeptPages(d, info, list[k..]) == KeptPages(d, info, was)
    && gone + FullPages(d, info, list[k..]) == FullPages(d, info, was)
  }

  lemma WalkStarts(d: Desc, info: map<nat, Page>, was: seq<nat>)
    requires Distinct(was)
    ensures Walking(d, info, was, was, 0, [])
  {
    assert was[0..] == was;
    assert was[..0] + KeptPages(d, info, was) == KeptPages(d, info, was);
    assert [] + FullPages(d, info, was) == FullPages(d, info, was);
  }

  lemma WalkReleases(d: Desc, info: map<nat, Page>, was: seq<nat>, list: seq<nat>, k: nat, gone: seq<nat>)
    requires Walking(d, info, was, list, k, gone) && k < |list| && Full(d, info, list[k])
    ensures Walking(d, info, was, list[..k] + list[k + 1..], k, gone + [list[k]])
  {
    CutAt(list, k);
    assert gone + ([list[k]] + FullPages(d, info, list[k + 1..]))
           == (gone + [list[k]]) + FullPages(d, info, list[k + 1..]);
  }

  lemma WalkKeeps(d: Desc, info: map<nat, Page>, was: seq<nat>, list: seq<nat>, k: nat, gone: seq<nat>)
    requires Walking(d, info, was, list, k, gone) && k < |list| && !Full(d, info, list[k])
    ensures Walking(d, info, was, list, k + 1, gone)
  {
    CutAt(list, k);
    assert list[..k] + ([list[k]] + KeptPages(d, info, list[k + 1..]))
           == list[..k + 1] + KeptPages(d, info, list[k + 1..]);
  }

  lemma WalkEnds(d: Desc, info: map<nat, Page>, was: seq<nat>, list: seq<nat>, gone: seq<nat>)
    requires Walking(d, info, was, list, |list|, gone)
    ensures list == KeptPages(d, info, was) && gone == FullPages(d, info, was)
  {
    assert list[..|list|] + [] == list && gone + [] == gone;
  }

  /** A class has a fully cached page iff its block list holds a block of one. */
  lemma FoundFull(ds: seq<Desc>, st: State, i: nat)
    requires Inv(ds, st) && i < |ds|
    ensures |KeptBlocks(ds[i], st.info, st.cached[i])| < |st.cached[i]|
            <==> FullPages(ds[i], st.info, st.pages[i]) != []
  {
    var gone := FullPages(ds[i], st.info, st.pages[i]);
    KeptPagesAre(ds[i], st.info, st.pages[i]);
    KeptShorter(ds[i], st.info, st.cached[i]);
    if gone != [] {
      var p := gone[0];
      assert p in gone;
      PresentOf(st.cached[i], p);
    }
  }

  lemma {:induction false} PresentOf(list: seq<Block>, p: nat)
    requires CountOn(list, p) > 0
    ensures exists b :: b in list && b.page == p
  {
    if list[0].page != p {
      PresentOf(list[1..], p);
      var b :| b in list[1..] && b.page == p;
      assert b in list;
    } else {
      assert list[0] in list;
    }
  }

  lemma {:induction false} KeptShorter(d: Desc, info: map<nat, Page>, list: seq<Block>)
    ensures |KeptBlocks(d, info, list)| <= |list|
    ensures |KeptBlocks(d, info, list)| < |list| <==> exists b :: b in list && Full(d, info, b.page)
  {
    if list != [] {
      KeptShorter(d, info, list[1..]);
      assert forall b :: b in list <==> b == list[0] || b in list[1..];
    }
  }

  /** Nothing is released from a class without fully cached pages. */
  lemma NothingFull(ds: seq<Desc>, st: State, i: nat)
    requires Inv(ds, st) && i < |ds| && FullPages(ds[i], st.info, st.pages[i]) == []
    ensures ReleaseClass(ds, st, i) == st
  {
    var t := ReleaseClass(ds, st, i);
    FoundFull(ds, st, i);
    ReleaseTrims(ds, st, i);
    assert t.info == st.info;
    OnPagesAll(st.cached[i], st.info);
    AmongAll(st.pages[i], st.info);
  }

  // ---------------------------------------------------------------- the heap

  class Heap {
    const ds: seq<Desc>
    var pages: seq<seq<nat>>
    var info: map<nat, Page>
    var cached: seq<seq<Block>>
    var cachedBytes: int
    var allocatedBytes: int
    var maxAllocatedBytes: int
    var mallocs: nat
    var frees: nat
    const pageMap: array<int>
    /** The size in the header of every piece taken from the system. */
    var headers: map<nat, nat>
    ghost var large: seq<Large>

    constructor (ds: seq<Desc>)
      requires DescsOk(ds)
      ensures Valid() && this.ds == ds && View() == EmptyHeap(ds) && fresh(pageMap)
    {
      this.ds := ds;
      pages, cached, info, headers, large := Lists(|ds|), Lists(|ds|), map[], map[], [];
      cachedBytes, allocatedBytes, maxAllocatedBytes, mallocs, frees := 0, 0, 0, 0, 0;
      pageMap := new int[ds[|ds| - 1].size + 1](_ => -1);
      EmptyInv(ds);
    }

    ghost function View(): State
      reads this
    {
      State(pages, info, cached, large, cachedBytes, allocatedBytes, frees)
    }

    /** The memo of classes by size is empty or right. */
    ghost predicate MemoOk()
      reads pageMap
    {
      DescsOk(ds) && pageMap.Length == ds[|ds| - 1].size + 1
      && forall s :: 0 <= s < pageMap.Length ==> pageMap[s] == -1 || (s > 0 && pageMap[s] == ClassOf(ds, s) < |ds|)
    }

    ghost predicate Valid()
      reads this, pageMap
    {
      Inv(ds, View()) && HeadersOk(ds, info, headers, large) && MemoOk()
    }

    // -------------------------------------------------------------- the system's pieces

    method StdAlloc(size: nat, addr: nat)
      modifies this`mallocs, this`headers, this`allocatedBytes, this`maxAllocatedBytes
      ensures headers == old(headers)[addr := Round8(size)] && allocatedBytes == old(allocatedBytes) + StdBytes(size)
      ensures maxAllocatedBytes
              == if old(maxAllocatedBytes) < allocatedBytes then allocatedBytes else old(maxAllocatedBytes)
      ensures mallocs == old(mallocs) + 1
    {
      mallocs := mallocs + 1;
      var rounded := (size + 7) / 8 * 8;
      headers := headers[addr := rounded];
      allocatedBytes := allocatedBytes + rounded + STD_HEADER;
      if maxAllocatedBytes < allocatedBytes {
        maxAllocatedBytes := allocatedBytes;
      }
    }

    method StdFree(addr: nat)
      requires addr in headers
      modifies this`frees, this`headers, this`allocatedBytes
      ensures headers == old(headers) - {addr} && frees == old(frees) + 1
      ensures allocatedBytes == old(allocatedBytes) - old(headers)[addr] - STD_HEADER
    {
      frees := frees + 1;
      allocatedBytes := allocatedBytes - (headers[addr] + STD_HEADER);
      headers := headers - {addr};
    }

    // -------------------------------------------------------------- blocks

    method Unhook(i: nat) returns (b: Block)
      requires i < |ds| && i < |cached| && cached[i] != [] && cached[i][0].page in info
               && info[cached[i][0].page].numCached > 0
      modifies this`mallocs, this`cached, this`info, this`cachedBytes
      ensures (View(), b) == TakeCached(ds, old(View()), i)
    {
      mallocs := mallocs + 1;
      b := cached[i][0];
      cached := cached[i := cached[i][1..]];
      var page := info[b.page];
      info := info[b.page := page.(numCached := page.numCached - 1)];
      cachedBytes := cachedBytes - (ds[i].size + BLOCK_HEADER);
    }

    method AllocFromCachedBlock(i: nat) returns (b: Block)
      requires Valid() && i < |ds| && cached[i] != []
      modifies this`mallocs, this`cached, this`info, this`cachedBytes
      ensures Valid() && (View(), b) == TakeFrom(ds, old(View()), i)
    {
      HeadOk(ds, View(), i);
      TakeKeeps(ds, View(), i);
      ghost var page := info[cached[i][0].page];
      HeadersCounted(ds, info, cached[i][0].page, page.(numCached := page.numCached - 1), headers, large);
      b := Unhook(i);
    }

    /** The loop that threads the blocks of a new page onto the list. */
    method ThreadBlocks(i: nat, addr: nat)
      requires i < |ds| && i < |cached|
      modifies this`cached
      ensures cached == old(cached)[i := BlocksOf(addr, ds[i].count) + old(cached)[i]]
    {
      var j := 0;
      ghost var rest := cached[i];
      assert BlocksOf(addr, 0) + rest == rest;
      assert cached == cached[i := rest];
      while j < ds[i].count
        invariant 0 <= j <= ds[i].count && |cached| == |old(cached)|
        invariant cached == old(cached)[i := BlocksOf(addr, j) + rest]
      {
        cached := cached[i := [Block(addr, j)] + cached[i]];
        assert [Block(addr, j)] + (BlocksOf(addr, j) + rest) == BlocksOf(addr, j + 1) + rest;
        j := j + 1;
      }
    }

    method AllocFromPageType(i: nat, addr: nat) returns (b: Block)
      requires Valid() && i < |ds| && Fresh(View(), addr)
      modifies this
      ensures Valid() && large == old(large) && (View(), b) == AllocClass(ds, old(View()), i, addr)
    {
      if cached[i] == [] {
        AddPageKeeps(ds, View(), i, addr);
        NewPage(i, addr);
      }
      b := AllocFromCachedBlock(i);
    }

    method NewPage(i: nat, addr: nat)
      requires Valid() && i < |ds| && Fresh(View(), addr)
      modifies this
      ensures Valid() && large == old(large) && View() == AddPage(ds, old(View()), i, addr)
    {
      AddPageKeeps(ds, View(), i, addr);
      HeadersPaged(ds, info, addr, Page(i, ds[i].count), headers, large);
      BuildPage(i, addr);
    }

    method BuildPage(i: nat, addr: nat)
      requires i < |ds| && i < |cached| && i < |pages|
      modifies this
      ensures large == old(large) && View() == AddPage(ds, old(View()), i, addr)
      ensures headers == old(headers)[addr := Round8(PageBytes(ds[i]))]
    {
      var bytes := PageBytes(ds[i]);
      StdAlloc(bytes, addr);
      pages := pages[i := [addr] + pages[i]];
      info := info[addr := Page(i, ds[i].count)];
      cachedBytes := cachedBytes + bytes;
      ThreadBlocks(i, addr);
    }

    method Hook(b: Block)
      requires b.page in info && info[b.page].index < |ds| && info[b.page].index < |cached|
      modifies this`frees, this`cachedBytes, this`cached, this`info
      ensures View() == PutBack(ds, old(View()), b)
    {
      frees := frees + 1;
      var page := info[b.page];
      cachedBytes := cachedBytes + (ds[page.index].size + BLOCK_HEADER);
      cached := cached[page.index := [b] + cached[page.index]];
      info := info[b.page := page.(numCached := page.numCached + 1)];
    }

    method FreeMemBlock(b: Block)
      requires Valid() && Live(ds, View(), b)
      modifies this`frees, this`cachedBytes, this`cached, this`info
      ensures Valid() && View() == PutBack(ds, old(View()), b)
    {
      PutKeeps(ds, View(), b);
      HeadersCounted(ds, info, b.page, info[b.page].(numCached := info[b.page].numCached + 1), headers, large);
      Hook(b);
    }

    // -------------------------------------------------------------- bulk release

    /** Take the blocks of fully cached pages off the list of a class. */
    method UnlinkBlocks(i: nat) returns (found: bool)
      requires i < |ds| && i < |cached| && forall k :: 0 <= k < |cached[i]| ==> cached[i][k].page in info
      modifies this`cached
      ensures cached == old(cached)[i := KeptBlocks(ds[i], info, old(cached)[i])]
      ensures found <==> |cached[i]| < |old(cached)[i]|
    {
      var list := cached[i];
      var k := 0;
      found := false;
      assert list[..0] == [] && list[0..] == list;
      while k < |list|
        invariant 0 <= k <= |list| && (forall j :: 0 <= j < |list| ==> list[j].page in info)
        invariant list[..k] + KeptBlocks(ds[i], info, list[k..]) == KeptBlocks(ds[i], info, cached[i])
        invariant |list| <= |cached[i]| && (found <==> |list| < |cached[i]|)
        decreases |list| - k
      {
        if info[list[k].page].numCached == ds[i].count {
          found := true;
          assert (list[..k] + list[k + 1..])[..k] == list[..k] && (list[..k] + list[k + 1..])[k..] == list[k..][1..];
          list := list[..k] + list[k + 1..];
        } else {
          assert list[k..][1..] == list[k + 1..];
          assert list[..k + 1] == list[..k] + [list[k]];
          assert list[..k] + ([list[k]] + KeptBlocks(ds[i], info, list[k + 1..]))
                 == list[..k + 1] + KeptBlocks(ds[i], info, list[k + 1..]);
          k := k + 1;
        }
      }
      assert list[..k] + [] == list;
      cached := cached[i := list];
    }

    /** Give one page back: its record and its header go. */
    method ReleasePage(i: nat, p: nat)
      requires i < |ds| && p in info && p in headers && headers[p] == Round8(PageBytes(ds[i]))
      modifies this`info, this`headers, this`cachedBytes, this`allocatedBytes, this`frees
      ensures info == old(info) - {p} && headers == old(headers) - {p} && frees == old(frees) + 1
      ensures cachedBytes == old(cachedBytes) - PageBytes(ds[i])
              && allocatedBytes == old(allocatedBytes) - StdBytes(PageBytes(ds[i]))
    {
      cachedBytes := cachedBytes - PageBytes(ds[i]);
      StdFree(p);
      info := info - {p};
    }

    /** What the walk over the pages has done when the pages `gone` are released. */
    ghost predicate Walked(was: State, wasHeaders: map<nat, nat>, i: nat, gone: seq<nat>)
      reads this
      requires i < |ds|
    {
      info == (map p | p in was.info && p !in gone :: was.info[p])
      && headers == (map p | p in wasHeaders && p !in gone :: wasHeaders[p])
      && cachedBytes == was.cachedBytes - |gone| * PageBytes(ds[i])
      && allocatedBytes == was.allocatedBytes - |gone| * StdBytes(PageBytes(ds[i]))
      && frees == was.frees + |gone|
    }

    method WalkOne(i: nat, p: nat, ghost was: State, ghost wasHeaders: map<nat, nat>, ghost gone: seq<nat>)
      requires i < |ds| && Walked(was, wasHeaders, i, gone) && p in was.info && p in wasHeaders && p !in gone
      requires wasHeaders[p] == Round8(PageBytes(ds[i]))
      modifies this`info, this`headers, this`cachedBytes, this`allocatedBytes, this`frees
      ensures Walked(was, wasHeaders, i, gone + [p])
    {
      ReleasePage(i, p);
      OneMore(|gone| + 1, PageBytes(ds[i]));
      OneMore(|gone| + 1, StdBytes(PageBytes(ds[i])));
    }

    /** Take the fully cached pages of a class off its list and give them back. */
    method ReleasePages(i: nat, ghost was: State)
      requires i < |ds| && i < |pages| && was.pages == pages && Distinct(pages[i])
      requires Walked(was, headers, i, [])
      requires forall p :: p in pages[i] ==> p in info && p in headers && headers[p] == Round8(PageBytes(ds[i]))
      modifies this`pages, this`info, this`headers, this`cachedBytes, this`allocatedBytes, this`frees
      ensures pages == old(pages)[i := KeptPages(ds[i], was.info, old(pages)[i])]
      ensures Walked(was, old(headers), i, FullPages(ds[i], was.info, old(pages)[i]))
    {
      var list := pages[i];
      var k := 0;
      ghost var wasHeaders := headers;
      ghost var gone: seq<nat> := [];
      WalkStarts(ds[i], was.info, list);
      while k < |list|
        invariant 0 <= k <= |list| && pages == old(pages)
        invariant Walking(ds[i], was.info, pages[i], list, k, gone)
        invariant Walked(was, wasHeaders, i, gone)
        decreases |list| - k
      {
        var page := list[k];
        assert page in list;
        if info[page].numCached == ds[i].count {
          WalkReleases(ds[i], was.info, pages[i], list, k, gone);
          list := list[..k] + list[k + 1..];
          WalkOne(i, page, was, wasHeaders, gone);
          gone := gone + [page];
        } else {
          WalkKeeps(ds[i], was.info, pages[i], list, k, gone);
          k := k + 1;
        }
      }
      WalkEnds(ds[i], was.info, pages[i], list, gone);
      pages := pages[i := list];
    }

    /** The second walk, when the first one has found something. */
    method ReleaseFound(i: nat, ghost was: State)
      requires Inv(ds, was) && i < |ds| && HeadersOk(ds, info, headers, large)
      requires View() == was.(cached := was.cached[i := KeptBlocks(ds[i], was.info, was.cached[i])])
      modifies this`pages, this`info, this`headers, this`cachedBytes, this`allocatedBytes, this`frees
      ensures View() == ReleaseClass(ds, was, i)
      ensures headers == map p | p in old(headers) && p !in FullPages(ds[i], was.info, was.pages[i]) :: old(headers)[p]
    {
      assert info == map p | p in was.info && p !in [] :: was.info[p];
      assert headers == map p | p in headers && p !in [] :: headers[p];
      ReleasePages(i, was);
    }

    /** Both walks for one class; `found` as the source's found_free_page. */
    method ReleaseOneClass(i: nat) returns (found: bool)
      requires Valid() && i < |ds|
      modifies this`pages, this`info, this`cached, this`headers, this`cachedBytes, this`allocatedBytes, this`frees
      ensures Valid() && View() == ReleaseClass(ds, old(View()), i) && (found <==> frees > old(frees))
    {
      ghost var was, wasHeaders := View(), headers;
      FoundFull(ds, was, i);
      ReleaseKeeps(ds, was, i);
      found := UnlinkBlocks(i);
      if found {
        ReleaseFound(i, was);
        HeadersWalked(ds, was, ReleaseClass(ds, was, i), i, wasHeaders, headers);
      } else {
        NothingFull(ds, was, i);
      }
    }

    /** `freeCachedMemory` */
    method FreeCachedMemory(target: int)
      requires Valid()
      modifies this`pages, this`info, this`cached, this`headers, this`cachedBytes, this`allocatedBytes, this`frees
      ensures Valid() && View() == FreeCached(ds, old(View()), target)
    {
      if cachedBytes > target {
        var i := |ds| - 1;
        while i >= 0
          invariant -1 <= i < |ds| && Valid()
          invariant ReleaseBelow(ds, View(), i + 1, target) == FreeCached(ds, old(View()), target)
        {
          var found := ReleaseOneClass(i);
          if found {
            if cachedBytes <= target {
              break;
            }
          }
          i := i - 1;
        }
      }
    }

    // -------------------------------------------------------------- malloc and free

    /** The class of a size that some class holds, by the memo if it knows. */
    method LookUp(size: nat) returns (i: nat)
      requires MemoOk() && 0 < size < pageMap.Length
      modifies pageMap
      ensures MemoOk() && i == ClassOf(ds, size) < |ds|
    {
      var m := pageMap[size];
      if m >= 0 {
        return m;
      }
      i := 0;
      while i < |ds|
        invariant i <= |ds| && i <= ClassOf(ds, size) && MemoOk()
        invariant pageMap.Length == ds[|ds| - 1].size + 1
      {
        ClassIs(ds, size, i);
        if size <= ds[i].size {
          pageMap[size] := i;
          return;
        }
        i := i + 1;
      }
    }

    /** A piece of its own for a caller. */
    method MallocStd(size: nat, addr: nat)
      requires Valid() && Fresh(View(), addr)
      modifies this`mallocs, this`headers, this`allocatedBytes, this`maxAllocatedBytes, this`large
      ensures Valid() && View() == old(View()).(large := [Large(addr, size)] + old(large),
              allocatedBytes := old(allocatedBytes) + StdBytes(size))
    {
      ghost var was := View();
      StdAlloc(size, addr);
      large := [Large(addr, size)] + large;
      MallocLarge(ds, was, View(), size, addr);
    }

    /** `malloc`; `addr` is where the system would put a new piece. */
    method Malloc(size: int, addr: nat) returns (x: Pointer)
      requires Valid() && Fresh(View(), addr)
      modifies this, pageMap
      ensures Valid() && (View(), x) == OldTheorems.Malloc(ds, old(View()), size, addr)
    {
      if size <= 0 {
        return Null;
      }
      SizesBelow(ds, size);
      if size < pageMap.Length {
        var i := LookUp(size);
        var b := AllocFromPageType(i, addr);
        return Paged(b);
      }
      MallocStd(size, addr);
      return Std(addr);
    }

    method FreeStd(addr: nat)
      requires Valid() && Held(ds, View(), Std(addr))
      modifies this`frees, this`headers, this`allocatedBytes, this`large
      ensures Valid() && View() == FreeLarge(old(View()), addr)
    {
      FreeLargeKeeps(ds, View(), addr);
      ghost var k := LargeAt(large, addr);
      HeadersFreed(ds, View(), headers, k);
      StdFree(addr);
      large := large[..k] + large[k + 1..];
    }

    /** `free`; the pointer's kind is the tag in its header. */
    method Free(x: Pointer)
      requires Valid() && Held(ds, View(), x)
      modifies this
      ensures Valid() && View() == OldTheorems.Free(ds, old(View()), x)
    {
      match x {
        case Null =>
        case Std(addr) => FreeStd(addr);
        case Paged(b) =>
          FreeMemBlock(b);
          if frees % 1024 == 0 && cachedBytes > allocatedBytes / 2 {
            FreeCachedMemory(cachedBytes / 2);
          }
      }
    }
  }

  /** The least class by the comparisons of the search loop. */
  lemma ClassIs(ds: seq<Desc>, size: nat, i: nat)
    requires i < |ds| && i <= ClassOf(ds, size)
    ensures size <= ds[i].size ==> ClassOf(ds, size) == i
    ensures size > ds[i].size ==> i < ClassOf(ds, size)
  {
  }

  /** Sizes from the top class on belong to no class. */
  lemma SizesBelow(ds: seq<Desc>, size: nat)
    requires DescsOk(ds) && size > 0
    ensures size > ds[|ds| - 1].size <==> ClassOf(ds, size) == |ds|
  {
    assert forall j :: 0 <= j < |ds| - 1 ==> ds[j].size < ds[|ds| - 1].size;
  }

  /** The headers without the one of a caller's own piece. */
  lemma HeadersFreed(ds: seq<Desc>, st: State, headers: map<nat, nat>, k: nat)
    requires Inv(ds, st) && HeadersOk(ds, st.info, headers, st.large) && k < |st.large|
    ensures HeadersOk(ds, st.info, headers - {st.large[k].addr}, st.large[..k] + st.large[k + 1..])
  {
    var t := st.large[..k] + st.large[k + 1..];
    LargeOthers(st.large, k, t);
    forall j | 0 <= j < |t|
      ensures t[j].addr in headers - {st.large[k].addr} && headers[t[j].addr] == Round8(t[j].size)
    {
      assert t[j] in st.large;
    }
  }

  /** The headers after the walk. */
  lemma HeadersWalked(ds: seq<Desc>, was: State, now: State, i: nat, a: map<nat, nat>, b: map<nat, nat>)
    requires Inv(ds, was) && i < |ds| && HeadersOk(ds, was.info, a, was.large) && now == ReleaseClass(ds, was, i)
    requires b == map p | p in a && p !in FullPages(ds[i], was.info, was.pages[i]) :: a[p]
    ensures HeadersOk(ds, now.info, b, now.large)
  {
    KeptPagesAre(ds[i], was.info, was.pages[i]);
  }

  /** A list without its `k`-th element. */
  lemma CutAt<T>(list: seq<T>, k: nat)
    requires k < |list| && Distinct(list)
    ensures var cut := list[..k] + list[k + 1..];
            cut[..k] == list[..k] && cut[k..] == list[k + 1..] && Distinct(cut) && list[k] !in cut
                && forall x :: x in cut ==> x in list
    ensures list[k..] == [list[k]] + list[k + 1..] && list[k..][1..] == list[k + 1..]
            && list[..k + 1] == list[..k] + [list[k]]
  {
    var cut := list[..k] + list[k + 1..];
    assert forall j :: 0 <= j < |cut| ==> cut[j] == list[if j < k then j else j + 1];
  }
}
