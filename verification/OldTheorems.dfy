/** What the older heap promises: bulk release, size classes, byte conservation, and all of it over every run. */
module OldTheorems {
  import opened OldSpec
  import opened OldProofs

  // ---------------------------------------------------------------- releasing one class

  lemma {:induction false} KeptPagesAre(d: Desc, info: map<nat, Page>, ps: seq<nat>)
    requires Distinct(ps)
    ensures var kept, gone := KeptPages(d, info, ps), FullPages(d, info, ps);
            |kept| + |gone| == |ps| && Distinct(kept)
            && (forall p :: p in kept <==> p in ps && !Full(d, info, p))
            && (forall p :: p in gone <==> p in ps && Full(d, info, p))
  {
    if ps != [] {
      DistinctTail(ps);
      KeptPagesAre(d, info, ps[1..]);
    }
  }

  lemma {:induction false} KeptBlocksAre(d: Desc, info: map<nat, Page>, list: seq<Block>)
    requires Distinct(list)
    ensures var kept := KeptBlocks(d, info, list);
            Distinct(kept) && forall b :: b in kept <==> b in list && !Full(d, info, b.page)
  {
    if list != [] {
      DistinctTail(list);
      KeptBlocksAre(d, info, list[1..]);
    }
  }

  lemma {:induction false} KeptCount(d: Desc, info: map<nat, Page>, list: seq<Block>, p: nat)
    ensures CountOn(KeptBlocks(d, info, list), p) == if Full(d, info, p) then 0 else CountOn(list, p)
  {
    if list != [] {
      KeptCount(d, info, list[1..], p);
      assert ([list[0]] + KeptBlocks(d, info, list[1..]))[1..] == KeptBlocks(d, info, list[1..]);
    }
  }

  /** Full pages hold nothing but cached bytes. */
  lemma {:induction false} KeptBytes(d: Desc, ps: seq<nat>, info: map<nat, Page>)
    requires forall k :: 0 <= k < |ps| ==> ps[k] in info
    ensures forall k :: 0 <= k < |KeptPages(d, info, ps)| ==> KeptPages(d, info, ps)[k] in info
    ensures CachedIn(d, ps, info) == CachedIn(d, KeptPages(d, info, ps), info) + |FullPages(d, info, ps)| * PageBytes(d)
  {
    if ps != [] {
      KeptBytes(d, ps[1..], info);
      var rest := KeptPages(d, info, ps[1..]);
      assert ([ps[0]] + rest)[1..] == rest;
      OneMore(|FullPages(d, info, ps[1..])| + 1, PageBytes(d));
    }
  }

  lemma ReleasedPages(ds: seq<Desc>, st: State, i: nat)
    requires Inv(ds, st) && i < |ds|
    ensures var t := ReleaseClass(ds, st, i);
            && PagesOk(ds, t)
            && (forall p :: p in t.info <==> p in st.info && !(st.info[p].index == i && Full(ds[i], st.info, p)))
  {
    var t := ReleaseClass(ds, st, i);
    KeptPagesAre(ds[i], st.info, st.pages[i]);
    forall j, k | 0 <= j < |ds| && 0 <= k < |t.pages[j]|
      ensures t.pages[j][k] in t.info && t.info[t.pages[j][k]].index == j
    {
      var p := t.pages[j][k];
      assert p in t.pages[j];
      assert p in st.pages[j];
    }
  }

  lemma ReleasedBlocks(ds: seq<Desc>, st: State, i: nat)
    requires Inv(ds, st) && i < |ds| && PagesOk(ds, ReleaseClass(ds, st, i))
    requires var t := ReleaseClass(ds, st, i);
             forall p :: p in t.info <==> p in st.info && !(st.info[p].index == i && Full(ds[i], st.info, p))
    ensures BlocksOk(ds, ReleaseClass(ds, st, i)) && CountsOk(ds, ReleaseClass(ds, st, i))
  {
    var t := ReleaseClass(ds, st, i);
    KeptBlocksAre(ds[i], st.info, st.cached[i]);
    forall j, k | 0 <= j < |ds| && 0 <= k < |t.cached[j]|
      ensures t.cached[j][k].page in t.info && t.info[t.cached[j][k].page].index == j && t.cached[j][k].j < ds[j].count
    {
      assert t.cached[j][k] in t.cached[j];
      assert t.cached[j][k] in st.cached[j];
    }
    forall p | p in t.info
      ensures t.info[p].numCached == CountOn(t.cached[t.info[p].index], p)
    {
      KeptCount(ds[i], st.info, st.cached[i], p);
    }
  }

  lemma ReleasedCached(ds: seq<Desc>, st: State, i: nat, n: nat, bytes: nat)
    requires Inv(ds, st) && i < |ds| && PagesOk(ds, ReleaseClass(ds, st, i))
    requires n == |FullPages(ds[i], st.info, st.pages[i])| && bytes == n * PageBytes(ds[i])
    ensures var t := ReleaseClass(ds, st, i); t.cachedBytes == CachedBelow(ds, t, |ds|)
  {
    var t := ReleaseClass(ds, st, i);
    KeptBytes(ds[i], st.pages[i], st.info);
    forall j | 0 <= j < |ds|
      ensures CachedIn(ds[j], t.pages[j], t.info)
              == CachedIn(ds[j], st.pages[j], st.info) + if j == i then 0 - bytes else 0
    {
      CachedInSame(ds[j], t.pages[j], st.info, t.info);
    }
    CachedBelowChange(ds, st, t, i, 0 - bytes, |ds|);
  }

  lemma ReleasedAllocated(ds: seq<Desc>, st: State, i: nat, n: nat)
    requires Inv(ds, st) && i < |ds| && n == |FullPages(ds[i], st.info, st.pages[i])|
    ensures var t := ReleaseClass(ds, st, i); t.allocatedBytes == PagesBelow(ds, t.pages, |ds|) + LargeBytes(t.large)
  {
    var t := ReleaseClass(ds, st, i);
    KeptPagesAre(ds[i], st.info, st.pages[i]);
    PagesBelowChange(ds, t.pages, st.pages, i, n, |ds|);
  }

  lemma Product(n: nat, u: nat)
    ensures n * u >= 0
  {
  }

  lemma ReleaseKeeps(ds: seq<Desc>, st: State, i: nat)
    requires Inv(ds, st) && i < |ds|
    ensures Inv(ds, ReleaseClass(ds, st, i))
  {
    var n, u := |FullPages(ds[i], st.info, st.pages[i])|, PageBytes(ds[i]);
    Product(n, u);
    ReleasedPages(ds, st, i);
    ReleasedBlocks(ds, st, i);
    ReleasedCached(ds, st, i, n, n * u);
    ReleasedAllocated(ds, st, i, n);
  }

  /** Releasing pages touches no block that is handed out. */
  lemma ReleaseLive(ds: seq<Desc>, st: State, i: nat, b: Block)
    requires Inv(ds, st) && i < |ds|
    ensures Live(ds, ReleaseClass(ds, st, i), b) <==> Live(ds, st, b)
  {
    ReleasedPages(ds, st, i);
    KeptBlocksAre(ds[i], st.info, st.cached[i]);
    if b.page in st.info {
      FullMeansIdle(ds, st, b.page);
    }
  }

  // ---------------------------------------------------------------- what remains, in its order

  /** The blocks of a list that are on pages of `info`, in their order. */
  function OnPages(list: seq<Block>, info: map<nat, Page>): seq<Block> {
    if list == [] then []
    else if list[0].page in info then [list[0]] + OnPages(list[1..], info) else OnPages(list[1..], info)
  }

  function Among(ps: seq<nat>, info: map<nat, Page>): seq<nat> {
    if ps == [] then []
    else if ps[0] in info then [ps[0]] + Among(ps[1..], info) else Among(ps[1..], info)
  }

  predicate Within(a: map<nat, Page>, b: map<nat, Page>) {
    forall p :: p in a ==> p in b && a[p] == b[p]
  }

  /** `t` is `st` without some pages: their blocks are gone from the lists, everything else stands where it stood. */
  predicate Trimmed(st: State, t: State) {
    |t.pages| == |st.pages| && |t.cached| == |st.cached| && t.large == st.large && Within(t.info, st.info)
    && (forall i :: 0 <= i < |st.pages| ==> t.pages[i] == Among(st.pages[i], t.info))
    && forall i :: 0 <= i < |st.cached| ==> t.cached[i] == OnPages(st.cached[i], t.info)
  }

  lemma {:induction false} OnPagesTwice(list: seq<Block>, a: map<nat, Page>, b: map<nat, Page>)
    requires Within(b, a)
    ensures OnPages(OnPages(list, a), b) == OnPages(list, b)
  {
    if list != [] {
      OnPagesTwice(list[1..], a, b);
      assert list[0].page in a ==> OnPages(list, a)[1..] == OnPages(list[1..], a);
    }
  }

  lemma {:induction false} AmongTwice(ps: seq<nat>, a: map<nat, Page>, b: map<nat, Page>)
    requires Within(b, a)
    ensures Among(Among(ps, a), b) == Among(ps, b)
  {
    if ps != [] {
      AmongTwice(ps[1..], a, b);
      assert ps[0] in a ==> Among(ps, a)[1..] == Among(ps[1..], a);
    }
  }

  lemma TrimmedTwice(r: State, s: State, t: State)
    requires Trimmed(r, s) && Trimmed(s, t)
    ensures Trimmed(r, t)
  {
    forall i | 0 <= i < |r.pages|
      ensures t.pages[i] == Among(r.pages[i], t.info)
    {
      AmongTwice(r.pages[i], s.info, t.info);
    }
    forall i | 0 <= i < |r.cached|
      ensures t.cached[i] == OnPages(r.cached[i], t.info)
    {
      OnPagesTwice(r.cached[i], s.info, t.info);
    }
  }

  lemma {:induction false} OnPagesAll(list: seq<Block>, info: map<nat, Page>)
    requires forall k :: 0 <= k < |list| ==> list[k].page in info
    ensures OnPages(list, info) == list
  {
    if list != [] {
      OnPagesAll(list[1..], info);
    }
  }

  lemma {:induction false} AmongAll(ps: seq<nat>, info: map<nat, Page>)
    requires forall k :: 0 <= k < |ps| ==> ps[k] in info
    ensures Among(ps, info) == ps
  {
    if ps != [] {
      AmongAll(ps[1..], info);
    }
  }

  lemma {:induction false} KeptBlocksOnPages(d: Desc, a: map<nat, Page>, b: map<nat, Page>, list: seq<Block>)
    requires forall k :: 0 <= k < |list| ==> (list[k].page in b <==> !Full(d, a, list[k].page))
    ensures KeptBlocks(d, a, list) == OnPages(list, b)
  {
    if list != [] {
      KeptBlocksOnPages(d, a, b, list[1..]);
    }
  }

  lemma {:induction false} KeptPagesAmong(d: Desc, a: map<nat, Page>, b: map<nat, Page>, ps: seq<nat>)
    requires forall k :: 0 <= k < |ps| ==> (ps[k] in b <==> !Full(d, a, ps[k]))
    ensures KeptPages(d, a, ps) == Among(ps, b)
  {
    if ps != [] {
      KeptPagesAmong(d, a, b, ps[1..]);
    }
  }

  lemma TrimmedSelf(ds: seq<Desc>, st: State)
    requires Inv(ds, st)
    ensures Trimmed(st, st)
  {
    forall i | 0 <= i < |ds|
      ensures st.pages[i] == Among(st.pages[i], st.info) && st.cached[i] == OnPages(st.cached[i], st.info)
    {
      AmongAll(st.pages[i], st.info);
      OnPagesAll(st.cached[i], st.info);
    }
  }

  lemma ReleaseTrims(ds: seq<Desc>, st: State, i: nat)
    requires Inv(ds, st) && i < |ds|
    ensures Trimmed(st, ReleaseClass(ds, st, i))
  {
    var t := ReleaseClass(ds, st, i);
    ReleasedPages(ds, st, i);
    forall j | 0 <= j < |ds|
      ensures t.pages[j] == Among(st.pages[j], t.info) && t.cached[j] == OnPages(st.cached[j], t.info)
    {
      if j == i {
        KeptPagesAmong(ds[i], st.info, t.info, st.pages[i]);
        KeptBlocksOnPages(ds[i], st.info, t.info, st.cached[i]);
      } else {
        AmongAll(st.pages[j], t.info);
        OnPagesAll(st.cached[j], t.info);
      }
    }
  }

  // ---------------------------------------------------------------- bulk release

  /** No page of a class from `lo` on is fully cached. */
  predicate NoneFull(ds: seq<Desc>, st: State, lo: nat) {
    forall p :: p in st.info && lo <= st.info[p].index < |ds| ==> !Full(ds[st.info[p].index], st.info, p)
  }

  /** Every page that is gone was fully cached. */
  predicate OnlyFullGone(ds: seq<Desc>, st: State, t: State) {
    forall p :: p in st.info && p !in t.info ==> st.info[p].index < |ds| && Full(ds[st.info[p].index], st.info, p)
  }

  /** What a release may do: it only drops fully cached pages with their blocks. */
  ghost predicate Releases(ds: seq<Desc>, st: State, t: State) {
    Inv(ds, t) && Trimmed(st, t) && OnlyFullGone(ds, st, t) && forall b :: Live(ds, t, b) <==> Live(ds, st, b)
  }

  lemma ReleasesTwice(ds: seq<Desc>, r: State, s: State, t: State)
    requires Releases(ds, r, s) && Releases(ds, s, t)
    ensures Releases(ds, r, t)
  {
    TrimmedTwice(r, s, t);
  }

  lemma ReleasesOne(ds: seq<Desc>, st: State, i: nat)
    requires Inv(ds, st) && i < |ds|
    ensures Releases(ds, st, ReleaseClass(ds, st, i))
    ensures NoneFull(ds, st, i + 1) ==> NoneFull(ds, ReleaseClass(ds, st, i), i)
  {
    ReleaseKeeps(ds, st, i);
    ReleaseTrims(ds, st, i);
    ReleasedPages(ds, st, i);
    forall b
      ensures Live(ds, ReleaseClass(ds, st, i), b) <==> Live(ds, st, b)
    {
      ReleaseLive(ds, st, i, b);
    }
  }

  lemma {:induction false} ReleaseBelowKeeps(ds: seq<Desc>, st: State, n: nat, target: int, t: State)
    requires Inv(ds, st) && n <= |ds| && NoneFull(ds, st, n) && t == ReleaseBelow(ds, st, n, target)
    ensures Releases(ds, st, t) && (t.cachedBytes <= target || NoneFull(ds, t, 0))
    decreases n, 0
  {
    if n == 0 {
      ReleasesNothing(ds, st);
    } else {
      ReleaseStep(ds, st, ReleaseClass(ds, st, n - 1), n - 1, target, t);
    }
  }

  /** One class, then the ones below it unless the cache is small enough. */
  lemma {:induction false} ReleaseStep(ds: seq<Desc>, st: State, next: State, n: nat, target: int, t: State)
    requires Inv(ds, st) && n < |ds| && NoneFull(ds, st, n + 1) && next == ReleaseClass(ds, st, n)
    requires t == if next.frees > st.frees && next.cachedBytes <= target then next
                  else ReleaseBelow(ds, next, n, target)
    ensures Releases(ds, st, t) && (t.cachedBytes <= target || NoneFull(ds, t, 0))
    decreases n, 2
  {
    ReleasesOne(ds, st, n);
    if !(next.frees > st.frees && next.cachedBytes <= target) {
      ReleaseMore(ds, st, next, n, target, t);
    }
  }

  lemma ReleasesNothing(ds: seq<Desc>, st: State)
    requires Inv(ds, st)
    ensures Releases(ds, st, st)
  {
    TrimmedSelf(ds, st);
  }

  lemma {:induction false} ReleaseMore(ds: seq<Desc>, st: State, next: State, n: nat, target: int, t: State)
    requires Inv(ds, st) && Releases(ds, st, next) && n <= |ds| && NoneFull(ds, next, n)
             && t == ReleaseBelow(ds, next, n, target)
    ensures Releases(ds, st, t) && (t.cachedBytes <= target || NoneFull(ds, t, 0))
    decreases n, 1
  {
    ReleaseBelowKeeps(ds, next, n, target, t);
    ReleasesTwice(ds, st, next, t);
  }

  /**
   * `freeCachedMemory`: only fully cached pages go, their blocks leave the lists, the rest keeps its order, no block
   * that is handed out is touched, and either the cache is small enough or no fully cached page is left.
   */
  lemma BulkRelease(ds: seq<Desc>, st: State, target: int)
    requires Inv(ds, st)
    ensures var t := FreeCached(ds, st, target); Releases(ds, st, t) && (t.cachedBytes <= target || NoneFull(ds, t, 0))
  {
    if st.cachedBytes > target {
      ReleaseBelowKeeps(ds, st, |ds|, target, FreeCached(ds, st, target));
    } else {
      ReleasesNothing(ds, st);
    }
  }

  // ---------------------------------------------------------------- malloc and free

  function TakeFrom(ds: seq<Desc>, st: State, i: nat): (State, Block)
    requires Inv(ds, st) && i < |ds| && st.cached[i] != []
  {
    HeadOk(ds, st, i);
    TakeCached(ds, st, i)
  }

  /** `allocFromPageType`; `addr` is where the system would put a new page. */
  function AllocClass(ds: seq<Desc>, st: State, i: nat, addr: nat): (State, Block)
    requires Inv(ds, st) && i < |ds| && Fresh(st, addr)
  {
    if st.cached[i] != [] then TakeFrom(ds, st, i)
    else
      AddPageKeeps(ds, st, i, addr);
      TakeFrom(ds, AddPage(ds, st, i, addr), i)
  }

  function Malloc(ds: seq<Desc>, st: State, size: int, addr: nat): (State, Pointer)
    requires Inv(ds, st) && Fresh(st, addr)
  {
    if size <= 0 then (st, Null)
    else
      var i := ClassOf(ds, size);
      if i < |ds| then
        var r := AllocClass(ds, st, i, addr);
        (r.0, Paged(r.1))
      else
        (st.(large := [Large(addr, size)] + st.large, allocatedBytes := st.allocatedBytes + StdBytes(size)), Std(addr))
  }

  function LargeAt(large: seq<Large>, addr: nat): (k: nat)
    requires exists k :: 0 <= k < |large| && large[k].addr == addr
    ensures k < |large| && large[k].addr == addr
  {
    if large[0].addr == addr then 0 else
      assert exists k :: 0 <= k < |large[1..]| && large[1..][k].addr == addr by {
        var k :| 0 <= k < |large| && large[k].addr == addr;
        assert large[1..][k - 1] == large[k];
      }
      1 + LargeAt(large[1..], addr)
  }

  function FreeLarge(st: State, addr: nat): State
    requires exists k :: 0 <= k < |st.large| && st.large[k].addr == addr
  {
    var k := LargeAt(st.large, addr);
    st.(large := st.large[..k] + st.large[k + 1..],
        allocatedBytes := st.allocatedBytes - StdBytes(st.large[k].size), frees := st.frees + 1)
  }

  /** Every 1024th free looks at the cache. */
  function Trim(ds: seq<Desc>, st: State): State
    requires |ds| == |st.cached| == |st.pages|
  {
    if st.frees % 1024 == 0 && st.cachedBytes > st.allocatedBytes / 2 then FreeCached(ds, st, st.cachedBytes / 2)
    else st
  }

  function Free(ds: seq<Desc>, st: State, x: Pointer): State
    requires Inv(ds, st) && Held(ds, st, x)
  {
    match x
    case Null => st
    case Std(addr) => FreeLarge(st, addr)
    case Paged(b) => Trim(ds, PutBack(ds, st, b))
  }

  lemma TakeFromKeeps(ds: seq<Desc>, st: State, i: nat)
    requires Inv(ds, st) && i < |ds| && st.cached[i] != []
    ensures var r := TakeFrom(ds, st, i);
            Inv(ds, r.0) && r.0.large == st.large && r.1.page in r.0.info && r.0.info[r.1.page].index == i
            && Live(ds, r.0, r.1) && !Live(ds, st, r.1) && forall b :: Live(ds, r.0, b) <==> Live(ds, st, b) || b == r.1
  {
    HeadOk(ds, st, i);
    TakeKeeps(ds, st, i);
    TakeLive(ds, st, i);
  }

  lemma AllocClassKeeps(ds: seq<Desc>, st: State, i: nat, addr: nat)
    requires Inv(ds, st) && i < |ds| && Fresh(st, addr)
    ensures var r := AllocClass(ds, st, i, addr);
            Inv(ds, r.0) && r.0.large == st.large && r.1.page in r.0.info && r.0.info[r.1.page].index == i
            && Live(ds, r.0, r.1) && !Live(ds, st, r.1) && forall b :: Live(ds, r.0, b) <==> Live(ds, st, b) || b == r.1
  {
    if st.cached[i] != [] {
      TakeFromKeeps(ds, st, i);
    } else {
      AddPageKeeps(ds, st, i, addr);
      NewPageIdle(ds, st, i, addr);
      TakeFromKeeps(ds, AddPage(ds, st, i, addr), i);
    }
  }

  /** From `st` to `t` exactly the pointer `x` was handed out. */
  ghost predicate Gained(ds: seq<Desc>, st: State, t: State, x: Pointer) {
    Inv(ds, t) && !Held(ds, st, x) && forall y :: Held(ds, t, y) <==> Held(ds, st, y) || y == x
  }

  /** From `st` to `t` exactly the pointer `x` was given up. */
  ghost predicate Lost(ds: seq<Desc>, st: State, t: State, x: Pointer) {
    Inv(ds, t) && forall y :: y != Null ==> (Held(ds, t, y) <==> Held(ds, st, y) && y != x)
  }

  lemma MallocPaged(ds: seq<Desc>, st: State, i: nat, addr: nat)
    requires Inv(ds, st) && i < |ds| && Fresh(st, addr)
    ensures var r := AllocClass(ds, st, i, addr);
            Gained(ds, st, r.0, Paged(r.1)) && r.1.page in r.0.info && r.0.info[r.1.page].index == i
  {
    AllocClassKeeps(ds, st, i, addr);
    var r := AllocClass(ds, st, i, addr);
    PagedGained(ds, st, r.0, r.1);
  }

  lemma PagedGained(ds: seq<Desc>, st: State, t: State, b: Block)
    requires Inv(ds, t) && !Live(ds, st, b) && t.large == st.large
    requires forall x :: Live(ds, t, x) <==> Live(ds, st, x) || x == b
    ensures Gained(ds, st, t, Paged(b))
  {
  }

  lemma MallocLarge(ds: seq<Desc>, st: State, t: State, size: nat, addr: nat)
    requires Inv(ds, st) && Fresh(st, addr)
    requires t == st.(large := [Large(addr, size)] + st.large, allocatedBytes := st.allocatedBytes + StdBytes(size))
    ensures Gained(ds, st, t, Std(addr))
  {
    assert t.large[1..] == st.large && t.large[0].addr == addr;
    LargeKeeps(ds, st, t);
    assert forall k :: 0 <= k < |st.large| ==> t.large[k + 1] == st.large[k];
  }

  /** A request gets a block of the least class that holds it, or a piece of its own; it was not handed out before. */
  lemma MallocKeeps(ds: seq<Desc>, st: State, size: int, addr: nat)
    requires Inv(ds, st) && Fresh(st, addr)
    ensures var r := Malloc(ds, st, size, addr);
            if size <= 0 then r == (st, Null)
            else Gained(ds, st, r.0, r.1)
                 && match r.1
                    case Null => false
                    case Std(_) => forall j :: 0 <= j < |ds| ==> ds[j].size < size
                    case Paged(b) =>
                      b.page in r.0.info && r.0.info[b.page].index < |ds| && size <= ds[r.0.info[b.page].index].size
                      && forall j :: 0 <= j < |ds| && size <= ds[j].size ==> r.0.info[b.page].index <= j
  {
    var i := ClassOf(ds, size);
    if size > 0 && i < |ds| {
      MallocPaged(ds, st, i, addr);
    } else if size > 0 {
      MallocLarge(ds, st, Malloc(ds, st, size, addr).0, size, addr);
    }
  }

  /** Only the caller's own pieces change. */
  lemma LargeKeeps(ds: seq<Desc>, st: State, t: State)
    requires Inv(ds, st) && LargeOk(t) && t.pages == st.pages && t.info == st.info && t.cached == st.cached
             && t.cachedBytes == st.cachedBytes
    requires t.allocatedBytes - LargeBytes(t.large) == st.allocatedBytes - LargeBytes(st.large)
    ensures Inv(ds, t) && forall b :: Live(ds, t, b) <==> Live(ds, st, b)
  {
    forall j | 0 <= j < |ds|
      ensures CachedIn(ds[j], t.pages[j], t.info) == CachedIn(ds[j], st.pages[j], st.info)
    {
    }
    CachedBelowChange(ds, st, t, |ds|, 0, |ds|);
  }

  lemma {:induction false} LargeRemoved(large: seq<Large>, k: nat)
    requires k < |large|
    ensures LargeBytes(large[..k] + large[k + 1..]) == LargeBytes(large) - StdBytes(large[k].size)
  {
    if k == 0 {
      assert large[..0] + large[1..] == large[1..];
    } else {
      LargeRemoved(large[1..], k - 1);
      assert (large[..k] + large[k + 1..])[1..] == large[1..][..k - 1] + large[1..][k..];
      assert (large[..k] + large[k + 1..])[0] == large[0];
    }
  }

  /** The list without its `k`-th piece holds the other addresses. */
  lemma LargeOthers(large: seq<Large>, k: nat, t: seq<Large>)
    requires k < |large| && t == large[..k] + large[k + 1..]
    requires forall i, j :: 0 <= i < j < |large| ==> large[i].addr != large[j].addr
    ensures forall j :: 0 <= j < |t| ==> t[j] in large && t[j].addr != large[k].addr
    ensures forall j :: 0 <= j < |large| && j != k ==> large[j] in t
    ensures forall i, j :: 0 <= i < j < |t| ==> t[i].addr != t[j].addr
  {
    assert forall j :: 0 <= j < |t| ==> t[j] == large[if j < k then j else j + 1];
    forall j | 0 <= j < |large| && j != k
      ensures large[j] in t
    {
      assert large[j] == t[if j < k then j else j - 1];
    }
  }

  lemma FreeLargeKeeps(ds: seq<Desc>, st: State, addr: nat)
    requires Inv(ds, st) && Held(ds, st, Std(addr))
    ensures Lost(ds, st, FreeLarge(st, addr), Std(addr))
  {
    var t, k := FreeLarge(st, addr), LargeAt(st.large, addr);
    LargeRemoved(st.large, k);
    LargeOthers(st.large, k, t.large);
    LargeKeeps(ds, st, t);
    forall y | y != Null
      ensures Held(ds, t, y) <==> Held(ds, st, y) && y != Std(addr)
    {
      if y.Std? && Held(ds, st, y) && y.addr != addr {
        var j :| 0 <= j < |st.large| && st.large[j].addr == y.addr;
        assert st.large[j] in t.large;
      }
    }
  }

  lemma GivenBack(ds: seq<Desc>, st: State, t: State, b: Block)
    requires Inv(ds, st) && Live(ds, st, b) && t == PutBack(ds, st, b)
    ensures Lost(ds, st, t, Paged(b))
  {
    PutKeeps(ds, st, b);
    PutLive(ds, st, b);
    forall y | y != Null
      ensures Held(ds, t, y) <==> Held(ds, st, y) && y != Paged(b)
    {
    }
  }

  /** A bulk release takes nothing away from a caller. */
  lemma TrimKeeps(ds: seq<Desc>, st: State, t: State, x: Pointer)
    requires Lost(ds, st, t, x)
    ensures Lost(ds, st, Trim(ds, t), x)
  {
    var u := Trim(ds, t);
    BulkRelease(ds, t, t.cachedBytes / 2);
    forall y | y != Null
      ensures Held(ds, u, y) <==> Held(ds, t, y)
    {
    }
  }

  /** Freeing keeps the invariant, ends exactly the given pointer, and never takes a page from under another one. */
  lemma FreeKeeps(ds: seq<Desc>, st: State, x: Pointer)
    requires Inv(ds, st) && Held(ds, st, x)
    ensures Lost(ds, st, Free(ds, st, x), x)
  {
    match x
    case Null =>
    case Std(addr) => FreeLargeKeeps(ds, st, addr);
    case Paged(b) =>
      var t := PutBack(ds, st, b);
      GivenBack(ds, st, t, b);
      TrimKeeps(ds, st, t, x);
  }

  // ---------------------------------------------------------------- which block, and when the cache is looked at

  /** `i` is the least class whose blocks hold `size` bytes. */
  predicate LeastClass(ds: seq<Desc>, size: int, i: nat) {
    i < |ds| && size <= ds[i].size && forall j :: 0 <= j < i ==> ds[j].size < size
  }

  /**
   * A request takes the first cached block of its class, and then no page comes from the system; only when there is
   * none a page is added, and the request gets the block that heads its list.
   */
  lemma MallocUsesCache(ds: seq<Desc>, st: State, size: int, addr: nat, i: nat)
    requires Inv(ds, st) && Fresh(st, addr) && 0 < size && LeastClass(ds, size, i)
    ensures var (t, x) := Malloc(ds, st, size, addr);
            && (forall j :: 0 <= j < |ds| && j != i ==> t.cached[j] == st.cached[j] && t.pages[j] == st.pages[j])
            && (st.cached[i] != [] ==>
                  x == Paged(st.cached[i][0]) && t.cached[i] == st.cached[i][1..]
                  && t.pages == st.pages && t.info.Keys == st.info.Keys && t.allocatedBytes == st.allocatedBytes)
            && (st.cached[i] == [] ==>
                  x == Paged(Block(addr, ds[i].count - 1)) && t.pages[i] == [addr] + st.pages[i]
                  && t.info.Keys == st.info.Keys + {addr}
                  && t.allocatedBytes == st.allocatedBytes + StdBytes(PageBytes(ds[i])))
  {
    assert ClassOf(ds, size) == i;
    if st.cached[i] != [] {
      HeadOk(ds, st, i);
    } else {
      var s := AddPage(ds, st, i, addr);
      AddPageKeeps(ds, st, i, addr);
      HeadOk(ds, s, i);
      assert s.cached[i] == BlocksOf(addr, ds[i].count);
    }
  }

  /** What a free does before the cache may be trimmed: the block heads its list, the counters move by one block. */
  lemma FreePuts(ds: seq<Desc>, st: State, b: Block, i: nat)
    requires Inv(ds, st) && Live(ds, st, b) && i == st.info[b.page].index
    ensures var t := PutBack(ds, st, b);
            && t.cached == st.cached[i := [b] + st.cached[i]] && t.pages == st.pages && t.info.Keys == st.info.Keys
            && t.cachedBytes == st.cachedBytes + ds[i].size + 8 && t.allocatedBytes == st.allocatedBytes
            && t.frees == st.frees + 1
  {
  }

  /** The cache is looked at with every 1024th free, and trimmed iff it is more than half of what the system gave. */
  lemma FreeTrims(ds: seq<Desc>, st: State, b: Block, t: State, u: State)
    requires Inv(ds, st) && Live(ds, st, b) && t == PutBack(ds, st, b) && u == Free(ds, st, Paged(b))
    ensures if t.frees % 1024 == 0 && t.cachedBytes > t.allocatedBytes / 2
            then Releases(ds, t, u) && StopsRight(ds, t, u, t.cachedBytes / 2)
            else u == t
  {
    PutKeeps(ds, st, b);
    Trimmed1024(ds, t, u);
  }

  lemma Trimmed1024(ds: seq<Desc>, t: State, u: State)
    requires Inv(ds, t) && u == Trim(ds, t)
    ensures if t.frees % 1024 == 0 && t.cachedBytes > t.allocatedBytes / 2
            then Releases(ds, t, u) && StopsRight(ds, t, u, t.cachedBytes / 2)
            else u == t
  {
    if t.frees % 1024 == 0 && t.cachedBytes > t.allocatedBytes / 2 {
      CachedWithinAllocated(ds, t);
      BulkRelease(ds, t, t.cachedBytes / 2);
      ReleaseStops(ds, t, t.cachedBytes / 2);
    }
  }

  /** A request no class holds gets a piece of its own, which costs its bytes, rounded up to 8, and a header of 4. */
  lemma LargeCosts(ds: seq<Desc>, st: State, size: int, addr: nat)
    requires Inv(ds, st) && Fresh(st, addr) && 0 < size && forall j :: 0 <= j < |ds| ==> ds[j].size < size
    ensures var (t, p) := Malloc(ds, st, size, addr);
            var cost := t.allocatedBytes - st.allocatedBytes - 4;
            && p == Std(addr) && t.pages == st.pages && t.cached == st.cached && t.cachedBytes == st.cachedBytes
            && size <= cost < size + 8 && cost % 8 == 0
  {
    assert ClassOf(ds, size) == |ds|;
  }

  /** A piece of its own counts as a free as well. */
  lemma FreeLargeCounts(ds: seq<Desc>, st: State, addr: nat)
    requires Inv(ds, st) && Held(ds, st, Std(addr))
    ensures Free(ds, st, Std(addr)).frees == st.frees + 1 && Free(ds, st, Std(addr)).cached == st.cached
  {
  }

  /** A block that was freed without a trim is what the next request of its class gets. */
  lemma FreedIsNext(ds: seq<Desc>, st: State, b: Block, size: int, addr: nat, i: nat)
    requires Inv(ds, st) && Live(ds, st, b) && i == st.info[b.page].index && 0 < size && LeastClass(ds, size, i)
    requires (st.frees + 1) % 1024 != 0 || st.cachedBytes + ds[i].size + 8 <= st.allocatedBytes / 2
    requires Fresh(st, addr)
    ensures var t := Free(ds, st, Paged(b));
            && Inv(ds, t) && Fresh(t, addr) && Malloc(ds, t, size, addr).1 == Paged(b)
            && Malloc(ds, t, size, addr).0.allocatedBytes == st.allocatedBytes
  {
    FreeKeeps(ds, st, Paged(b));
    FreePuts(ds, st, b, i);
    FreeTrims(ds, st, b, PutBack(ds, st, b), Free(ds, st, Paged(b)));
    MallocUsesCache(ds, Free(ds, st, Paged(b)), size, addr, i);
  }

  /** The first class is not touched, and so on up to class `k`, where the release stopped. */
  ghost predicate StopsAt(ds: seq<Desc>, st: State, t: State, target: int, k: nat)
    requires |t.pages| == |st.pages| == |ds| == |t.cached| == |st.cached| && k < |ds|
  {
    && (forall j :: 0 <= j < k ==> t.pages[j] == st.pages[j] && t.cached[j] == st.cached[j])
    && NoneFull(ds, t, k)
    && (k > 0 ==> t.cachedBytes <= target)
    && t.cachedBytes + |FullPages(ds[k], st.info, st.pages[k])| * PageBytes(ds[k]) > target
  }

  /**
   * A release empties the classes from the largest one down and stops at the first that brings the cache down to the
   * target: the classes below it are untouched, and without it the cache would still be above the target.
   */
  ghost predicate StopsRight(ds: seq<Desc>, st: State, t: State, target: int) {
    |t.pages| == |st.pages| == |ds| == |t.cached| == |st.cached|
    && exists k :: 0 <= k < |ds| && StopsAt(ds, st, t, target, k)
  }

  lemma ReleaseStops(ds: seq<Desc>, st: State, target: int)
    requires Inv(ds, st) && st.cachedBytes > target
    ensures StopsRight(ds, st, FreeCached(ds, st, target), target)
  {
    var t := FreeCached(ds, st, target);
    BulkRelease(ds, st, target);
    var k := ReleaseBelowStops(ds, st, |ds|, target, t);
  }

  lemma {:induction false} ReleaseBelowStops(ds: seq<Desc>, st: State, n: nat, target: int, t: State) returns (k: nat)
    requires Inv(ds, st) && 0 < n <= |ds| && NoneFull(ds, st, n) && st.cachedBytes > target
    requires t == ReleaseBelow(ds, st, n, target) && |t.pages| == |ds| == |t.cached|
    ensures k < n && StopsAt(ds, st, t, target, k)
    decreases n, 0
  {
    k := StepStops(ds, st, ReleaseClass(ds, st, n - 1), n - 1, target, t);
  }

  lemma {:induction false} StepStops(ds: seq<Desc>, st: State, next: State, n: nat, target: int, t: State)
    returns (k: nat)
    requires Inv(ds, st) && n < |ds| && NoneFull(ds, st, n + 1) && st.cachedBytes > target
    requires next == ReleaseClass(ds, st, n) && |t.pages| == |ds| == |t.cached|
    requires t == if next.frees > st.frees && next.cachedBytes <= target then next
                  else ReleaseBelow(ds, next, n, target)
    ensures k <= n && StopsAt(ds, st, t, target, k)
    decreases n, 1
  {
    ReleasesOne(ds, st, n);
    if n == 0 || (next.frees > st.frees && next.cachedBytes <= target) {
      k := n;
      StopsHere(ds, st, t, target, n);
    } else {
      NotYetThere(ds, st, next, n, target);
      k := ReleaseBelowStops(ds, next, n, target, t);
      StopsLater(ds, st, next, t, target, n, k);
    }
  }

  /** A class that gave nothing, or not enough, leaves the cache above the target. */
  lemma NotYetThere(ds: seq<Desc>, st: State, next: State, n: nat, target: int)
    requires Inv(ds, st) && n < |ds| && next == ReleaseClass(ds, st, n) && st.cachedBytes > target
    requires !(next.frees > st.frees && next.cachedBytes <= target)
    ensures next.cachedBytes > target
  {
  }

  lemma StopsHere(ds: seq<Desc>, st: State, next: State, target: int, k: nat)
    requires Inv(ds, st) && k < |ds| && next == ReleaseClass(ds, st, k) && st.cachedBytes > target
    requires NoneFull(ds, next, k) && (k > 0 ==> next.cachedBytes <= target)
    ensures StopsAt(ds, st, next, target, k)
  {
  }

  lemma StopsLater(ds: seq<Desc>, st: State, next: State, t: State, target: int, i: nat, k: nat)
    requires Inv(ds, st) && k < i < |ds| && next == ReleaseClass(ds, st, i)
    requires |t.pages| == |ds| == |t.cached| && StopsAt(ds, next, t, target, k)
    ensures StopsAt(ds, st, t, target, k)
  {
    OtherClass(ds, st, i, k);
  }

  /** Releasing one class leaves the full pages of another one as they are. */
  lemma OtherClass(ds: seq<Desc>, st: State, i: nat, k: nat)
    requires Inv(ds, st) && i < |ds| && k < |ds| && k != i
    ensures var t := ReleaseClass(ds, st, i);
            FullPages(ds[k], t.info, t.pages[k]) == FullPages(ds[k], st.info, st.pages[k])
  {
    var t := ReleaseClass(ds, st, i);
    ReleasedPages(ds, st, i);
    FullPagesSame(ds[k], st.pages[k], st.info, t.info);
  }

  lemma {:induction false} FullPagesSame(d: Desc, ps: seq<nat>, a: map<nat, Page>, b: map<nat, Page>)
    requires forall k :: 0 <= k < |ps| ==> ps[k] in a && ps[k] in b && a[ps[k]] == b[ps[k]]
    ensures FullPages(d, b, ps) == FullPages(d, a, ps)
  {
    if ps != [] {
      FullPagesSame(d, ps[1..], a, b);
    }
  }

  // ---------------------------------------------------------------- bytes

  lemma {:induction false} CachedFits(d: Desc, ps: seq<nat>, info: map<nat, Page>)
    requires forall k :: 0 <= k < |ps| ==> ps[k] in info && info[ps[k]].numCached <= d.count
    ensures CachedIn(d, ps, info) <= |ps| * PageBytes(d) <= |ps| * StdBytes(PageBytes(d))
  {
    var u, v := PageBytes(d), StdBytes(PageBytes(d));
    if ps != [] {
      CachedFits(d, ps[1..], info);
      TimesGrows(info[ps[0]].numCached, d.count, Unit(d));
      OneMore(|ps|, u);
      OneMore(|ps|, v);
    }
  }

  lemma OneMore(n: nat, u: nat)
    requires n > 0
    ensures n * u == (n - 1) * u + u
  {
  }

  lemma {:induction false} TimesGrows(a: nat, b: nat, u: nat)
    requires a <= b
    ensures a * u <= b * u
    decreases b - a
  {
    if a < b {
      TimesGrows(a, b - 1, u);
      OneMore(b, u);
    }
  }

  lemma {:induction false} CachedFitsBelow(ds: seq<Desc>, st: State, n: nat)
    requires Inv(ds, st) && n <= |ds|
    ensures CachedBelow(ds, st, n) <= PagesBelow(ds, st.pages, n)
    decreases n
  {
    if n > 0 {
      CachedFitsBelow(ds, st, n - 1);
      var ps := st.pages[n - 1];
      forall k | 0 <= k < |ps|
        ensures ps[k] in st.info && st.info[ps[k]].numCached <= ds[n - 1].count
      {
        FullMeansIdle(ds, st, ps[k]);
      }
      CachedFits(ds[n - 1], ps, st.info);
    }
  }

  /** Cached bytes are never negative and never more than the allocated ones. */
  lemma CachedWithinAllocated(ds: seq<Desc>, st: State)
    requires Inv(ds, st)
    ensures 0 <= st.cachedBytes <= st.allocatedBytes
  {
    CachedFitsBelow(ds, st, |ds|);
  }

  /** The numbers of the live blocks of a page. */
  function LiveJs(ds: seq<Desc>, st: State, p: nat): set<nat>
    requires p in st.info && st.info[p].index < |ds| && st.info[p].index < |st.cached|
  {
    var i := st.info[p].index;
    Below(ds[i].count) - Js(st.cached[i], p)
  }

  lemma LiveCount(ds: seq<Desc>, st: State, p: nat)
    requires Inv(ds, st) && p in st.info
    ensures forall j: nat :: j in LiveJs(ds, st, p) <==> Live(ds, st, Block(p, j))
    ensures |LiveJs(ds, st, p)| + st.info[p].numCached == ds[st.info[p].index].count
  {
    var i := st.info[p].index;
    var list, n := st.cached[i], ds[i].count;
    var js := Js(list, p);
    BelowSize(n);
    JsCount(list, p);
    forall j: nat
      ensures j in js <==> Block(p, j) in list
    {
      JsListed(list, p, j);
    }
    assert js <= Below(n);
    assert |Below(n)| == |js| + |Below(n) - js| by {
      assert Below(n) == js + (Below(n) - js);
    }
  }

  /** Bytes of the live blocks of a class, with their headers. */
  function LiveIn(ds: seq<Desc>, st: State, i: nat, ps: seq<nat>): nat
    requires i < |ds| && (forall k :: 0 <= k < |ps| ==> ps[k] in st.info && st.info[ps[k]].index < |ds|)
             && |st.cached| == |ds|
  {
    if ps == [] then 0 else |LiveJs(ds, st, ps[0])| * Unit(ds[i]) + LiveIn(ds, st, i, ps[1..])
  }

  lemma Distribute(a: nat, b: nat, n: nat, u: nat)
    requires a + b == n
    ensures n * u == a * u + b * u
  {
  }

  lemma {:induction false} ClassConserves(ds: seq<Desc>, st: State, i: nat, ps: seq<nat>)
    requires Inv(ds, st) && i < |ds| && forall k :: 0 <= k < |ps| ==> ps[k] in st.info && st.info[ps[k]].index == i
    ensures CachedIn(ds[i], ps, st.info) + LiveIn(ds, st, i, ps) == |ps| * PageBytes(ds[i])
  {
    if ps != [] {
      ClassConserves(ds, st, i, ps[1..]);
      LiveCount(ds, st, ps[0]);
      Distribute(|LiveJs(ds, st, ps[0])|, st.info[ps[0]].numCached, ds[i].count, Unit(ds[i]));
      OneMore(|ps|, PageBytes(ds[i]));
    }
  }

  function LiveBelow(ds: seq<Desc>, st: State, n: nat): nat
    requires n <= |ds| && Inv(ds, st)
  {
    if n == 0 then 0 else LiveBelow(ds, st, n - 1) + LiveIn(ds, st, n - 1, st.pages[n - 1])
  }

  /** Bytes of all pages of the classes below `n`. */
  function PageBytesBelow(ds: seq<Desc>, pages: seq<seq<nat>>, n: nat): nat
    requires n <= |ds| && n <= |pages|
  {
    if n == 0 then 0 else PageBytesBelow(ds, pages, n - 1) + |pages[n - 1]| * PageBytes(ds[n - 1])
  }

  lemma {:induction false} BelowConserves(ds: seq<Desc>, st: State, n: nat)
    requires Inv(ds, st) && n <= |ds|
    ensures CachedBelow(ds, st, n) + LiveBelow(ds, st, n) == PageBytesBelow(ds, st.pages, n)
    decreases n
  {
    if n > 0 {
      BelowConserves(ds, st, n - 1);
      ClassConserves(ds, st, n - 1, st.pages[n - 1]);
    }
  }

  /** Cached bytes are the bytes of all pages less the live blocks with their headers. */
  lemma Conservation(ds: seq<Desc>, st: State)
    requires Inv(ds, st)
    ensures st.cachedBytes == PageBytesBelow(ds, st.pages, |ds|) - LiveBelow(ds, st, |ds|)
  {
    BelowConserves(ds, st, |ds|);
  }

  // ---------------------------------------------------------------- runs

  datatype Op = DoMalloc(size: int, addr: nat) | DoFree(x: Pointer)

  function EmptyHeap(ds: seq<Desc>): State {
    State(Lists<nat>(|ds|), map[], Lists<Block>(|ds|), [], 0, 0, 0)
  }

  function Lists<T>(n: nat): (r: seq<seq<T>>)
    ensures |r| == n && forall i :: 0 <= i < n ==> r[i] == []
  {
    if n == 0 then [] else [[]] + Lists(n - 1)
  }

  lemma {:induction false} EmptyBelow(ds: seq<Desc>, n: nat)
    requires n <= |ds|
    ensures CachedBelow(ds, EmptyHeap(ds), n) == 0 && PagesBelow(ds, EmptyHeap(ds).pages, n) == 0
    decreases n
  {
    if n > 0 {
      EmptyBelow(ds, n - 1);
    }
  }

  lemma EmptyInv(ds: seq<Desc>)
    requires DescsOk(ds)
    ensures Inv(ds, EmptyHeap(ds))
  {
    EmptyBelow(ds, |ds|);
  }

  /** The system's addresses are fresh, and callers free only what they hold. */
  predicate Allowed(ds: seq<Desc>, st: State, op: Op) {
    match op
    case DoMalloc(_, addr) => Fresh(st, addr)
    case DoFree(x) => Held(ds, st, x)
  }

  function Do(ds: seq<Desc>, st: State, op: Op): State
    requires Inv(ds, st) && Allowed(ds, st, op)
  {
    match op
    case DoMalloc(size, addr) => Malloc(ds, st, size, addr).0
    case DoFree(x) => Free(ds, st, x)
  }

  lemma DoKeeps(ds: seq<Desc>, st: State, op: Op)
    requires Inv(ds, st) && Allowed(ds, st, op)
    ensures Inv(ds, Do(ds, st, op))
    ensures forall x :: x != Null && Held(ds, st, x) && op != DoFree(x) ==> Held(ds, Do(ds, st, op), x)
  {
    match op
    case DoMalloc(size, addr) => MallocKeeps(ds, st, size, addr);
    case DoFree(x) => FreeKeeps(ds, st, x);
  }

  predicate AllowedRun(ds: seq<Desc>, st: State, ops: seq<Op>)
    requires Inv(ds, st)
    decreases |ops|
  {
    ops == [] || (Allowed(ds, st, ops[0]) && (DoKeeps(ds, st, ops[0]); AllowedRun(ds, Do(ds, st, ops[0]), ops[1..])))
  }

  function RunAll(ds: seq<Desc>, st: State, ops: seq<Op>): State
    requires Inv(ds, st) && AllowedRun(ds, st, ops)
    decreases |ops|
  {
    if ops == [] then st
    else
      DoKeeps(ds, st, ops[0]);
      RunAll(ds, Do(ds, st, ops[0]), ops[1..])
  }

  /** After every run the counters are the sums they stand for, and a pointer lives until it is freed. */
  lemma {:induction false} EveryRun(ds: seq<Desc>, st: State, ops: seq<Op>, x: Pointer)
    requires Inv(ds, st) && AllowedRun(ds, st, ops)
    ensures var t := RunAll(ds, st, ops);
            Inv(ds, t) && 0 <= t.cachedBytes <= t.allocatedBytes
            && t.cachedBytes == PageBytesBelow(ds, t.pages, |ds|) - LiveBelow(ds, t, |ds|)
            && (Held(ds, st, x) && DoFree(x) !in ops ==> Held(ds, t, x))
    decreases |ops|
  {
    if ops == [] {
      Conservation(ds, st);
      CachedWithinAllocated(ds, st);
    } else {
      DoKeeps(ds, st, ops[0]);
      assert DoFree(x) !in ops ==> DoFree(x) !in ops[1..] && ops[0] != DoFree(x);
      EveryRun(ds, Do(ds, st, ops[0]), ops[1..], x);
    }
  }
}
