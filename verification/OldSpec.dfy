/** The older heap: pages of equal blocks for each size class, a list of cached blocks for each class, bulk release. */
module OldSpec {
  // Record sizes of a 32-bit build.
  const PAGE_HEADER: nat := 12
  const BLOCK_HEADER: nat := 8
  const STD_HEADER: nat := 4

  /** A size class: `block_size` and `num_blocks`. */
  datatype Desc = Desc(size: nat, count: nat)

  /** The `j`-th block of a page; pages are known by the address the system gave. */
  datatype Block = Block(page: nat, j: nat)

  datatype Page = Page(index: nat, numCached: nat)

  /** A block taken straight from the system for a caller. */
  datatype Large = Large(addr: nat, size: nat)

  datatype State = State(
    pages: seq<seq<nat>>,        // page lists, by class
    info: map<nat, Page>,
    cached: seq<seq<Block>>,     // lists of cached blocks, by class
    large: seq<Large>,
    cachedBytes: int,
    allocatedBytes: int,
    frees: nat)

  datatype Pointer = Null | Std(addr: nat) | Paged(block: Block)

  predicate DescsOk(ds: seq<Desc>) {
    ds != [] && (forall i :: 0 <= i < |ds| ==> ds[i].size > 0 && ds[i].count > 0)
    && forall i, j :: 0 <= i < j < |ds| ==> ds[i].size < ds[j].size
  }

  function Unit(d: Desc): nat {
    d.size + BLOCK_HEADER
  }

  function PageBytes(d: Desc): nat {
    PAGE_HEADER + d.count * Unit(d)
  }

  /** What a request of `size` bytes costs the system. */
  function StdBytes(size: nat): nat {
    (size + 7) / 8 * 8 + STD_HEADER
  }

  // ---------------------------------------------------------------- lists

  function CountOn(list: seq<Block>, p: nat): nat {
    if list == [] then 0 else (if list[0].page == p then 1 else 0) + CountOn(list[1..], p)
  }

  predicate Distinct<T(==)>(s: seq<T>) {
    forall i, j :: 0 <= i < j < |s| ==> s[i] != s[j]
  }

  /** The blocks of a new page as they go on the list: the last one first. */
  function BlocksOf(p: nat, n: nat): seq<Block> {
    if n == 0 then [] else [Block(p, n - 1)] + BlocksOf(p, n - 1)
  }

  predicate Full(d: Desc, info: map<nat, Page>, p: nat) {
    p in info && info[p].numCached == d.count
  }

  /** Blocks that are not on a page about to be released. */
  function KeptBlocks(d: Desc, info: map<nat, Page>, list: seq<Block>): seq<Block> {
    if list == [] then []
    else if Full(d, info, list[0].page) then KeptBlocks(d, info, list[1..])
    else [list[0]] + KeptBlocks(d, info, list[1..])
  }

  function KeptPages(d: Desc, info: map<nat, Page>, ps: seq<nat>): seq<nat> {
    if ps == [] then []
    else if Full(d, info, ps[0]) then KeptPages(d, info, ps[1..])
    else [ps[0]] + KeptPages(d, info, ps[1..])
  }

  function FullPages(d: Desc, info: map<nat, Page>, ps: seq<nat>): seq<nat> {
    if ps == [] then []
    else if Full(d, info, ps[0]) then [ps[0]] + FullPages(d, info, ps[1..])
    else FullPages(d, info, ps[1..])
  }

  // ---------------------------------------------------------------- operations

  function TakeCached(ds: seq<Desc>, st: State, i: nat): (r: (State, Block))
    requires i < |ds| && i < |st.cached| && st.cached[i] != [] && st.cached[i][0].page in st.info
    requires st.info[st.cached[i][0].page].numCached > 0
  {
    var b := st.cached[i][0];
    var page := st.info[b.page];
    (st.(cached := st.cached[i := st.cached[i][1..]],
         info := st.info[b.page := page.(numCached := page.numCached - 1)],
         cachedBytes := st.cachedBytes - Unit(ds[i])), b)
  }

  function AddPage(ds: seq<Desc>, st: State, i: nat, addr: nat): State
    requires i < |ds| && i < |st.cached| && i < |st.pages|
  {
    st.(pages := st.pages[i := [addr] + st.pages[i]],
        info := st.info[addr := Page(i, ds[i].count)],
        cached := st.cached[i := BlocksOf(addr, ds[i].count) + st.cached[i]],
        cachedBytes := st.cachedBytes + PageBytes(ds[i]),
        allocatedBytes := st.allocatedBytes + StdBytes(PageBytes(ds[i])))
  }

  function PutBack(ds: seq<Desc>, st: State, b: Block): State
    requires b.page in st.info && st.info[b.page].index < |ds| && st.info[b.page].index < |st.cached|
  {
    var page := st.info[b.page];
    st.(cached := st.cached[page.index := [b] + st.cached[page.index]],
        info := st.info[b.page := page.(numCached := page.numCached + 1)],
        cachedBytes := st.cachedBytes + Unit(ds[page.index]),
        frees := st.frees + 1)
  }

  /** Release all fully cached pages of a class. */
  function ReleaseClass(ds: seq<Desc>, st: State, i: nat): State
    requires i < |ds| && i < |st.cached| && i < |st.pages|
  {
    var gone := FullPages(ds[i], st.info, st.pages[i]);
    State(st.pages[i := KeptPages(ds[i], st.info, st.pages[i])],
          map p | p in st.info && p !in gone :: st.info[p],
          st.cached[i := KeptBlocks(ds[i], st.info, st.cached[i])],
          st.large,
          st.cachedBytes - |gone| * PageBytes(ds[i]),
          st.allocatedBytes - |gone| * StdBytes(PageBytes(ds[i])),
          st.frees + |gone|)
  }

  /** Classes below `n`, from the top, until the cache is small enough; only a class that gave something is checked. */
  function ReleaseBelow(ds: seq<Desc>, st: State, n: nat, target: int): State
    requires n <= |ds| && n <= |st.cached| && n <= |st.pages|
    decreases n
  {
    if n == 0 then st
    else
      var next := ReleaseClass(ds, st, n - 1);
      if next.frees > st.frees && next.cachedBytes <= target then next else ReleaseBelow(ds, next, n - 1, target)
  }

  function FreeCached(ds: seq<Desc>, st: State, target: int): State
    requires |ds| == |st.cached| == |st.pages|
  {
    if st.cachedBytes > target then ReleaseBelow(ds, st, |ds|, target) else st
  }

  /** The least class that is large enough; |ds| for none. */
  function ClassOf(ds: seq<Desc>, size: int): (i: nat)
    ensures i <= |ds| && (forall j :: 0 <= j < i ==> ds[j].size < size) && (i < |ds| ==> size <= ds[i].size)
  {
    if ds == [] || size <= ds[0].size then 0
    else
      var i := 1 + ClassOf(ds[1..], size);
      assert forall j :: 1 <= j < i ==> ds[j] == ds[1..][j - 1];
      i
  }

  // ---------------------------------------------------------------- accounting

  /** Cached bytes of the pages of one class, headers included. */
  function CachedIn(d: Desc, ps: seq<nat>, info: map<nat, Page>): nat
    requires forall k :: 0 <= k < |ps| ==> ps[k] in info
  {
    if ps == [] then 0 else PAGE_HEADER + info[ps[0]].numCached * Unit(d) + CachedIn(d, ps[1..], info)
  }

  predicate Listed(st: State) {
    forall i, k :: 0 <= i < |st.pages| && 0 <= k < |st.pages[i]| ==> st.pages[i][k] in st.info
  }

  function CachedBelow(ds: seq<Desc>, st: State, n: nat): nat
    requires n <= |ds| && n <= |st.pages| && Listed(st)
  {
    if n == 0 then 0 else CachedBelow(ds, st, n - 1) + CachedIn(ds[n - 1], st.pages[n - 1], st.info)
  }

  /** Bytes the system gave for the pages of the classes below `n`. */
  function PagesBelow(ds: seq<Desc>, pages: seq<seq<nat>>, n: nat): nat
    requires n <= |ds| && n <= |pages|
  {
    if n == 0 then 0 else PagesBelow(ds, pages, n - 1) + |pages[n - 1]| * StdBytes(PageBytes(ds[n - 1]))
  }

  function LargeBytes(large: seq<Large>): nat {
    if large == [] then 0 else StdBytes(large[0].size) + LargeBytes(large[1..])
  }

  // ---------------------------------------------------------------- the invariant

  /** Page lists and page records describe the same pages. */
  predicate PagesOk(ds: seq<Desc>, st: State) {
    |st.pages| == |ds| && Listed(st)
    && (forall i, k :: 0 <= i < |ds| && 0 <= k < |st.pages[i]| ==> st.info[st.pages[i][k]].index == i)
    && (forall p :: p in st.info ==> st.info[p].index < |ds| && p in st.pages[st.info[p].index])
    && (forall i :: 0 <= i < |ds| ==> Distinct(st.pages[i]))
  }

  /** Cached blocks are blocks of pages of their class, each on the list once. */
  predicate BlocksOk(ds: seq<Desc>, st: State) {
    |st.cached| == |ds|
    && (forall i, k :: 0 <= i < |ds| && 0 <= k < |st.cached[i]| ==>
          st.cached[i][k].page in st.info && st.info[st.cached[i][k].page].index == i
              && st.cached[i][k].j < ds[i].count)
    && (forall i :: 0 <= i < |ds| ==> Distinct(st.cached[i]))
  }

  /** A page's counter is the number of its blocks on the list of its class. */
  predicate CountsOk(ds: seq<Desc>, st: State)
    requires |st.cached| == |ds|
  {
    forall p :: p in st.info && st.info[p].index < |ds| ==>
      st.info[p].numCached == CountOn(st.cached[st.info[p].index], p)
  }

  predicate LargeOk(st: State) {
    (forall k :: 0 <= k < |st.large| ==> st.large[k].addr !in st.info)
    && forall j, k :: 0 <= j < k < |st.large| ==> st.large[j].addr != st.large[k].addr
  }

  predicate Inv(ds: seq<Desc>, st: State) {
    DescsOk(ds) && PagesOk(ds, st) && BlocksOk(ds, st) && CountsOk(ds, st) && LargeOk(st)
    && st.cachedBytes == CachedBelow(ds, st, |ds|)
    && st.allocatedBytes == PagesBelow(ds, st.pages, |ds|) + LargeBytes(st.large)
  }

  /** A block that is handed out: a block of a page that is not on its list. */
  predicate Live(ds: seq<Desc>, st: State, b: Block) {
    b.page in st.info && st.info[b.page].index < |ds| && st.info[b.page].index < |st.cached|
    && b.j < ds[st.info[b.page].index].count && b !in st.cached[st.info[b.page].index]
  }

  predicate Held(ds: seq<Desc>, st: State, x: Pointer) {
    match x
    case Null => true
    case Std(addr) => exists k :: 0 <= k < |st.large| && st.large[k].addr == addr
    case Paged(b) => Live(ds, st, b)
  }

  /** An address the system has not given out. */
  predicate Fresh(st: State, addr: nat) {
    addr !in st.info && forall k :: 0 <= k < |st.large| ==> st.large[k].addr != addr
  }
}
