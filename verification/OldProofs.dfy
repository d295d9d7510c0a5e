/** Every operation of the older heap keeps its invariant. */
module OldProofs {
  import opened OldSpec

  // ---------------------------------------------------------------- counting

  lemma {:induction false} CountJoin(x: seq<Block>, y: seq<Block>, p: nat)
    ensures CountOn(x + y, p) == CountOn(x, p) + CountOn(y, p)
  {
    if x == [] {
      assert x + y == y;
    } else {
      assert (x + y)[1..] == x[1..] + y;
      CountJoin(x[1..], y, p);
    }
  }

  lemma {:induction false} CountAbsent(list: seq<Block>, p: nat)
    requires forall k :: 0 <= k < |list| ==> list[k].page != p
    ensures CountOn(list, p) == 0
  {
    if list != [] {
      CountAbsent(list[1..], p);
    }
  }

  lemma {:induction false} CountPresent(list: seq<Block>, k: nat)
    requires k < |list|
    ensures CountOn(list, list[k].page) > 0
  {
    if k > 0 {
      CountPresent(list[1..], k - 1);
    }
  }

  lemma {:induction false} NewBlocks(p: nat, n: nat)
    ensures |BlocksOf(p, n)| == n && forall k :: 0 <= k < n ==> BlocksOf(p, n)[k] == Block(p, n - 1 - k)
    ensures forall q :: CountOn(BlocksOf(p, n), q) == if q == p then n else 0
  {
    if n > 0 {
      NewBlocks(p, n - 1);
      assert BlocksOf(p, n)[1..] == BlocksOf(p, n - 1);
    }
  }

  /** The numbers of the listed blocks of a page. */
  function Js(list: seq<Block>, p: nat): set<nat> {
    if list == [] then {} else (if list[0].page == p then {list[0].j} else {}) + Js(list[1..], p)
  }

  lemma DistinctTail<T>(list: seq<T>)
    requires Distinct(list) && list != []
    ensures Distinct(list[1..]) && list[0] !in list[1..]
    ensures forall x :: x in list <==> x == list[0] || x in list[1..]
  {
    assert list == [list[0]] + list[1..];
    assert forall k :: 0 <= k < |list[1..]| ==> list[1..][k] == list[k + 1];
  }

  lemma {:induction false} JsListed(list: seq<Block>, p: nat, j: nat)
    ensures j in Js(list, p) <==> Block(p, j) in list
  {
    if list != [] {
      JsListed(list[1..], p, j);
      assert list == [list[0]] + list[1..];
      assert list[0] == Block(list[0].page, list[0].j);
    }
  }

  lemma {:induction false} JsCount(list: seq<Block>, p: nat)
    requires Distinct(list)
    ensures |Js(list, p)| == CountOn(list, p)
  {
    if list != [] {
      DistinctTail(list);
      JsCount(list[1..], p);
      if list[0].page == p {
        assert list[0] == Block(p, list[0].j);
        JsListed(list[1..], p, list[0].j);
      }
    }
  }

  function Below(n: nat): set<nat> {
    if n == 0 then {} else Below(n - 1) + {n - 1}
  }

  lemma {:induction false} BelowSize(n: nat)
    ensures |Below(n)| == n && forall j: nat :: j in Below(n) <==> j < n
  {
    if n > 0 {
      BelowSize(n - 1);
    }
  }

  lemma SubsetSize(a: set<nat>, b: set<nat>)
    requires a <= b
    ensures |a| <= |b| && (|a| == |b| ==> a == b)
  {
    assert b == a + (b - a);
    assert |b| == |a| + |b - a|;
  }

  predicate AllListed(list: seq<Block>, p: nat, n: nat) {
    forall j: nat :: j < n ==> Block(p, j) in list
  }

  /** Pigeonholes: at most `n` listed blocks of a page, and with `n` of them each one is listed. */
  lemma ListedBlocks(list: seq<Block>, p: nat, n: nat)
    requires Distinct(list) && forall b :: b in list && b.page == p ==> b.j < n
    ensures CountOn(list, p) <= n
    ensures CountOn(list, p) == n <==> AllListed(list, p, n)
  {
    var js := Js(list, p);
    JsCount(list, p);
    BelowSize(n);
    forall j: nat
      ensures j in js <==> Block(p, j) in list
    {
      JsListed(list, p, j);
    }
    assert js <= Below(n);
    SubsetSize(js, Below(n));
    if AllListed(list, p, n) {
      forall j: nat | j in Below(n)
        ensures j in js
      {
        assert Block(p, j) in list;
      }
      assert js == Below(n);
    }
  }

  /** In a good state: a page is full iff none of its blocks is live. */
  lemma FullMeansIdle(ds: seq<Desc>, st: State, p: nat)
    requires Inv(ds, st) && p in st.info
    ensures st.info[p].numCached <= ds[st.info[p].index].count
    ensures Full(ds[st.info[p].index], st.info, p) <==> forall j: nat :: !Live(ds, st, Block(p, j))
  {
    var i := st.info[p].index;
    ListedBlocks(st.cached[i], p, ds[i].count);
    assert AllListed(st.cached[i], p, ds[i].count)
           <==> forall j: nat :: j < ds[i].count ==> Block(p, j) in st.cached[i];
    assert forall j: nat :: Live(ds, st, Block(p, j)) <==> j < ds[i].count && Block(p, j) !in st.cached[i];
  }

  // ---------------------------------------------------------------- sums

  lemma {:induction false} CachedInSame(d: Desc, ps: seq<nat>, a: map<nat, Page>, b: map<nat, Page>)
    requires forall k :: 0 <= k < |ps| ==> ps[k] in a && ps[k] in b && a[ps[k]].numCached == b[ps[k]].numCached
    ensures CachedIn(d, ps, a) == CachedIn(d, ps, b)
  {
    if ps != [] {
      CachedInSame(d, ps[1..], a, b);
    }
  }

  function Signed(up: bool, n: nat): int {
    if up then n else 0 - n
  }

  /** One counter of the class goes up or down by one. */
  lemma {:induction false} CachedInChange(d: Desc, ps: seq<nat>, info: map<nat, Page>, k: nat, x: Page, up: bool)
    requires Distinct(ps) && k < |ps| && (forall j :: 0 <= j < |ps| ==> ps[j] in info)
    requires x.numCached == info[ps[k]].numCached + if up then 1 else -1
    ensures CachedIn(d, ps, info[ps[k] := x]) == CachedIn(d, ps, info) + Signed(up, Unit(d))
  {
    var after := info[ps[k] := x];
    if k == 0 {
      CachedInSame(d, ps[1..], info, after);
      var u: int, n: int := Unit(d), info[ps[0]].numCached;
      assert (n + 1) * u == n * u + u && (n - 1) * u == n * u - u;
    } else {
      assert ps[1..][k - 1] == ps[k];
      CachedInChange(d, ps[1..], info, k - 1, x, up);
    }
  }

  /** Only class `i` changes. */
  lemma {:induction false} CachedBelowChange(ds: seq<Desc>, s: State, t: State, i: nat, delta: int, n: nat)
    requires n <= |ds| && n <= |s.pages| && n <= |t.pages| && Listed(s) && Listed(t)
    requires forall j :: 0 <= j < n ==>
               CachedIn(ds[j], t.pages[j], t.info) == CachedIn(ds[j], s.pages[j], s.info) + if j == i then delta else 0
    ensures CachedBelow(ds, t, n) == CachedBelow(ds, s, n) + if i < n then delta else 0
    decreases n
  {
    if n > 0 {
      CachedBelowChange(ds, s, t, i, delta, n - 1);
    }
  }

  lemma {:induction false} PagesBelowChange(ds: seq<Desc>, a: seq<seq<nat>>, b: seq<seq<nat>>, i: nat, delta: int,
                                            n: nat)
    requires n <= |ds| && n <= |a| && n <= |b|
    requires forall j :: 0 <= j < n && j != i ==> |b[j]| == |a[j]|
    requires i < n ==> |b[i]| == |a[i]| + delta
    ensures PagesBelow(ds, b, n) == PagesBelow(ds, a, n) + if i < n then delta * StdBytes(PageBytes(ds[i])) else 0
    decreases n
  {
    if n > 0 {
      if i == n - 1 {
        PagesBelowSame(ds, a, b, n - 1);
        var u := StdBytes(PageBytes(ds[i]));
        assert |b[i]| * u == |a[i]| * u + delta * u;
      } else {
        PagesBelowChange(ds, a, b, i, delta, n - 1);
      }
    }
  }

  lemma {:induction false} PagesBelowSame(ds: seq<Desc>, a: seq<seq<nat>>, b: seq<seq<nat>>, n: nat)
    requires n <= |ds| && n <= |a| && n <= |b| && forall j :: 0 <= j < n ==> |b[j]| == |a[j]|
    ensures PagesBelow(ds, b, n) == PagesBelow(ds, a, n)
    decreases n
  {
    if n > 0 {
      PagesBelowSame(ds, a, b, n - 1);
    }
  }

  // ---------------------------------------------------------------- taking and putting back a block

  /** What the change means for class `j`. */
  lemma CounterInClass(ds: seq<Desc>, s: State, p: nat, x: Page, up: bool, j: nat)
    requires DescsOk(ds) && PagesOk(ds, s) && p in s.info && x.index == s.info[p].index && j < |ds|
    requires x.numCached == s.info[p].numCached + if up then 1 else -1
    ensures CachedIn(ds[j], s.pages[j], s.info[p := x])
            == CachedIn(ds[j], s.pages[j], s.info) + if j == x.index then Signed(up, Unit(ds[x.index])) else 0
  {
    if j == x.index {
      var k :| 0 <= k < |s.pages[j]| && s.pages[j][k] == p;
      CachedInChange(ds[j], s.pages[j], s.info, k, x, up);
    } else {
      CachedInSame(ds[j], s.pages[j], s.info, s.info[p := x]);
    }
  }

  /** Counting one page of a class up or down. */
  lemma CounterChange(ds: seq<Desc>, s: State, t: State, p: nat, x: Page, up: bool)
    requires DescsOk(ds) && PagesOk(ds, s) && p in s.info && x.index == s.info[p].index
    requires x.numCached == s.info[p].numCached + if up then 1 else -1
    requires t.pages == s.pages && t.info == s.info[p := x]
    ensures PagesOk(ds, t)
    ensures CachedBelow(ds, t, |ds|) == CachedBelow(ds, s, |ds|) + Signed(up, Unit(ds[x.index]))
  {
    var i := x.index;
    var delta := Signed(up, Unit(ds[i]));
    forall j | 0 <= j < |ds|
      ensures CachedIn(ds[j], t.pages[j], t.info) == CachedIn(ds[j], s.pages[j], s.info) + if j == i then delta else 0
    {
      CounterInClass(ds, s, p, x, up, j);
    }
    CachedBelowChange(ds, s, t, i, delta, |ds|);
  }

  /** The head of a list belongs to a page with a cached block. */
  lemma HeadOk(ds: seq<Desc>, st: State, i: nat)
    requires Inv(ds, st) && i < |ds| && st.cached[i] != []
    ensures var p := st.cached[i][0].page; p in st.info && st.info[p].index == i && st.info[p].numCached > 0
  {
    CountPresent(st.cached[i], 0);
  }

  lemma TakeCounts(ds: seq<Desc>, st: State, i: nat)
    requires Inv(ds, st) && i < |ds| && st.cached[i] != []
    ensures (HeadOk(ds, st, i); CountsOk(ds, TakeCached(ds, st, i).0) && BlocksOk(ds, TakeCached(ds, st, i).0))
  {
    HeadOk(ds, st, i);
    var t := TakeCached(ds, st, i).0;
    var list := st.cached[i];
    assert list == [list[0]] + list[1..];
    assert t.cached[i] == list[1..] && forall k :: 0 <= k < |list[1..]| ==> list[1..][k] == list[k + 1];
  }

  /** Exactly the head becomes live. */
  lemma TakeLive(ds: seq<Desc>, st: State, i: nat)
    requires Inv(ds, st) && i < |ds| && st.cached[i] != []
    ensures (HeadOk(ds, st, i);
             var r := TakeCached(ds, st, i);
             Live(ds, r.0, r.1) && !Live(ds, st, r.1) && forall b :: Live(ds, r.0, b) <==> Live(ds, st, b) || b == r.1)
  {
    HeadOk(ds, st, i);
    var r := TakeCached(ds, st, i);
    DistinctTail(st.cached[i]);
    forall b
      ensures Live(ds, r.0, b) <==> Live(ds, st, b) || b == r.1
    {
    }
  }

  lemma TakeKeeps(ds: seq<Desc>, st: State, i: nat)
    requires Inv(ds, st) && i < |ds| && st.cached[i] != []
    ensures (HeadOk(ds, st, i); Inv(ds, TakeCached(ds, st, i).0))
  {
    HeadOk(ds, st, i);
    var r := TakeCached(ds, st, i);
    TakeCounts(ds, st, i);
    CounterChange(ds, st, r.0, r.1.page, r.0.info[r.1.page], false);
  }

  lemma PutCounts(ds: seq<Desc>, st: State, b: Block)
    requires Inv(ds, st) && Live(ds, st, b)
    ensures CountsOk(ds, PutBack(ds, st, b))
  {
    var i := st.info[b.page].index;
    var t := PutBack(ds, st, b);
    assert t.cached[i][1..] == st.cached[i];
  }

  lemma PutBlocks(ds: seq<Desc>, st: State, b: Block)
    requires Inv(ds, st) && Live(ds, st, b)
    ensures BlocksOk(ds, PutBack(ds, st, b))
  {
  }

  /** Exactly the block ends to be live. */
  lemma PutLive(ds: seq<Desc>, st: State, b: Block)
    requires Inv(ds, st) && Live(ds, st, b)
    ensures var t := PutBack(ds, st, b); !Live(ds, t, b) && forall x :: x != b ==> (Live(ds, t, x) <==> Live(ds, st, x))
  {
    var t := PutBack(ds, st, b);
    assert t.cached[st.info[b.page].index][0] == b;
    forall x | x != b
      ensures Live(ds, t, x) <==> Live(ds, st, x)
    {
    }
  }

  lemma PutKeeps(ds: seq<Desc>, st: State, b: Block)
    requires Inv(ds, st) && Live(ds, st, b)
    ensures Inv(ds, PutBack(ds, st, b))
  {
    var t := PutBack(ds, st, b);
    PutCounts(ds, st, b);
    PutBlocks(ds, st, b);
    CounterChange(ds, st, t, b.page, t.info[b.page], true);
  }

  // ---------------------------------------------------------------- a new page

  lemma NewPageLists(ds: seq<Desc>, st: State, i: nat, addr: nat)
    requires Inv(ds, st) && i < |ds| && Fresh(st, addr)
    ensures PagesOk(ds, AddPage(ds, st, i, addr))
  {
    var t := AddPage(ds, st, i, addr);
    assert t.pages[i][0] == addr && t.pages[i][1..] == st.pages[i];
    forall p | p in t.info
      ensures p in t.pages[t.info[p].index]
    {
      if p != addr {
        assert p in st.pages[st.info[p].index];
      }
    }
  }

  lemma NewPageBlocks(ds: seq<Desc>, st: State, i: nat, addr: nat)
    requires Inv(ds, st) && i < |ds| && Fresh(st, addr)
    ensures BlocksOk(ds, AddPage(ds, st, i, addr))
  {
    NewBlocks(addr, ds[i].count);
    assert forall k :: 0 <= k < |st.cached[i]| ==> st.cached[i][k].page != addr;
  }

  lemma NewPageCounts(ds: seq<Desc>, st: State, i: nat, addr: nat)
    requires Inv(ds, st) && i < |ds| && Fresh(st, addr)
    ensures CountsOk(ds, AddPage(ds, st, i, addr))
  {
    var t := AddPage(ds, st, i, addr);
    var new_, old_ := BlocksOf(addr, ds[i].count), st.cached[i];
    NewBlocks(addr, ds[i].count);
    assert forall k :: 0 <= k < |old_| ==> old_[k].page != addr;
    CountAbsent(old_, addr);
    forall p | p in t.info && t.info[p].index == i
      ensures t.info[p].numCached == CountOn(t.cached[i], p)
    {
      CountJoin(new_, old_, p);
    }
  }

  lemma NewPageCached(ds: seq<Desc>, st: State, i: nat, addr: nat)
    requires Inv(ds, st) && i < |ds| && Fresh(st, addr) && PagesOk(ds, AddPage(ds, st, i, addr))
    ensures var t := AddPage(ds, st, i, addr); t.cachedBytes == CachedBelow(ds, t, |ds|)
  {
    var t := AddPage(ds, st, i, addr);
    forall j | 0 <= j < |ds|
      ensures CachedIn(ds[j], t.pages[j], t.info)
              == CachedIn(ds[j], st.pages[j], st.info) + if j == i then PageBytes(ds[i]) else 0
    {
      CachedInSame(ds[j], st.pages[j], st.info, t.info);
      if j == i {
        assert t.pages[i][1..] == st.pages[i];
      }
    }
    CachedBelowChange(ds, st, t, i, PageBytes(ds[i]), |ds|);
  }

  lemma AddPageKeeps(ds: seq<Desc>, st: State, i: nat, addr: nat)
    requires Inv(ds, st) && i < |ds| && Fresh(st, addr)
    ensures Inv(ds, AddPage(ds, st, i, addr)) && AddPage(ds, st, i, addr).cached[i] != []
  {
    var t := AddPage(ds, st, i, addr);
    NewPageLists(ds, st, i, addr);
    NewPageBlocks(ds, st, i, addr);
    NewPageCounts(ds, st, i, addr);
    NewPageCached(ds, st, i, addr);
    PagesBelowChange(ds, st.pages, t.pages, i, 1, |ds|);
    NewBlocks(addr, ds[i].count);
  }

  lemma NewPageIdle(ds: seq<Desc>, st: State, i: nat, addr: nat)
    requires Inv(ds, st) && i < |ds| && Fresh(st, addr)
    ensures var t := AddPage(ds, st, i, addr); forall b :: Live(ds, t, b) <==> Live(ds, st, b)
  {
    var t := AddPage(ds, st, i, addr);
    var n := ds[i].count;
    NewBlocks(addr, n);
    forall b
      ensures Live(ds, t, b) <==> Live(ds, st, b)
    {
      if b.page == addr && b.j < n {
        assert BlocksOf(addr, n)[n - 1 - b.j] == b;
        assert b in t.cached[i];
      }
    }
  }
}
