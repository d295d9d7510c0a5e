/** What every step of the small tier keeps, and the failure the source has when the system runs dry. */
module SmallProofs {
  import opened HeapLayout
  import opened SmallSpec

  // ---------------------------------------------------------------- ledger order

  predicate SBefore(a: SBlk, b: SBlk) {
    a.page < b.page || (a.page == b.page && a.End() <= b.offs && a.offs < b.offs)
  }

  lemma {:induction false} LedgerBefore(c: seq<SBlk>, i: nat, j: nat)
    requires Ledger([START] + c) && (forall b :: b in c ==> Fine(b)) && i < j < |c|
    ensures SBefore(c[i], c[j])
    decreases j - i
  {
    var s := [START] + c;
    assert Follows(s[j], s[j + 1]) && s[j] == c[j - 1] && s[j + 1] == c[j];
    assert Fine(c[j - 1]) && Fine(c[j]);
    if i < j - 1 {
      LedgerBefore(c, i, j - 1);
    }
  }

  lemma LedgerUnique(c: seq<SBlk>)
    requires Ledger([START] + c) && forall b :: b in c ==> Fine(b)
    ensures Unique(c)
  {
    forall i, j | 0 <= i < j < |c| ensures c[i] != c[j] {
      LedgerBefore(c, i, j);
    }
  }

  /** Two carved blocks never share a byte, and none reaches into the page header or past the page. */
  lemma CarvedDisjoint(s: SState, a: SBlk, b: SBlk)
    requires SInv(s) && a in s.carved && b in s.carved && a != b && a.page == b.page
    ensures a.End() <= b.offs || b.End() <= a.offs
    ensures SMALL_PAGE_HEADER <= a.offs && a.End() <= PAGE_SIZE
  {
    var i :| 0 <= i < |s.carved| && s.carved[i] == a;
    var j :| 0 <= j < |s.carved| && s.carved[j] == b;
    if i < j {
      LedgerBefore(s.carved, i, j);
    } else {
      LedgerBefore(s.carved, j, i);
    }
  }

  /** Nothing was carved from the unbumped tail. */
  lemma BehindBump(s: SState, b: SBlk)
    requires SInv(s) && b in s.carved
    ensures 1 <= b.page <= s.pages && (b.page == s.pages ==> b.End() <= s.bump)
  {
    var n := |s.carved| - 1;
    var i :| 0 <= i <= n && s.carved[i] == b;
    if i < n {
      LedgerBefore(s.carved, i, n);
    }
    FirstPage(s.carved, i);
  }

  lemma {:induction false} FirstPage(c: seq<SBlk>, i: nat)
    requires Ledger([START] + c) && (forall b :: b in c ==> Fine(b)) && i < |c|
    ensures c[i].page >= 1
    decreases i
  {
    var s := [START] + c;
    assert Follows(s[i], s[i + 1]) && s[i + 1] == c[i];
    if i > 0 {
      FirstPage(c, i - 1);
    } else {
      assert Fine(c[0]);
    }
  }

  // ---------------------------------------------------------------- the ledger grows

  lemma {:induction false} UsedAppend(c: seq<SBlk>, live: set<SBlk>, b: SBlk)
    ensures UsedBytes(c + [b], live) == UsedBytes(c, live) + (if b in live then b.Bytes() else 0)
    ensures UsedCount(c + [b], live) == UsedCount(c, live) + (if b in live then 1 else 0)
  {
    if c == [] {
      assert c + [b] == [b];
    } else {
      assert (c + [b])[1..] == c[1..] + [b];
      UsedAppend(c[1..], live, b);
    }
  }

  lemma {:induction false} UsedAbsent(c: seq<SBlk>, live: set<SBlk>, b: SBlk)
    requires b !in c
    ensures UsedBytes(c, live + {b}) == UsedBytes(c, live - {b}) == UsedBytes(c, live)
    ensures UsedCount(c, live + {b}) == UsedCount(c, live - {b}) == UsedCount(c, live)
  {
    if c != [] {
      UsedAbsent(c[1..], live, b);
    }
  }

  /** One block of the ledger turns live. */
  lemma {:induction false} UsedAdd(c: seq<SBlk>, live: set<SBlk>, b: SBlk)
    requires Unique(c) && b in c && b !in live
    ensures UsedBytes(c, live + {b}) == UsedBytes(c, live) + b.Bytes()
    ensures UsedCount(c, live + {b}) == UsedCount(c, live) + 1
  {
    if c[0] == b {
      UsedAbsent(c[1..], live, b);
    } else {
      UsedAdd(c[1..], live, b);
    }
  }

  lemma LedgerGrows(c: seq<SBlk>, b: SBlk)
    requires Ledger([START] + c) && Follows(if c == [] then START else c[|c| - 1], b)
    ensures Ledger([START] + (c + [b]))
  {
    var s := [START] + (c + [b]);
    forall i, j | 0 <= i && j == i + 1 && j < |s| ensures Follows(s[i], s[j]) {
      if j < |c| + 1 {
        assert s[i] == ([START] + c)[i] && s[j] == ([START] + c)[j];
      }
    }
  }

  /** The invariant with `b` carved but neither live nor listed yet. */
  ghost predicate SInvBut(s: SState, b: SBlk) {
    && WellFormed(s)
    && Ledger([START] + s.carved) && (forall x :: x in s.carved ==> Fine(x))
    && BumpAtEnd(s)
    && b in s.carved && b !in s.live && b !in s.lists[b.slot]
    && s.live <= (set x | x in s.carved)
    && (forall x :: x in s.carved && x != b ==> (x in s.live <==> x !in s.lists[x.slot]))
    && (forall k :: 0 <= k < SLOT_COUNT ==>
          Unique(s.lists[k]) && forall x :: x in s.lists[k] ==> x in s.carved && x.slot == k)
    && SAccounted(s)
  }

  lemma GrantKeeps(s: SState, b: SBlk)
    requires SInvBut(s, b)
    ensures SInv(Grant(s, b))
  {
    LedgerUnique(s.carved);
    UsedAdd(s.carved, s.live, b);
  }

  lemma ListKeeps(s: SState, b: SBlk)
    requires SInvBut(s, b)
    ensures SInv(s.(lists := Push(s.lists, b)))
  {
  }

  /** Carving `b` off the bump page. */
  lemma CarveKeeps(s: SState, b: SBlk, bump: int)
    requires SInv(s) && Fine(b) && b.page == s.pages && b.offs == s.bump && bump == b.End() && s.carved != []
    ensures SInvBut(s.(carved := s.carved + [b], bump := bump), b)
  {
    assert b !in s.carved by {
      if b in s.carved {
        BehindBump(s, b);
      }
    }
    LedgerGrows(s.carved, b);
    UsedAppend(s.carved, s.live, b);
  }

  /** Starting a page: what is left of the old one is at most 2 * ALIGN bytes. */
  lemma PageKeeps(s: SState, b: SBlk, bump: int)
    requires SInv(s) && Fine(b) && b.page == s.pages + 1 && b.offs == SMALL_PAGE_HEADER && bump == b.End()
             && bump % ALIGN == 0
    requires s.pageSize - s.bump <= 2 * ALIGN
    ensures SInvBut(NewPage(s).(carved := s.carved + [b], bump := bump), b)
  {
    assert b !in s.carved by {
      if b in s.carved {
        BehindBump(s, b);
      }
    }
    assert s.carved != [] ==> Fine(s.carved[|s.carved| - 1]);
    LedgerGrows(s.carved, b);
    UsedAppend(s.carved, s.live, b);
  }

  /** Taking the head of a slot's list out of it. */
  lemma PopKeeps(s: SState, i: int)
    requires SInv(s) && 0 <= i < SLOT_COUNT && s.lists[i] != []
    ensures SInvBut(s.(lists := s.lists[i := s.lists[i][1..]], stats := s.stats.Hit()), s.lists[i][0])
  {
    var b := s.lists[i][0];
    assert b in s.lists[i];
    forall x | x in s.carved && x != b && x.slot == i ensures x in s.lists[i] <==> x in s.lists[i][1..] {
      assert s.lists[i] == [b] + s.lists[i][1..];
    }
  }

  // ---------------------------------------------------------------- steps

  /** Listing a worthwhile tail: the page is then used up to its last byte. */
  lemma SalvageKeeps(s: SState, size: int)
    requires SInv(s) && size <= SLOT_COUNT * ALIGN && s.pageSize - s.bump < size
    ensures SInv(Salvage(s, size).(bump := if Salvages(s, size) then s.pageSize else s.bump))
  {
    if Salvages(s, size) {
      var b := Tail(s);
      assert Fine(s.carved[0]);
      BumpFloor(s);
      CarveKeeps(s, b, s.pageSize);
      ListKeeps(s.(carved := s.carved + [b], bump := s.pageSize), b);
    }
  }

  lemma BumpFloor(s: SState)
    requires SInv(s) && s.carved != []
    ensures SMALL_PAGE_HEADER < s.bump
  {
    assert Fine(s.carved[|s.carved| - 1]);
  }

  lemma NewPageKeeps(s: SState, size: int)
    requires SInv(s) && size % ALIGN == 0 && ALIGN <= size <= SLOT_COUNT * ALIGN && s.pageSize - s.bump < size
    ensures var (s', b) := Bump(NewPage(Salvage(s, size)), size); SInv(Grant(s', b))
  {
    var (s', b) := Bump(NewPage(Salvage(s, size)), size);
    SalvageKeeps(s, size);
    var t := Salvage(s, size).(bump := if Salvages(s, size) then s.pageSize else s.bump);
    SameAsFirst(s, size, t, b);
    PageKeeps(t, b, b.End());
    GrantKeeps(s', b);
  }

  /** With the tail given up or listed, the grant is the first block of the new page. */
  lemma SameAsFirst(s: SState, size: int, t: SState, b: SBlk)
    requires SInv(s) && size % ALIGN == 0 && ALIGN <= size <= SLOT_COUNT * ALIGN && s.pageSize - s.bump < size
    requires t == Salvage(s, size).(bump := if Salvages(s, size) then s.pageSize else s.bump)
    requires b == Bump(NewPage(Salvage(s, size)), size).1
    ensures Bump(NewPage(Salvage(s, size)), size).0 == NewPage(t).(carved := t.carved + [b], bump := b.End())
    ensures Fine(b) && b.page == t.pages + 1 && b.offs == SMALL_PAGE_HEADER && b.End() % ALIGN == 0
            && t.pageSize - t.bump <= 2 * ALIGN
  {
  }

  lemma BumpKeeps(s: SState, size: int)
    requires SInv(s) && size % ALIGN == 0 && ALIGN <= size <= SLOT_COUNT * ALIGN && s.pageSize - s.bump >= size
    ensures var (s', b) := Bump(s.(stats := s.stats.Hit()), size); SInv(Grant(s', b))
  {
    var h := s.(stats := s.stats.Hit());
    var (s', b) := Bump(h, size);
    BumpFloor(s);
    CarveKeeps(h, b, b.End());
    assert s' == h.(carved := h.carved + [b], bump := b.End());
    GrantKeeps(s', b);
  }

  /** With memory to be had, or where a refusal does no harm, allocation keeps the partition and the accounting. */
  lemma AllocSmallKeeps(s: SState, request: int, sysOk: bool)
    requires SInv(s) && 0 < request <= MAX_SMALL_SIZE && (sysOk || Harmless(s, request))
    ensures SInv(AllocSmall(s, request, sysOk).0)
    ensures AllocSmall(s, request, sysOk).1 == SNull ==> !sysOk && AllocSmall(s, request, sysOk).0 == s
  {
    var size := SmallBytes(request);
    var i := Slot(size);
    if s.lists[i] != [] {
      PopKeeps(s, i);
      GrantKeeps(s.(lists := s.lists[i := s.lists[i][1..]], stats := s.stats.Hit()), s.lists[i][0]);
    } else if s.pageSize - s.bump >= size {
      BumpKeeps(s, size);
    } else if sysOk {
      NewPageKeeps(s, size);
    }
  }

  lemma FreeSmallKeeps(s: SState, b: SBlk)
    requires SInv(s) && b in s.live
    ensures Fine(b) && SInv(FreeSmall(s, b))
  {
    var t := s.(live := s.live - {b}, stats := s.stats.RegisterFree(b));
    LedgerUnique(s.carved);
    UsedAdd(s.carved, s.live - {b}, b);
    assert s.live - {b} + {b} == s.live;
    assert b in s.carved && Fine(b);
    ListKeeps(t, b);
  }
}
