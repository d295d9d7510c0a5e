/** The name table as bytes in rows of equal size: insertion while compiling, binary search afterwards. */
module NameTable {
  import opened PcreSyntax
  import opened NameSpec

  const NO_SUBSTRING: int := -7   // PCRE_ERROR_NOSUBSTRING

  /** `j` equal bytes at the front do not change a comparison. */
  lemma {:induction false} CmpPrefix(a: seq<byte>, b: seq<byte>, j: nat)
    requires j <= |a| && j <= |b| && a[..j] == b[..j]
    ensures Cmp(a, b) == Cmp(a[j..], b[j..])
    decreases j
  {
    if j > 0 {
      assert a[0] == a[..j][0] && b[0] == b[..j][0];
      assert a[1..][..j - 1] == a[..j][1..] && b[1..][..j - 1] == b[..j][1..];
      CmpPrefix(a[1..], b[1..], j - 1);
      assert a[1..][j - 1..] == a[j..] && b[1..][j - 1..] == b[j..];
    }
  }

  /** The first byte that differs decides; the NUL behind the shorter string counts as 0. */
  lemma CmpAt(a: seq<byte>, b: seq<byte>, j: nat)
    requires NulFree(a) && NulFree(b) && j <= |a| && j <= |b| && a[..j] == b[..j]
    ensures j == |a| && j == |b| ==> Cmp(a, b) == 0
    ensures j < |a| && j == |b| ==> Cmp(a, b) == 1
    ensures j == |a| && j < |b| ==> Cmp(a, b) == -1
    ensures j < |a| && j < |b| ==> (a[j] < b[j] ==> Cmp(a, b) == -1) && (a[j] > b[j] ==> Cmp(a, b) == 1)
  {
    CmpPrefix(a, b, j);
  }

  class Table {
    const rows: array2<byte>
    var found: nat
    ghost var entries: seq<Entry>

    /** Sizes as the pre-compile pass counted them. */
    constructor (count: nat, entrySize: nat)
      ensures Valid() && fresh(rows) && rows.Length0 == count && rows.Length1 == entrySize && entries == []
    {
      rows := new byte[count, entrySize]((_, _) => 0);
      found := 0;
      entries := [];
    }

    /** Row `k`: two bytes of number, the name, a NUL; whatever is behind it does not matter. */
    ghost predicate Row(k: nat, e: Entry)
      reads rows
      requires k < rows.Length0
    {
      3 + |e.name| <= rows.Length1 && NulFree(e.name) && e.number < 65536
      && rows[k, 0] == e.number / 256 && rows[k, 1] == e.number % 256
      && (forall j :: 0 <= j < |e.name| ==> rows[k, 2 + j] == e.name[j])
      && rows[k, 2 + |e.name|] == 0
    }

    ghost predicate Valid()
      reads this, rows
    {
      |entries| == found <= rows.Length0 && forall k :: 0 <= k < found ==> Row(k, entries[k])
    }

    /** GET2 */
    method Number(k: nat, ghost e: Entry) returns (n: nat)
      requires k < rows.Length0 && Row(k, e)
      ensures n == e.number
    {
      n := rows[k, 0] as int * 256 + rows[k, 1] as int;
    }

    // -------------------------------------------------------------- comparing

    /** memcmp of the new name with as many bytes of the row's name. */
    method MemCmp(name: seq<byte>, k: nat, ghost e: Entry) returns (c: int)
      requires k < rows.Length0 && Row(k, e) && NulFree(name) && 3 + |name| <= rows.Length1
      ensures c == 0 <==> |name| <= |e.name| && e.name[..|name|] == name
      ensures c != 0 ==> c == Cmp(name, e.name)
    {
      var j := 0;
      while j < |name|
        invariant j <= |name| && j <= |e.name| && name[..j] == e.name[..j]
      {
        CmpAt(name, e.name, j);
        if name[j] != rows[k, 2 + j] {
          assert j < |e.name| ==> e.name[..j + 1][j] != name[j];
          assert |name| <= |e.name| ==> e.name[..|name|][j] == e.name[j];
          return if name[j] < rows[k, 2 + j] then -1 else 1;
        }
        j := j + 1;
        assert name[..j] == name[..j - 1] + [name[j - 1]] && e.name[..j] == e.name[..j - 1] + [e.name[j - 1]];
      }
      assert name[..j] == name;
      return 0;
    }

    /** strcmp of the wanted name with the row's name. */
    method StrCmp(name: seq<byte>, k: nat, ghost e: Entry) returns (c: int)
      requires k < rows.Length0 && Row(k, e) && NulFree(name)
      ensures c == Cmp(name, e.name)
    {
      var j := 0;
      while true
        invariant j <= |name| && j <= |e.name| && name[..j] == e.name[..j]
        decreases |name| - j
      {
        CmpAt(name, e.name, j);
        var x := if j < |name| then name[j] else 0;
        if x != rows[k, 2 + j] {
          return if x < rows[k, 2 + j] then -1 else 1;
        }
        if x == 0 {
          return 0;
        }
        j := j + 1;
        assert name[..j] == name[..j - 1] + [name[j - 1]] && e.name[..j] == e.name[..j - 1] + [e.name[j - 1]];
      }
    }

    // -------------------------------------------------------------- inserting

    /** The whole comparison of the insertion loop: a match that is only a prefix of the row's name is earlier. */
    method Compare(name: seq<byte>, k: nat, ghost e: Entry) returns (crc: int)
      requires k < rows.Length0 && Row(k, e) && NulFree(name) && 3 + |name| <= rows.Length1
      ensures crc == Cmp(name, e.name)
    {
      crc := MemCmp(name, k, e);
      if crc == 0 {
        assert name[..|name|] == name;
        CmpAt(name, e.name, |name|);
        assert |name| < |e.name| ==> rows[k, 2 + |name|] == e.name[|name|] != 0;
        if rows[k, 2 + |name|] != 0 {
          crc := -1;
        }
      }
    }

    /** The loop over the slots: where the name goes and whether it was there before, or ERR43. */
    method FindSlot(number: nat, name: seq<byte>, dupNames: bool) returns (err: bool, slot: nat, dupName: bool)
      requires Valid() && NulFree(name) && 3 + |name| <= rows.Length1
      ensures slot <= found
      ensures err <==> !dupNames && Clashes(entries[..Slot(entries, name)], number, name)
      ensures !err ==> slot == Slot(entries, name) && (dupName <==> Named(entries[..slot], name))
    {
      slot, dupName, err := 0, false, false;
      while slot < found
        invariant slot <= found && slot <= Slot(entries, name)
        invariant dupName <==> Named(entries[..slot], name)
        invariant !dupNames ==> !Clashes(entries[..slot], number, name)
      {
        SlotBound(entries, name, slot);
        Longer(entries, slot, number, name);
        var crc := Compare(name, slot, entries[slot]);
        if crc == 0 {
          var n := Number(slot, entries[slot]);
          if n != number && !dupNames {
            err := true;
            ClashesMore(entries, slot + 1, Slot(entries, name), number, name);
            return;
          }
          dupName := true;
        }
        if crc < 0 {
          return;
        }
        slot := slot + 1;
      }
    }

    /** memmove(slot + size, slot, (names_found - i) * size) */
    method OpenGap(slot: nat)
      requires slot <= found < rows.Length0 && Valid()
      modifies rows
      ensures Gapped(slot)
    {
      forall k, j | slot <= k < found && 0 <= j < rows.Length1 {
        rows[k + 1, j] := rows[k, j];
      }
      forall k | 0 <= k < found
        ensures Row(if k < slot then k else k + 1, entries[k])
      {
        assert old(Row(k, entries[k]));
      }
    }

    /** All entries are there, but the row at `slot` is free. */
    ghost predicate Gapped(slot: nat)
      reads this, rows
    {
      slot <= |entries| == found < rows.Length0
      && forall k :: 0 <= k < found ==> Row(if k < slot then k else k + 1, entries[k])
    }

    /** Whether some entry has the number; the free row is stepped over without being counted. */
    method NumberUsed(slot: nat, number: nat) returns (used: bool)
      requires Gapped(slot)
      ensures used <==> Numbered(entries, number)
    {
      var i, cslot := 0, 0;
      while i < found
        invariant 0 <= i <= found && cslot == if cslot <= slot then i else i + 1
        invariant forall k :: 0 <= k < i ==> entries[k].number != number
        decreases found - i, rows.Length0 - cslot
      {
        if cslot != slot {
          var n := Number(cslot, entries[i]);
          if n == number {
            return true;
          }
          i := i + 1;
        }
        cslot := cslot + 1;
      }
      return false;
    }

    /** PUT2, memcpy and the NUL. */
    method Fill(slot: nat, number: nat, name: seq<byte>)
      requires Gapped(slot) && NulFree(name) && 3 + |name| <= rows.Length1 && number < 65536
      modifies this, rows
      ensures Valid() && entries == With(old(entries), slot, Entry(number, name))
    {
      rows[slot, 0], rows[slot, 1] := number / 256, number % 256;
      forall j | 0 <= j < |name| {
        rows[slot, 2 + j] := name[j];
      }
      rows[slot, 2 + |name|] := 0;
      entries := With(entries, slot, Entry(number, name));
      found := found + 1;
      forall k | 0 <= k < found
        ensures Row(k, entries[k])
      {
        WithAt(old(entries), slot, Entry(number, name), k);
        if k != slot {
          var o := if k < slot then k else k - 1;
          assert old(Row(if o < slot then o else o + 1, entries[o]));
        }
      }
    }

    /** Define a named group: 0, or the error number. */
    method Add(number: nat, name: seq<byte>, dupNames: bool) returns (error: int)
      requires Valid() && found < rows.Length0 && NulFree(name) && 3 + |name| <= rows.Length1 && number < 65536
      modifies this, rows
      ensures var r := Insert(old(entries), number, name, dupNames);
              && (r.Ok? ==> error == 0 && Valid() && entries == r.entries)
              && (r.Err43? ==> error == 43 && Valid() && entries == old(entries))
              && (r.Err65? ==> error == 65 && Gapped(Slot(entries, name)) && entries == old(entries))
    {
      var err, slot, dupName := FindSlot(number, name, dupNames);
      if err {
        return 43;
      }
      OpenGap(slot);
      if !dupName {
        var used := NumberUsed(slot, number);
        if used {
          return 65;
        }
      }
      Fill(slot, number, name);
      return 0;
    }

    // -------------------------------------------------------------- searching

    /** The binary search both queries share: a row with the name, or none. */
    method Search(name: seq<byte>) returns (mid: int)
      requires Valid() && Sorted(entries) && NulFree(name)
      ensures mid == -1 <==> !Named(entries, name)
      ensures mid != -1 ==> 0 <= mid < found && entries[mid].name == name
    {
      var bot, top := 0, found;
      while top > bot
        invariant 0 <= bot <= top <= found
        invariant forall k :: 0 <= k < bot ==> Cmp(name, entries[k].name) > 0
        invariant forall k :: top <= k < found ==> Cmp(name, entries[k].name) < 0
      {
        mid := (top + bot) / 2;
        var c := StrCmp(name, mid, entries[mid]);
        if c == 0 {
          return;
        }
        AllOnOneSide(entries, name, mid);
        if c > 0 {
          bot := mid + 1;
        } else {
          top := mid;
        }
      }
      return -1;
    }

    /** `pcre_get_stringnumber` */
    method StringNumber(name: seq<byte>) returns (rc: int)
      requires Valid() && Sorted(entries) && NulFree(name)
      ensures rc == NO_SUBSTRING <==> !Named(entries, name)
      ensures rc != NO_SUBSTRING ==> rc >= 0 && Entry(rc, name) in entries
    {
      var mid := Search(name);
      if mid == -1 {
        return NO_SUBSTRING;
      }
      rc := Number(mid, entries[mid]);
      assert entries[mid] == Entry(rc, name);
    }

    /** while (first > nametable) ... first -= entrysize */
    method WidenDown(name: seq<byte>, mid: nat) returns (first: nat)
      requires Valid() && NulFree(name) && mid < found && entries[mid].name == name
      ensures first <= mid && forall k :: first <= k <= mid ==> entries[k].name == name
      ensures first > 0 ==> entries[first - 1].name != name
    {
      first := mid;
      while first > 0
        invariant first <= mid && forall k :: first <= k <= mid ==> entries[k].name == name
      {
        var c := StrCmp(name, first - 1, entries[first - 1]);
        if c != 0 {
          break;
        }
        first := first - 1;
      }
    }

    /** while (last < lastentry) ... last += entrysize */
    method WidenUp(name: seq<byte>, mid: nat) returns (last: nat)
      requires Valid() && NulFree(name) && mid < found && entries[mid].name == name
      ensures mid <= last < found && forall k :: mid <= k <= last ==> entries[k].name == name
      ensures last < found - 1 ==> entries[last + 1].name != name
    {
      last := mid;
      while last < found - 1
        invariant mid <= last < found && forall k :: mid <= k <= last ==> entries[k].name == name
      {
        var c := StrCmp(name, last + 1, entries[last + 1]);
        if c != 0 {
          break;
        }
        last := last + 1;
      }
    }

    /** `pcre_get_stringtable_entries`: all rows with the name, from `first` to `last`. */
    method StringTableEntries(name: seq<byte>) returns (rc: int, first: nat, last: nat)
      requires Valid() && Sorted(entries) && NulFree(name)
      ensures rc == NO_SUBSTRING <==> !Named(entries, name)
      ensures rc != NO_SUBSTRING ==> rc == rows.Length1 && first <= last < found && IsRun(entries, name, first, last)
    {
      var mid := Search(name);
      if mid == -1 {
        return NO_SUBSTRING, 0, 0;
      }
      first := WidenDown(name, mid);
      last := WidenUp(name, mid);
      MaximalRun(entries, name, first, last);
      rc := rows.Length1;
    }
  }

  /** The entries with the name are exactly the ones from `first` to `last`. */
  predicate IsRun(es: seq<Entry>, name: seq<byte>, first: nat, last: nat) {
    forall k :: 0 <= k < |es| ==> (es[k].name == name <==> first <= k <= last)
  }

  /** A run that cannot be widened holds every entry of its name. */
  lemma MaximalRun(es: seq<Entry>, name: seq<byte>, first: nat, last: nat)
    requires Sorted(es) && first <= last < |es| && forall k :: first <= k <= last ==> es[k].name == name
    requires first > 0 ==> es[first - 1].name != name
    requires last < |es| - 1 ==> es[last + 1].name != name
    ensures IsRun(es, name, first, last)
  {
    forall k | 0 <= k < |es| && es[k].name == name
      ensures first <= k <= last
    {
      if k < first {
        NamesContiguous(es, k, first - 1, first);
      } else if k > last {
        NamesContiguous(es, last, last + 1, k);
      }
    }
  }

  // ---------------------------------------------------------------- facts the loops use

  /** The search passes an entry exactly when it has no later name. */
  lemma {:induction false} SlotBound(es: seq<Entry>, name: seq<byte>, i: nat)
    requires i < |es| && i <= Slot(es, name)
    ensures i < Slot(es, name) <==> Cmp(name, es[i].name) >= 0
  {
  }

  /** One more entry looked at. */
  lemma Longer(es: seq<Entry>, i: nat, number: nat, name: seq<byte>)
    requires i < |es|
    ensures Named(es[..i + 1], name) <==> Named(es[..i], name) || es[i].name == name
    ensures Clashes(es[..i + 1], number, name)
            <==> Clashes(es[..i], number, name) || (es[i].name == name && es[i].number != number)
  {
    var a, b := es[..i], es[..i + 1];
    assert b[i] == es[i] && forall k :: 0 <= k < i ==> a[k] == b[k];
  }

  lemma ClashesMore(es: seq<Entry>, i: nat, j: nat, number: nat, name: seq<byte>)
    requires i <= j <= |es| && Clashes(es[..i], number, name)
    ensures Clashes(es[..j], number, name)
  {
    var k :| 0 <= k < |es[..i]| && es[..i][k].name == name && es[..i][k].number != number;
    assert es[..j][k] == es[..i][k];
  }

  /** In a sorted table one comparison settles one side. */
  lemma AllOnOneSide(es: seq<Entry>, name: seq<byte>, mid: nat)
    requires Sorted(es) && mid < |es|
    ensures Cmp(name, es[mid].name) > 0 ==> forall k :: 0 <= k <= mid ==> Cmp(name, es[k].name) > 0
    ensures Cmp(name, es[mid].name) < 0 ==> forall k :: mid <= k < |es| ==> Cmp(name, es[k].name) < 0
  {
    CmpFlips(name, es[mid].name);
    forall k | 0 <= k < |es| && k != mid
      ensures Cmp(name, es[mid].name) > 0 && k < mid ==> Cmp(name, es[k].name) > 0
      ensures Cmp(name, es[mid].name) < 0 && k > mid ==> Cmp(name, es[k].name) < 0
    {
      CmpFlips(name, es[k].name);
      if Cmp(name, es[mid].name) > 0 && k < mid {
        CmpChains(es[k].name, es[mid].name, name);
      } else if Cmp(name, es[mid].name) < 0 && k > mid {
        CmpChains(name, es[mid].name, es[k].name);
      }
    }
  }
}
