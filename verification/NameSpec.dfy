/** The compiler's table of group names as a list, and what keeps it searchable. */
module NameSpec {
  import opened PcreSyntax

  /** A group number and its name. */
  datatype Entry = Entry(number: nat, name: seq<byte>)

  datatype Insertion = Ok(entries: seq<Entry>) | Err43 | Err65

  /** A C string's bytes: no NUL among them. */
  predicate NulFree(s: seq<byte>) {
    forall j :: 0 <= j < |s| ==> s[j] != 0
  }

  /** strcmp on NUL-free strings: -1, 0 or 1. */
  function Cmp(a: seq<byte>, b: seq<byte>): (r: int)
    ensures r == 0 <==> a == b
  {
    if a == [] then (if b == [] then 0 else -1)
    else if b == [] then 1
    else if a[0] < b[0] then -1
    else if a[0] > b[0] then 1
    else
      assert a == [a[0]] + a[1..] && b == [b[0]] + b[1..];
      Cmp(a[1..], b[1..])
  }

  lemma {:induction false} CmpFlips(a: seq<byte>, b: seq<byte>)
    ensures Cmp(b, a) == -Cmp(a, b)
  {
    if a != [] && b != [] && a[0] == b[0] {
      CmpFlips(a[1..], b[1..]);
    }
  }

  lemma {:induction false} CmpChains(a: seq<byte>, b: seq<byte>, c: seq<byte>)
    requires Cmp(a, b) <= 0 && Cmp(b, c) <= 0
    ensures Cmp(a, c) <= 0 && (Cmp(a, b) < 0 || Cmp(b, c) < 0 ==> Cmp(a, c) < 0)
  {
    if a != [] && b != [] && c != [] && a[0] == b[0] == c[0] {
      CmpChains(a[1..], b[1..], c[1..]);
    }
  }

  predicate Sorted(es: seq<Entry>) {
    forall j, k :: 0 <= j < k < |es| ==> Cmp(es[j].name, es[k].name) <= 0
  }

  /** How many entries the search for a slot passes: all up to the first one with a later name. */
  function Slot(es: seq<Entry>, name: seq<byte>): (p: nat)
    ensures p <= |es|
    ensures forall k :: 0 <= k < p ==> Cmp(name, es[k].name) >= 0
    ensures p < |es| ==> Cmp(name, es[p].name) < 0
  {
    if es == [] || Cmp(name, es[0].name) < 0 then 0 else 1 + Slot(es[1..], name)
  }

  predicate Named(es: seq<Entry>, name: seq<byte>) {
    exists k :: 0 <= k < |es| && es[k].name == name
  }

  predicate Numbered(es: seq<Entry>, number: nat) {
    exists k :: 0 <= k < |es| && es[k].number == number
  }

  /** An earlier entry of the same name under another number. */
  predicate Clashes(es: seq<Entry>, number: nat, name: seq<byte>) {
    exists k :: 0 <= k < |es| && es[k].name == name && es[k].number != number
  }

  function With(es: seq<Entry>, p: nat, e: Entry): seq<Entry>
    requires p <= |es|
  {
    es[..p] + [e] + es[p..]
  }

  /** Naming group `number`. */
  function Insert(es: seq<Entry>, number: nat, name: seq<byte>, dupNames: bool): Insertion {
    var p := Slot(es, name);
    if !dupNames && Clashes(es[..p], number, name) then Err43
    else if !Named(es[..p], name) && Numbered(es, number) then Err65
    else Ok(With(es, p, Entry(number, name)))
  }

  // ---------------------------------------------------------------- one insertion

  /** In a sorted table the slot separates the names: all not later than `name` before it, all later ones behind. */
  lemma SlotSeparates(es: seq<Entry>, name: seq<byte>)
    requires Sorted(es)
    ensures var p := Slot(es, name);
            forall k :: 0 <= k < |es| ==>
              (k < p <==> Cmp(es[k].name, name) <= 0) && (k >= p <==> Cmp(name, es[k].name) < 0)
  {
    var p := Slot(es, name);
    forall k | 0 <= k < |es|
      ensures (k < p <==> Cmp(es[k].name, name) <= 0) && (k >= p <==> Cmp(name, es[k].name) < 0)
    {
      CmpFlips(name, es[k].name);
      if k >= p {
        CmpChains(name, es[p].name, es[k].name);
      }
    }
  }

  /** What comes before the slot holds every entry of that name. */
  lemma SlotSees(es: seq<Entry>, name: seq<byte>, front: seq<Entry>)
    requires Sorted(es) && front == es[..Slot(es, name)]
    ensures forall k :: 0 <= k < |es| && es[k].name == name ==> k < |front| && front[k] == es[k]
  {
    SlotSeparates(es, name);
  }

  lemma SameBefore(es: seq<Entry>, front: seq<Entry>, number: nat, name: seq<byte>)
    requires front <= es && forall k :: 0 <= k < |es| && es[k].name == name ==> k < |front| && front[k] == es[k]
    ensures Named(front, name) <==> Named(es, name)
    ensures Clashes(front, number, name) <==> Clashes(es, number, name)
  {
  }

  /** The search sees every entry of that name, so the refusals are about the whole table. */
  lemma InsertRefuses(es: seq<Entry>, number: nat, name: seq<byte>, dupNames: bool)
    requires Sorted(es)
    ensures Insert(es, number, name, dupNames) == Err43 <==> !dupNames && Clashes(es, number, name)
    ensures Insert(es, number, name, dupNames) == Err65 <==> !Named(es, name) && Numbered(es, number)
  {
    var front := es[..Slot(es, name)];
    SlotSees(es, name, front);
    SameBefore(es, front, number, name);
  }

  /** An accepted insertion keeps the table sorted, and adds the entry and nothing else. */
  lemma InsertKeeps(es: seq<Entry>, number: nat, name: seq<byte>, dupNames: bool)
    requires Sorted(es) && Insert(es, number, name, dupNames).Ok?
    ensures var r := Insert(es, number, name, dupNames).entries;
            Sorted(r) && multiset(r) == multiset(es) + multiset{Entry(number, name)}
  {
    SlotSeparates(es, name);
    WithSorted(es, Slot(es, name), Entry(number, name));
    WithAdds(es, Slot(es, name), Entry(number, name));
  }

  lemma WithAdds(es: seq<Entry>, p: nat, e: Entry)
    requires p <= |es|
    ensures multiset(With(es, p, e)) == multiset(es) + multiset{e}
  {
    assert es == es[..p] + es[p..];
  }

  lemma WithSorted(es: seq<Entry>, p: nat, e: Entry)
    requires Sorted(es) && p <= |es|
    requires forall k :: 0 <= k < p ==> Cmp(es[k].name, e.name) <= 0
    requires forall k :: p <= k < |es| ==> Cmp(e.name, es[k].name) < 0
    ensures Sorted(With(es, p, e))
  {
    var r := With(es, p, e);
    forall j, k | 0 <= j < k < |r|
      ensures Cmp(r[j].name, r[k].name) <= 0
    {
      WithAt(es, p, e, j);
      WithAt(es, p, e, k);
    }
  }

  // ---------------------------------------------------------------- whole patterns

  /** A named group as the compiler meets it; (?J) can change `dupNames` on the way. */
  datatype Definition = Definition(number: nat, name: seq<byte>, dupNames: bool)

  function InsertAll(es: seq<Entry>, ds: seq<Definition>): Insertion
    decreases |ds|
  {
    if ds == [] then Ok(es)
    else
      var r := Insert(es, ds[0].number, ds[0].name, ds[0].dupNames);
      if r.Ok? then InsertAll(r.entries, ds[1..]) else r
  }

  function Defined(ds: seq<Definition>): multiset<Entry> {
    if ds == [] then multiset{} else multiset{Entry(ds[0].number, ds[0].name)} + Defined(ds[1..])
  }

  /** Every accepted sequence of definitions leaves a sorted table with exactly the defined entries. */
  lemma {:induction false} InsertAllSorts(es: seq<Entry>, ds: seq<Definition>)
    requires Sorted(es) && InsertAll(es, ds).Ok?
    ensures Sorted(InsertAll(es, ds).entries) && multiset(InsertAll(es, ds).entries) == multiset(es) + Defined(ds)
    decreases |ds|
  {
    if ds != [] {
      InsertKeeps(es, ds[0].number, ds[0].name, ds[0].dupNames);
      InsertAllSorts(Insert(es, ds[0].number, ds[0].name, ds[0].dupNames).entries, ds[1..]);
    }
  }

  lemma {:induction false} DefinedMeans(ds: seq<Definition>, e: Entry)
    ensures e in Defined(ds) <==> exists k :: 0 <= k < |ds| && Entry(ds[k].number, ds[k].name) == e
  {
    if ds != [] {
      DefinedMeans(ds[1..], e);
      if k :| 0 <= k < |ds| && Entry(ds[k].number, ds[k].name) == e {
        assert k == 0 || ds[1..][k - 1] == ds[k];
      }
      if k :| 0 <= k < |ds[1..]| && Entry(ds[1..][k].number, ds[1..][k].name) == e {
        assert ds[k + 1] == ds[1..][k];
      }
    }
  }

  /** The table holds an entry iff the pattern defined it. */
  lemma InsertedIffDefined(ds: seq<Definition>, e: Entry)
    requires InsertAll([], ds).Ok?
    ensures e in InsertAll([], ds).entries <==> exists k :: 0 <= k < |ds| && Entry(ds[k].number, ds[k].name) == e
  {
    InsertAllSorts([], ds);
    DefinedMeans(ds, e);
    assert e in InsertAll([], ds).entries <==> e in multiset(InsertAll([], ds).entries);
  }

  /** Duplicates are contiguous. */
  lemma NamesContiguous(es: seq<Entry>, i: nat, j: nat, k: nat)
    requires Sorted(es) && i <= j <= k < |es| && es[i].name == es[k].name
    ensures es[j].name == es[i].name
  {
    CmpFlips(es[i].name, es[j].name);
  }

  // ---------------------------------------------------------------- numbers

  /** No two names share a number. */
  predicate OneName(es: seq<Entry>) {
    forall j, k :: 0 <= j < |es| && 0 <= k < |es| && es[j].number == es[k].number ==> es[j].name == es[k].name
  }

  /** Another name already has the number. */
  predicate Taken(es: seq<Entry>, number: nat, name: seq<byte>) {
    exists k :: 0 <= k < |es| && es[k].number == number && es[k].name != name
  }

  /** Where entry `j` of the new table comes from. */
  lemma WithAt(es: seq<Entry>, p: nat, e: Entry, j: nat)
    requires p <= |es| && j <= |es|
    ensures With(es, p, e)[j] == if j < p then es[j] else if j == p then e else es[j - 1]
  {
  }

  /** Every old entry is still there. */
  lemma WithHolds(es: seq<Entry>, p: nat, e: Entry, k: nat)
    requires p <= |es| && k < |es|
    ensures With(es, p, e)[if k < p then k else k + 1] == es[k]
  {
  }

  lemma TakenBreaks(es: seq<Entry>, p: nat, e: Entry)
    requires p <= |es| && Taken(es, e.number, e.name)
    ensures !OneName(With(es, p, e))
  {
    var k :| 0 <= k < |es| && es[k].number == e.number && es[k].name != e.name;
    WithHolds(es, p, e, k);
    WithAt(es, p, e, p);
    var r := With(es, p, e);
    assert r[p].number == r[if k < p then k else k + 1].number;
  }

  lemma UntakenKeeps(es: seq<Entry>, p: nat, e: Entry)
    requires p <= |es| && OneName(es) && !Taken(es, e.number, e.name)
    ensures OneName(With(es, p, e))
  {
    var r := With(es, p, e);
    forall j, k | 0 <= j < |r| && 0 <= k < |r| && r[j].number == r[k].number
      ensures r[j].name == r[k].name
    {
      WithAt(es, p, e, j);
      WithAt(es, p, e, k);
    }
  }

  /** An accepted insertion can break the rule for a name that is not new only. */
  lemma OneNameKept(es: seq<Entry>, number: nat, name: seq<byte>, dupNames: bool)
    requires Sorted(es) && OneName(es) && Insert(es, number, name, dupNames).Ok?
    ensures OneName(Insert(es, number, name, dupNames).entries) <==> !Taken(es, number, name)
    ensures Taken(es, number, name) ==> Named(es, name)
  {
    var p, e := Slot(es, name), Entry(number, name);
    if Taken(es, number, name) {
      InsertRefuses(es, number, name, dupNames);
      TakenBreaks(es, p, e);
    } else {
      UntakenKeeps(es, p, e);
    }
  }

  /**
   * The source says that different names for the same number are not permitted, but it looks for them only when the
   * name is new. So it lets another name in under a used number iff duplicates are allowed and the name is there
   * already.
   */
  lemma OneNameBroken(es: seq<Entry>, number: nat, name: seq<byte>, dupNames: bool)
    requires Sorted(es) && OneName(es)
    ensures Insert(es, number, name, dupNames).Ok? && !OneName(Insert(es, number, name, dupNames).entries)
            <==> dupNames && Named(es, name) && Taken(es, number, name)
  {
    InsertRefuses(es, number, name, dupNames);
    if Insert(es, number, name, dupNames).Ok? {
      OneNameKept(es, number, name, dupNames);
    }
  }

  predicate NoDuplicatesAllowed(ds: seq<Definition>) {
    forall k :: 0 <= k < |ds| ==> !ds[k].dupNames
  }

  /** Without DUPNAMES every accepted pattern has one name for each number. */
  lemma {:induction false} OneNameWithoutDuplicates(es: seq<Entry>, ds: seq<Definition>)
    requires Sorted(es) && OneName(es) && NoDuplicatesAllowed(ds) && InsertAll(es, ds).Ok?
    ensures OneName(InsertAll(es, ds).entries)
    decreases |ds|
  {
    if ds != [] {
      InsertKeeps(es, ds[0].number, ds[0].name, ds[0].dupNames);
      OneNameBroken(es, ds[0].number, ds[0].name, ds[0].dupNames);
      OneNameWithoutDuplicates(Insert(es, ds[0].number, ds[0].name, ds[0].dupNames).entries, ds[1..]);
    }
  }

  lemma InsertAllStep(es: seq<Entry>, d: Definition, ds: seq<Definition>, r: seq<Entry>)
    requires Insert(es, d.number, d.name, d.dupNames) == Ok(r)
    ensures InsertAll(es, [d] + ds) == InsertAll(r, ds)
  {
    assert ([d] + ds)[1..] == ds;
  }

  /** (?J)(?|(?<A>..)(?<B>..)|(?<A>..)(?<A>..)): group 2 ends up with both names. */
  lemma TwoNamesForOneNumber()
    ensures var ds := [Definition(1, [65], true)]
            + ([Definition(2, [66], true)] + ([Definition(1, [65], true)] + ([Definition(2, [65], true)] + [])));
            InsertAll([], ds).Ok? && !OneName(InsertAll([], ds).entries)
  {
    var a1, b2, a2 := Entry(1, [65]), Entry(2, [66]), Entry(2, [65]);
    var da1, db2, da2 := Definition(1, [65], true), Definition(2, [66], true), Definition(2, [65], true);
    FirstTwo();
    SecondTwo();
    InsertAllStep([], da1, [db2] + ([da1] + ([da2] + [])), [a1]);
    InsertAllStep([a1], db2, [da1] + ([da2] + []), [a1, b2]);
    InsertAllStep([a1, b2], da1, [da2] + [], [a1, a1, b2]);
    InsertAllStep([a1, a1, b2], da2, [], [a1, a1, a2, b2]);
    var r := [a1, a1, a2, b2];
    assert r[2].number == r[3].number && r[2].name[0] != r[3].name[0];
  }

  lemma FirstTwo()
    ensures Insert([], 1, [65], true) == Ok([Entry(1, [65])])
    ensures Insert([Entry(1, [65])], 2, [66], true) == Ok([Entry(1, [65]), Entry(2, [66])])
  {
    assert Cmp([66], [65]) == 1;
  }

  lemma SecondTwo()
    ensures Insert([Entry(1, [65]), Entry(2, [66])], 1, [65], true)
            == Ok([Entry(1, [65]), Entry(1, [65]), Entry(2, [66])])
    ensures Insert([Entry(1, [65]), Entry(1, [65]), Entry(2, [66])], 2, [65], true)
            == Ok([Entry(1, [65]), Entry(1, [65]), Entry(2, [65]), Entry(2, [66])])
  {
    var a1, b2, a2 := Entry(1, [65]), Entry(2, [66]), Entry(2, [65]);
    assert Cmp([65], [65]) == 0 && Cmp([65], [66]) == -1;
    SlotOf([a1, b2], [65], 1);
    SlotOf([a1, a1, b2], [65], 2);
    assert [a1, b2][..1] == [a1] && [a1, b2][1..] == [b2] && [a1][0].name == [65];
    assert [a1, a1, b2][..2] == [a1, a1] && [a1, a1, b2][2..] == [b2] && [a1, a1][0].name == [65];
  }

  lemma {:induction false} SlotOf(es: seq<Entry>, name: seq<byte>, p: nat)
    requires p < |es| && Cmp(name, es[p].name) < 0 && forall k :: 0 <= k < p ==> Cmp(name, es[k].name) >= 0
    ensures Slot(es, name) == p
  {
    if p > 0 {
      SlotOf(es[1..], name, p - 1);
    }
  }

  /** Entries of one name stand in the order of their numbers. */
  predicate NumbersAscend(es: seq<Entry>) {
    forall j, k :: 0 <= j < k < |es| && es[j].name == es[k].name ==> es[j].number <= es[k].number
  }

  /** Duplicates go behind the entries of their name, so rising group numbers stay in order. */
  lemma InsertAscends(es: seq<Entry>, number: nat, name: seq<byte>, dupNames: bool)
    requires Sorted(es) && NumbersAscend(es) && Insert(es, number, name, dupNames).Ok?
    requires forall k :: 0 <= k < |es| ==> es[k].number <= number
    ensures NumbersAscend(Insert(es, number, name, dupNames).entries)
  {
    SlotSeparates(es, name);
    var p, e := Slot(es, name), Entry(number, name);
    var r := With(es, p, e);
    forall j, k | 0 <= j < k < |r| && r[j].name == r[k].name
      ensures r[j].number <= r[k].number
    {
      WithAt(es, p, e, j);
      WithAt(es, p, e, k);
    }
  }
}
