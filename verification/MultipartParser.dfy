/** The parser and its fields as objects: a collector that grows and is truncated, and the loop over the states. */
module MultipartParser {
  import opened MultipartSpec

  /** Where the parser was told to keep uploaded files. */
  datatype Storage = InMemory | InFilesystem

  /** A temporary file, with the bytes written to it. */
  datatype TempFile = NotOpen | Open(bytes: seq<byte>)

  /** A form field. */
  class Field {
    const kind: Kind
    const storage: Storage
    var content: seq<byte>
    var contentLength: nat
    var file: TempFile
    ghost var handed: seq<byte>

    constructor (kind: Kind, storage: Storage)
      ensures this.kind == kind && Valid() && forall name :: View(name) == Part(name, kind, [], [])
    {
      this.kind, this.storage := kind, storage;
      content, contentLength, file, handed := [], 0, NotOpen, [];
    }

    ghost predicate Valid()
      reads this
    {
      if kind.File? then contentLength == |content|
      else contentLength == 0 && (content == [] || content[|content| - 1] == 0)
    }

    /** What was handed over and what is kept; a text field's terminator is not part of it. */
    ghost function View(name: seq<byte>): Part
      reads this
    {
      Part(name, kind, handed, Stored())
    }

    ghost function Stored(): seq<byte>
      reads this
    {
      if kind.Text? then (if content == [] then [] else content[..|content| - 1])
      else if storage.InMemory? then content
      else if file.Open? then file.bytes else []
    }

    /**
     * The text branch never advances the length, the branch for files in memory does; a temporary file is appended to.
     */
    method AcceptSomeData(data: seq<byte>, ghost name: seq<byte>)
      requires Valid()
      modifies this
      ensures Valid() && View(name) == Accept(old(View(name)), data)
    {
      if kind.Text? {
        content := content[..contentLength] + data + [0];
      } else if storage.InFilesystem? {
        if file.NotOpen? {
          file := Open([]);
        }
        file := Open(file.bytes + data);
      } else {
        content := content[..contentLength] + data;
        contentLength := contentLength + |data|;
      }
      handed := handed + data;
    }
  }

  predicate HasName(parts: seq<Part>, name: seq<byte>) {
    exists k :: 0 <= k < |parts| && parts[k].name == name
  }

  /** Which part the map of fields holds under the name: the last one that bears it. */
  function LatestAt(parts: seq<Part>, name: seq<byte>): (k: nat)
    requires HasName(parts, name)
    ensures k < |parts| && parts[k].name == name
    ensures forall j :: k < j < |parts| ==> parts[j].name != name
    decreases |parts|
  {
    var l := |parts| - 1;
    if parts[l].name == name then l
    else
      assert HasName(parts[..l], name) by {
        var k :| 0 <= k < |parts| && parts[k].name == name;
        assert parts[..l][k].name == name;
      }
      LatestAt(parts[..l], name)
  }

  function Latest(parts: seq<Part>, name: seq<byte>): Part
    requires HasName(parts, name)
  {
    parts[LatestAt(parts, name)]
  }

  /** A part is found under its name iff no later part bears the name. */
  lemma FoundIffLast(parts: seq<Part>, j: nat)
    requires j < |parts|
    ensures HasName(parts, parts[j].name)
    ensures LatestAt(parts, parts[j].name) == j <==> forall k :: j < k < |parts| ==> parts[k].name != parts[j].name
  {
  }

  lemma LatestAppended(parts: seq<Part>, p: Part, name: seq<byte>)
    ensures HasName(parts + [p], name) <==> HasName(parts, name) || p.name == name
    ensures HasName(parts + [p], name)
            ==> Latest(parts + [p], name) == if p.name == name then p else Latest(parts, name)
  {
    var all := parts + [p];
    assert all[..|parts|] == parts && all[|parts|] == p;
    assert forall k :: 0 <= k < |parts| ==> all[k] == parts[k];
  }

  /** Every name maps to an object of its own that holds the latest part of that name. */
  ghost predicate Holds(fields: map<seq<byte>, Field>, parts: seq<Part>)
    reads fields.Values
  {
    && (forall n :: n in fields <==> HasName(parts, n))
    && (forall n :: n in fields ==> fields[n].Valid() && fields[n].View(n) == Latest(parts, n))
    && (forall n, m :: n in fields && m in fields && n != m ==> fields[n] != fields[m])
  }

  lemma HoldsOneMore(fields: map<seq<byte>, Field>, parts: seq<Part>, f: Field, p: Part)
    requires Holds(fields, parts) && f !in fields.Values && f.Valid() && f.View(p.name) == p
    ensures Holds(fields[p.name := f], parts + [p])
  {
    forall n
      ensures HasName(parts + [p], n) <==> HasName(parts, n) || n == p.name
      ensures HasName(parts + [p], n) ==> Latest(parts + [p], n) == if n == p.name then p else Latest(parts, n)
    {
      LatestAppended(parts, p, n);
    }
  }

  /** Exchanging the last part for one of the same name. */
  lemma LatestChanged(before: seq<Part>, p: Part, q: Part)
    requires p.name == q.name
    ensures forall n :: HasName(before + [q], n) <==> HasName(before + [p], n)
    ensures forall n :: HasName(before + [q], n) && n != q.name ==> Latest(before + [q], n) == Latest(before + [p], n)
    ensures HasName(before + [q], q.name) && Latest(before + [q], q.name) == q
    ensures HasName(before + [p], p.name) && Latest(before + [p], p.name) == p
  {
    forall n
      ensures HasName(before + [q], n) <==> HasName(before + [p], n)
      ensures HasName(before + [q], n) ==> Latest(before + [q], n) == if n == q.name then q else Latest(before + [p], n)
    {
      LatestAppended(before, p, n);
      LatestAppended(before, q, n);
    }
    LatestAppended(before, p, p.name);
    LatestAppended(before, q, q.name);
  }

  /** The latest part has changed, its field with it, and no other field. */
  lemma HoldsChanged(fields: map<seq<byte>, Field>, before: seq<Part>, p: Part, q: Part)
    requires p.name == q.name && forall n :: n in fields <==> HasName(before + [p], n)
    requires forall n :: n in fields ==> fields[n].Valid()
    requires forall n :: n in fields && n != p.name ==> fields[n].View(n) == Latest(before + [p], n)
    requires forall n, m :: n in fields && m in fields && n != m ==> fields[n] != fields[m]
    requires p.name in fields && fields[p.name].View(p.name) == q
    ensures Holds(fields, before + [q])
  {
    LatestChanged(before, p, q);
  }

  datatype Answer = Fine | TypeNotSet | LimitReached | BadHeaders

  class Parser {
    const c: Config
    const maxLength: nat
    const storage: Storage
    var collector: seq<byte>
    var status: Status
    var fieldName: seq<byte>
    var fields: map<seq<byte>, Field>
    ghost var parts: seq<Part>

    constructor (c: Config, maxLength: nat, storage: Storage)
      ensures Valid() && this.c == c && this.maxLength == maxLength && fields == map[]
      ensures |c.boundary| > 0 ==> Now() == State([], Looking, [])
    {
      this.c, this.maxLength, this.storage := c, maxLength, storage;
      collector, status, fieldName, fields, parts := [], Looking, [], map[], [];
    }

    ghost predicate Valid()
      reads this, fields.Values
    {
      Holds(fields, parts) && (status == Content ==> parts != [] && parts[|parts| - 1].name == fieldName)
    }

    ghost function Now(): (r: State)
      reads this
    {
      State(collector, status, parts)
    }

    // -------------------------------------------------------------- the collector

    /** Whether the delimiter stands at `i`, byte by byte. */
    method StandsAt(i: nat) returns (found: bool)
      requires i + |c.boundary| <= |collector|
      ensures found <==> Occurs(c.boundary, collector, i)
    {
      found := true;
      var j := 0;
      while j < |c.boundary| && found
        invariant j <= |c.boundary|
        invariant found ==> collector[i..i + j] == c.boundary[..j]
        invariant !found ==> !Occurs(c.boundary, collector, i)
      {
        assert Occurs(c.boundary, collector, i) ==> collector[i..i + |c.boundary|][j] == c.boundary[j];
        if collector[i + j] != c.boundary[j] {
          found := false;
        } else {
          assert collector[i..i + j + 1] == collector[i..i + j] + [collector[i + j]];
        }
        j := j + 1;
      }
    }

    method BoundaryPosition() returns (n: int)
      ensures n == Pos(c.boundary, collector)
    {
      if |collector| >= |c.boundary| {
        var i := 0;
        while i <= |collector| - |c.boundary|
          invariant forall k :: 0 <= k < i ==> !Occurs(c.boundary, collector, k)
        {
          var found := StandsAt(i);
          if found {
            PosIs(c.boundary, collector, i);
            return i;
          }
          i := i + 1;
        }
      }
      PosIsNone(c.boundary, collector);
      return -1;
    }

    /** Drop the first `n` bytes. */
    method Truncate(n: nat)
      requires n <= |collector|
      modifies this`collector
      ensures collector == old(collector)[n..]
    {
      collector := collector[n..];
    }

    // -------------------------------------------------------------- one round in each state

    method FindStartingBoundary() returns (found: bool)
      requires |c.boundary| > 0
      modifies this`collector
      ensures var n := Pos(c.boundary, old(collector));
              found == (n >= 0) && collector == if n >= 0 then old(collector)[n + |c.boundary|..] else old(collector)
    {
      var n := BoundaryPosition();
      if n >= 0 {
        Truncate(n + |c.boundary|);
      }
      return n >= 0;
    }

    /** Look for the blank line. */
    method HeadersEnd() returns (i: int)
      ensures i == Pos(BLANK, collector)
    {
      i := 0;
      while i < |collector| - 3
        invariant 0 <= i && forall k :: 0 <= k < i ==> !Occurs(BLANK, collector, k)
      {
        assert collector[i..i + 4] == [collector[i], collector[i + 1], collector[i + 2], collector[i + 3]];
        if collector[i] == 13 && collector[i + 1] == 10 && collector[i + 2] == 13 && collector[i + 3] == 10 {
          PosIs(BLANK, collector, i);
          return;
        }
        i := i + 1;
      }
      PosIsNone(BLANK, collector);
      return -1;
    }

    /** A new field for the name, in place of one it may have had before. */
    method OpenField(name: seq<byte>, kind: Kind)
      requires Valid()
      modifies this`fields, this`fieldName, this`parts
      ensures Valid() && fieldName == name && parts == old(parts) + [Part(name, kind, [], [])]
      ensures fresh(fields.Values - old(fields.Values))
    {
      ghost var p := Part(name, kind, [], []);
      var field := new Field(kind, storage);
      HoldsOneMore(fields, parts, field, p);
      assert fields[name := field].Values <= fields.Values + {field};
      fieldName := name;
      fields := fields[fieldName := field];
      parts := parts + [p];
    }

    /** True when the blank line was there and the headers have been parsed; `bad` when they were refused. */
    method WaitForHeaders() returns (ready: bool, bad: bool)
      requires Valid() && status == Headers && |c.boundary| > 0
      modifies this`collector, this`fields, this`fieldName, this`parts
      ensures Valid() && Now() == Step(c, old(Now())).0.(status := Headers)
      ensures fresh(fields.Values - old(fields.Values))
      ensures ready <==> Step(c, old(Now())).1 == Repeat
      ensures bad <==> Step(c, old(Now())).1 == Throw
      ensures ready ==> parts != [] && parts[|parts| - 1].name == fieldName
    {
      var i := HeadersEnd();
      ready, bad := false, false;
      if i >= 0 {
        var h := c.parse(CString(collector[..i]));
        if h.Bad? {
          bad := true;
          return;
        }
        OpenField(h.name, if h.Broken? then File else h.kind);
        if h.Broken? {
          bad := true;
          return;
        }
        Truncate(i + 4);
        ready := true;
      }
    }

    /** Hand a piece to the field whose part is open. */
    method HandOver(data: seq<byte>)
      requires Valid() && status == Content
      modifies this`parts, fields.Values
      ensures Valid() && parts == Deliver(old(parts), data)
    {
      ghost var l := |parts| - 1;
      ghost var before, p := parts[..l], parts[l];
      assert parts == before + [p];
      LatestAppended(before, p, fieldName);
      fields[fieldName].AcceptSomeData(data, fieldName);
      HoldsChanged(fields, before, p, Accept(p, data));
      parts := before + [Accept(p, data)];
    }

    method ProcessContent() returns (found: bool)
      requires Valid() && status == Content && |c.boundary| > 0
      modifies this`collector, this`parts, fields.Values
      ensures Valid() && Now() == Sent(c.boundary, old(Now()))
      ensures found <==> Pos(c.boundary, old(collector)) >= 0
    {
      var position := BoundaryPosition();
      var length := if position >= 0 then position - 2 else |collector| - (|c.boundary| + 2);
      if length > 0 {
        HandOver(collector[..length]);
        Truncate(length);
      }
      return position >= 0;
    }

    // -------------------------------------------------------------- the loop

    /** One round of the switch. */
    method Round() returns (again: bool, bad: bool)
      requires Valid() && |c.boundary| > 0
      modifies this, fields.Values
      ensures Valid() && (Now(), if bad then Throw else if again then Repeat else Wait) == Step(c, old(Now()))
      ensures fresh(fields.Values - old(fields.Values)) && !(bad && again)
    {
      bad := false;
      match status {
        case Looking => again := RoundLooking();
        case Headers => again, bad := RoundHeaders();
        case Content => again := RoundContent();
      }
    }

    method RoundLooking() returns (again: bool)
      requires Valid() && |c.boundary| > 0 && status == Looking
      modifies this`collector, this`status
      ensures Valid() && (Now(), if again then Repeat else Wait) == Step(c, old(Now()))
    {
      again := FindStartingBoundary();
      if again {
        status := Headers;
      }
    }

    method RoundHeaders() returns (again: bool, bad: bool)
      requires Valid() && |c.boundary| > 0 && status == Headers
      modifies this
      ensures Valid() && (Now(), if bad then Throw else if again then Repeat else Wait) == Step(c, old(Now()))
      ensures fresh(fields.Values - old(fields.Values)) && !(bad && again)
    {
      again, bad := WaitForHeaders();
      if again {
        status := Content;
      }
    }

    method RoundContent() returns (again: bool)
      requires Valid() && |c.boundary| > 0 && status == Content
      modifies this`collector, this`parts, this`status, fields.Values
      ensures Valid() && (Now(), if again then Repeat else Wait) == Step(c, old(Now()))
    {
      again := ProcessContent();
      if again {
        status := Looking;
      }
    }

    method ProcessData() returns (bad: bool)
      requires Valid() && |c.boundary| > 0
      modifies this, fields.Values
      ensures Valid() && (Now(), if bad then Throw else Wait) == Run(c, old(Now()))
      ensures fresh(fields.Values - old(fields.Values))
    {
      var again := true;
      ghost var want := Run(c, Now());
      bad := false;
      while again
        invariant Valid() && fresh(fields.Values - old(fields.Values))
        invariant again ==> !bad && Run(c, Now()) == want
        invariant !again ==> (Now(), if bad then Throw else Wait) == want
        decreases again, |collector|, if status == Content then 1 else 0
      {
        again, bad := Round();
      }
    }

    /** A piece of the body. */
    method AcceptSomeData(data: seq<byte>) returns (answer: Answer)
      requires Valid()
      modifies this, fields.Values
      ensures Valid() && fresh(fields.Values - old(fields.Values))
      ensures |c.boundary| == 0 <==> answer == TypeNotSet
      ensures answer == TypeNotSet ==> Now() == old(Now())
      ensures |c.boundary| > 0 ==>
                (Now(), if answer == Fine then Wait else Throw) == Call(c, maxLength, old(Now()), data)
                && (answer == LimitReached <==> |old(collector)| + |data| > maxLength)
    {
      if |c.boundary| == 0 {
        return TypeNotSet;
      }
      collector := collector + data;
      if |collector| > maxLength {
        return LimitReached;
      }
      assert Now() == Arrive(old(Now()), data);
      var bad := ProcessData();
      return if bad then BadHeaders else Fine;
    }
  }
}
