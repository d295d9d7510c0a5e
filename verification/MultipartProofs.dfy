/** The parser gives the same answer however the body is cut, and it inverts the layout of RFC 2046, section 5.1.1. */
module MultipartProofs {
  import opened MultipartSpec

  // ---------------------------------------------------------------- searching in a longer buffer

  lemma OccursLonger(b: seq<byte>, buf: seq<byte>, d: seq<byte>, i: nat)
    requires i + |b| <= |buf|
    ensures Occurs(b, buf + d, i) <==> Occurs(b, buf, i)
  {
    assert (buf + d)[i..i + |b|] == buf[i..i + |b|];
  }

  /** A first occurrence stays the first one when bytes arrive. */
  lemma PosLonger(b: seq<byte>, buf: seq<byte>, d: seq<byte>)
    requires Pos(b, buf) >= 0
    ensures Pos(b, buf + d) == Pos(b, buf)
  {
    var n := Pos(b, buf);
    PosIsFirst(b, buf);
    OccursLonger(b, buf, d, n);
    forall k | 0 <= k < n
      ensures !Occurs(b, buf + d, k)
    {
      OccursLonger(b, buf, d, k);
    }
    PosIs(b, buf + d, n);
  }

  /** Without an occurrence so far, a later one ends in the new bytes. */
  lemma PosLater(b: seq<byte>, buf: seq<byte>, d: seq<byte>)
    requires Pos(b, buf) < 0
    ensures Pos(b, buf + d) < 0 || Pos(b, buf + d) + |b| > |buf|
  {
    var n := Pos(b, buf + d);
    PosIsFirst(b, buf);
    if n >= 0 && n + |b| <= |buf| {
      OccursLonger(b, buf, d, n);
    }
  }

  /** Dropping bytes before the first occurrence. */
  lemma PosDropped(b: seq<byte>, buf: seq<byte>, k: nat)
    requires k <= |buf| && (Pos(b, buf) < 0 || k <= Pos(b, buf))
    ensures Pos(b, buf[k..]) == if Pos(b, buf) < 0 then -1 else Pos(b, buf) - k
  {
    var n := Pos(b, buf);
    PosIsFirst(b, buf);
    forall i: nat
      ensures Occurs(b, buf[k..], i) <==> Occurs(b, buf, i + k)
    {
      if i + k + |b| <= |buf| {
        assert buf[k..][i..i + |b|] == buf[i + k..i + k + |b|];
      }
    }
    if n >= 0 {
      assert Occurs(b, buf[k..], n - k);
      PosIs(b, buf[k..], n - k);
    } else {
      PosIsNone(b, buf[k..]);
    }
  }

  // ---------------------------------------------------------------- states that differ only in what fields stored

  lemma DeliverSame(ps: seq<Part>, qs: seq<Part>, data: seq<byte>)
    requires SameParts(ps, qs) && ps != []
    ensures SameParts(Deliver(ps, data), Deliver(qs, data))
  {
    var l := |ps| - 1;
    assert SamePart(ps[l], qs[l]);
    forall k | 0 <= k < |ps|
      ensures SamePart(Deliver(ps, data)[k], Deliver(qs, data)[k])
    {
      assert k < l ==> Deliver(ps, data)[k] == ps[k] && Deliver(qs, data)[k] == qs[k];
    }
  }

  lemma StepSame(c: Config, s: State, t: State)
    requires Ok(s) && Ok(t) && |c.boundary| > 0 && Same(s, t)
    ensures Same(Step(c, s).0, Step(c, t).0) && Step(c, s).1 == Step(c, t).1
  {
    if s.status == Content && Certain(c.boundary, s.buf) > 0 {
      DeliverSame(s.parts, t.parts, s.buf[..Certain(c.boundary, s.buf)]);
    }
  }

  lemma {:induction false} RunSame(c: Config, s: State, t: State)
    requires Ok(s) && Ok(t) && |c.boundary| > 0 && Same(s, t)
    ensures Same(Run(c, s).0, Run(c, t).0) && Run(c, s).1 == Run(c, t).1
    decreases |s.buf|, if s.status == Content then 1 else 0
  {
    StepSame(c, s, t);
    if Step(c, s).1 == Repeat {
      RunSame(c, Step(c, s).0, Step(c, t).0);
    }
  }

  /** Equal up to the stored bytes; after an error the unread rest of the buffer does not matter either. */
  predicate Agree(x: (State, Outcome), y: (State, Outcome)) {
    x.1 == y.1 && SameParts(x.0.parts, y.0.parts) && x.0.status == y.0.status && (x.1 != Throw ==> x.0.buf == y.0.buf)
  }

  // ---------------------------------------------------------------- resuming

  lemma CutLonger(buf: seq<byte>, d: seq<byte>, n: nat)
    requires n <= |buf|
    ensures (buf + d)[n..] == buf[n..] + d && (buf + d)[..n] == buf[..n]
  {
  }

  lemma LookingEarly(c: Config, st: State, d: seq<byte>)
    requires |c.boundary| > 0 && st.status == Looking && Pos(c.boundary, st.buf) >= 0
    ensures Step(c, Arrive(st, d)) == (Arrive(Step(c, st).0, d), Repeat)
  {
    PosLonger(c.boundary, st.buf, d);
    CutLonger(st.buf, d, Pos(c.boundary, st.buf) + |c.boundary|);
  }

  lemma HeadersEarly(c: Config, st: State, d: seq<byte>)
    requires |c.boundary| > 0 && st.status == Headers && Pos(BLANK, st.buf) >= 0
    ensures Step(c, Arrive(st, d)) == (Arrive(Step(c, st).0, d), Step(c, st).1)
  {
    var n := Pos(BLANK, st.buf);
    PosLonger(BLANK, st.buf, d);
    CutLonger(st.buf, d, n);
    CutLonger(st.buf, d, n + 4);
  }

  lemma ContentEarly(c: Config, st: State, d: seq<byte>)
    requires Ok(st) && |c.boundary| > 0 && st.status == Content && Pos(c.boundary, st.buf) >= 0
    ensures Step(c, Arrive(st, d)) == (Arrive(Step(c, st).0, d), Repeat)
  {
    var n := Pos(c.boundary, st.buf);
    PosLonger(c.boundary, st.buf, d);
    if n > 2 {
      CutLonger(st.buf, d, n - 2);
    }
  }

  /** A round that repeats or throws does the same when more bytes have arrived already. */
  lemma StepEarly(c: Config, st: State, d: seq<byte>)
    requires Ok(st) && |c.boundary| > 0 && Step(c, st).1 != Wait
    ensures Step(c, Arrive(st, d)) == (Arrive(Step(c, st).0, d), Step(c, st).1)
  {
    match st.status
    case Looking => LookingEarly(c, st, d);
    case Headers => HeadersEarly(c, st, d);
    case Content => ContentEarly(c, st, d);
  }

  /** How much is certain once more bytes are there, counted from the start and from behind `k` bytes. */
  lemma CertainLater(b: seq<byte>, buf: seq<byte>, d: seq<byte>, k: nat, m: nat)
    requires |b| > 0 && Pos(b, buf) < 0 && k == Certain(b, buf) > 0
    requires m == if Certain(b, buf + d) >= 0 then Certain(b, buf + d) else 0
    ensures k <= m <= |buf + d| && m == Certain(b, buf + d) && Certain(b, buf[k..] + d) == m - k
    ensures Pos(b, buf[k..] + d) >= 0 <==> Pos(b, buf + d) >= 0
  {
    PosLater(b, buf, d);
    PosDropped(b, buf + d, k);
    assert buf[k..] + d == (buf + d)[k..];
  }

  lemma Cuts(buf: seq<byte>, d: seq<byte>, k: nat, m: nat)
    requires k <= |buf| && k <= m <= |buf + d|
    ensures (buf + d)[..m] == buf[..k] + (buf[k..] + d)[..m - k] && (buf + d)[m..] == (buf[k..] + d)[m - k..]
  {
  }

  /** A piece of `k` bytes, then one of the other `m - k`, or one piece of `m` bytes. */
  lemma TwoPieces(parts: seq<Part>, buf: seq<byte>, d: seq<byte>, k: nat, m: nat)
    requires parts != [] && k <= |buf| && k <= m <= |buf + d|
    ensures var early := Deliver(parts, buf[..k]);
            SameParts(if m > k then Deliver(early, (buf[k..] + d)[..m - k]) else early, Deliver(parts, (buf + d)[..m]))
    ensures (if m > k then (buf[k..] + d)[m - k..] else buf[k..] + d) == (buf + d)[m..]
  {
    Cuts(buf, d, k, m);
    if m > k {
      DeliverTwice(parts, buf[..k], (buf[k..] + d)[..m - k]);
    } else {
      assert buf[..k] + (buf[k..] + d)[..0] == buf[..k];
      DeliverSame(parts, parts, buf[..k]);
    }
  }

  /** Handing over by a known number of certain bytes. */
  function Handed(st: State, n: nat): State
    requires st.status == Content && Ok(st) && n <= |st.buf|
  {
    if n > 0 then State(st.buf[n..], Content, Deliver(st.parts, st.buf[..n])) else st
  }

  lemma SentIsHanded(b: seq<byte>, st: State, n: nat)
    requires st.status == Content && Ok(st) && n == Certain(b, st.buf) <= |st.buf|
    ensures Sent(b, st) == Handed(st, n)
  {
  }

  lemma HandedEarly(st: State, d: seq<byte>, k: nat, m: nat)
    requires st.status == Content && Ok(st) && 0 < k <= |st.buf| && k <= m <= |st.buf + d|
    ensures Same(Handed(Arrive(Handed(st, k), d), m - k), Handed(Arrive(st, d), m))
  {
    TwoPieces(st.parts, st.buf, d, k, m);
  }

  /** Bytes handed over early are bytes that would have been handed over anyway. */
  lemma SentEarly(b: seq<byte>, st: State, first: State, d: seq<byte>, k: nat)
    requires st.status == Content && Ok(st) && |b| > 0 && Pos(b, st.buf) < 0 && k == Certain(b, st.buf) > 0
             && first == Handed(st, k)
    ensures Same(Sent(b, Arrive(first, d)), Sent(b, Arrive(st, d)))
    ensures Pos(b, Arrive(first, d).buf) >= 0 <==> Pos(b, Arrive(st, d).buf) >= 0
  {
    var m := if Certain(b, st.buf + d) >= 0 then Certain(b, st.buf + d) else 0;
    CertainLater(b, st.buf, d, k, m);
    HandedEarly(st, d, k, m);
    SentIsHanded(b, Arrive(first, d), m - k);
    SentIsHanded(b, Arrive(st, d), m);
  }

  lemma DeliverTwice(ps: seq<Part>, x: seq<byte>, y: seq<byte>)
    requires ps != []
    ensures SameParts(Deliver(Deliver(ps, x), y), Deliver(ps, x + y))
  {
    var p := ps[|ps| - 1];
    assert (p.handed + x) + y == p.handed + (x + y);
    assert SamePart(Accept(Accept(p, x), y), Accept(p, x + y));
    assert Deliver(Deliver(ps, x), y) == ps[..|ps| - 1] + [Accept(Accept(p, x), y)];
  }

  /** Processing now and again when more bytes are there is processing once when they are there. */
  lemma {:induction false} Resume(c: Config, st: State, d: seq<byte>)
    requires Ok(st) && |c.boundary| > 0
    ensures var r := Run(c, st);
            Agree(if r.1 == Throw then r else Run(c, Arrive(r.0, d)), Run(c, Arrive(st, d)))
    decreases |st.buf|, if st.status == Content then 1 else 0
  {
    var r := Step(c, st);
    if r.1 == Repeat {
      Resume(c, r.0, d);
      RepeatEarly(c, st, r.0, d);
    } else if r.1 == Throw {
      ThrowEarly(c, st, d);
    } else if st.status == Content && Certain(c.boundary, st.buf) > 0 {
      WaitEarly(c, st, d);
    } else {
      assert Run(c, st) == (st, Wait);
      AgreeSelf(Run(c, Arrive(st, d)));
    }
  }

  lemma RepeatEarly(c: Config, st: State, next: State, d: seq<byte>)
    requires Ok(st) && |c.boundary| > 0 && Step(c, st) == (next, Repeat)
    ensures Run(c, st) == Run(c, next) && Run(c, Arrive(st, d)) == Run(c, Arrive(next, d))
  {
    StepEarly(c, st, d);
  }

  lemma ThrowEarly(c: Config, st: State, d: seq<byte>)
    requires Ok(st) && |c.boundary| > 0 && Step(c, st).1 == Throw
    ensures Run(c, st).1 == Throw && Agree(Run(c, st), Run(c, Arrive(st, d)))
  {
    StepEarly(c, st, d);
  }

  lemma AgreeSelf(x: (State, Outcome))
    ensures Agree(x, x)
  {
  }

  lemma WaitEarly(c: Config, st: State, d: seq<byte>)
    requires Ok(st) && |c.boundary| > 0 && st.status == Content && Pos(c.boundary, st.buf) < 0
             && Certain(c.boundary, st.buf) > 0
    ensures Agree(Run(c, Arrive(Sent(c.boundary, st), d)), Run(c, Arrive(st, d)))
  {
    var b := c.boundary;
    var k := Certain(b, st.buf);
    SentIsHanded(b, st, k);
    var x, y := Arrive(Handed(st, k), d), Arrive(st, d);
    SentEarly(b, st, Handed(st, k), d, k);
    assert Same(Step(c, x).0, Step(c, y).0) && Step(c, x).1 == Step(c, y).1;
    if Step(c, x).1 == Repeat {
      RunSame(c, Step(c, x).0, Step(c, y).0);
    }
  }

  lemma AgreeChain(x: (State, Outcome), y: (State, Outcome), z: (State, Outcome))
    requires Agree(x, y) && Agree(y, z)
    ensures Agree(x, z)
  {
  }

  lemma JoinStep(st: State, ds: seq<seq<byte>>)
    requires ds != []
    ensures Arrive(Arrive(st, ds[0]), Join(ds[1..])) == Arrive(st, Join(ds))
    ensures ds[1..] == [] ==> Arrive(st, ds[0]) == Arrive(st, Join(ds))
  {
    assert st.buf + ds[0] + Join(ds[1..]) == st.buf + Join(ds);
  }

  /** The answer does not depend on where the body is cut. */
  lemma {:induction false} ChunkingIndependence(c: Config, st: State, ds: seq<seq<byte>>)
    requires Ok(st) && |c.boundary| > 0 && ds != []
    ensures Agree(Feed(c, st, ds), Run(c, Arrive(st, Join(ds))))
    decreases |ds|
  {
    var r, more := Run(c, Arrive(st, ds[0])), ds[1..];
    JoinStep(st, ds);
    if more != [] {
      Resume(c, Arrive(st, ds[0]), Join(more));
      if r.1 != Throw {
        ChunkingIndependence(c, r.0, more);
        AgreeChain(Feed(c, r.0, more), Run(c, Arrive(r.0, Join(more))), Run(c, Arrive(st, Join(ds))));
      }
    }
  }

  lemma {:induction false} RunShrinks(c: Config, st: State)
    requires Ok(st) && |c.boundary| > 0
    ensures |Run(c, st).0.buf| <= |st.buf|
    decreases |st.buf|, if st.status == Content then 1 else 0
  {
    if Step(c, st).1 == Repeat {
      RunShrinks(c, Step(c, st).0);
    }
  }

  /** A body within the collector's limit never meets it, however it is cut. */
  lemma {:induction false} WithinLimit(c: Config, max: nat, st: State, ds: seq<seq<byte>>)
    requires Ok(st) && |c.boundary| > 0 && |st.buf| + |Join(ds)| <= max
    ensures Calls(c, max, st, ds) == Feed(c, st, ds)
    decreases |ds|
  {
    if ds != [] {
      var r := Run(c, Arrive(st, ds[0]));
      RunShrinks(c, Arrive(st, ds[0]));
      if r.1 != Throw {
        WithinLimit(c, max, r.0, ds[1..]);
      }
    }
  }

  // ---------------------------------------------------------------- the layout of section 5.1.1 of RFC 2046

  /** A part as a client sends it: its header block, and what the parser makes of that, and its content. */
  datatype Source = Source(headers: seq<byte>, content: seq<byte>)

  /** Everything behind a delimiter: the remaining parts, then the close delimiter's rest. */
  function Rest(b: seq<byte>, ps: seq<Source>, tail: seq<byte>): seq<byte> {
    if ps == [] then tail
    else (CRLF + ps[0].headers) + (BLANK + (ps[0].content + (CRLF + (b + Rest(b, ps[1..], tail)))))
  }

  function Body(b: seq<byte>, preamble: seq<byte>, ps: seq<Source>, tail: seq<byte>): seq<byte> {
    preamble + (b + Rest(b, ps, tail))
  }

  predicate Absent(b: seq<byte>, s: seq<byte>) {
    Pos(b, s) < 0
  }

  /** A delimiter without CR and LF. */
  predicate PlainDelimiter(b: seq<byte>) {
    |b| > 0 && forall k :: 0 <= k < |b| ==> b[k] != 13 && b[k] != 10
  }

  /** No blank line inside the header block, no delimiter in the content, and headers the parser understands. */
  predicate GoodSource(c: Config, p: Source) {
    Absent(BLANK, CRLF + p.headers + CRLF) && Absent(c.boundary, p.content) && c.parse(CString(CRLF + p.headers)).Named?
  }

  predicate GoodSources(c: Config, ps: seq<Source>) {
    ps == [] || (GoodSource(c, ps[0]) && GoodSources(c, ps[1..]))
  }

  /** What the field of a part must end up with. */
  function Whole(c: Config, p: Source): Part {
    var h := c.parse(CString(CRLF + p.headers));
    if h.Named? then Part(h.name, h.kind, p.content, p.content) else Part([], Text, [], [])
  }

  function Wholes(c: Config, ps: seq<Source>): seq<Part> {
    if ps == [] then [] else [Whole(c, ps[0])] + Wholes(c, ps[1..])
  }

  lemma OccursByte(b: seq<byte>, buf: seq<byte>, i: nat, k: nat)
    requires Occurs(b, buf, i) && k < |b|
    ensures buf[i + k] == b[k]
  {
    assert buf[i..i + |b|][k] == buf[i + k];
  }

  /** Behind a content without the delimiter the first one is the one after CRLF. */
  lemma DelimiterFound(b: seq<byte>, content: seq<byte>, rest: seq<byte>)
    requires PlainDelimiter(b) && Absent(b, content)
    ensures Pos(b, content + (CRLF + (b + rest))) == |content| + 2
  {
    var buf := content + (CRLF + (b + rest));
    var n := |content| + 2;
    assert buf[n..n + |b|] == b;
    assert buf[|content|] == 13 && buf[|content| + 1] == 10;
    PosIsFirst(b, content);
    forall k | 0 <= k < n
      ensures !Occurs(b, buf, k)
    {
      if k + |b| <= |content| {
        OccursLonger(b, content, CRLF + (b + rest), k);
      } else if Occurs(b, buf, k) {
        OccursByte(b, buf, k, if k <= |content| then |content| - k else 0);
      }
    }
    PosIs(b, buf, n);
  }

  /** The blank line found is the one behind the header block. */
  lemma BlankFound(h: seq<byte>, rest: seq<byte>)
    requires Absent(BLANK, h + CRLF)
    ensures Pos(BLANK, h + (BLANK + rest)) == |h|
  {
    var buf := h + (BLANK + rest);
    assert buf[|h|..|h| + 4] == BLANK;
    assert buf == (h + CRLF) + (CRLF + rest);
    PosIsFirst(BLANK, h + CRLF);
    forall k | 0 <= k < |h|
      ensures !Occurs(BLANK, buf, k)
    {
      if k + 4 <= |h + CRLF| {
        OccursLonger(BLANK, h + CRLF, CRLF + rest, k);
      } else if Occurs(BLANK, buf, k) {
        OccursByte(BLANK, buf, k, 3);
      }
    }
    PosIs(BLANK, buf, |h|);
  }

  /** Reading one header block. */
  lemma HeadersRead(c: Config, p: Source, parts: seq<Part>, rest: seq<byte>)
    requires GoodSource(c, p) && |c.boundary| > 0
    ensures var w := Whole(c, p);
            Step(c, State((CRLF + p.headers) + (BLANK + rest), Headers, parts))
            == (State(rest, Content, parts + [Part(w.name, w.kind, [], [])]), Repeat)
  {
    var h := CRLF + p.headers;
    BlankFound(h, rest);
    assert (h + (BLANK + rest))[..|h|] == h;
    assert (h + (BLANK + rest))[|h| + 4..] == rest;
  }

  /** Reading one content, whole. */
  lemma ContentRead(c: Config, w: Part, content: seq<byte>, parts: seq<Part>, rest: seq<byte>)
    requires PlainDelimiter(c.boundary) && Absent(c.boundary, content) && w.handed == content == w.stored
    ensures var buf := content + (CRLF + (c.boundary + rest));
            var left := if content == [] then buf else CRLF + (c.boundary + rest);
            Step(c, State(buf, Content, parts + [Part(w.name, w.kind, [], [])]))
                == (State(left, Looking, parts + [w]), Repeat)
  {
    var buf := content + (CRLF + (c.boundary + rest));
    DelimiterFound(c.boundary, content, rest);
    var open := parts + [Part(w.name, w.kind, [], [])];
    if content == [] {
      assert open == parts + [w];
    } else {
      assert buf[..|content|] == content && buf[|content|..] == CRLF + (c.boundary + rest);
      assert [] + content == content;
      assert Deliver(open, content) == parts + [w];
    }
  }

  /** Passing the delimiter. */
  lemma DelimiterRead(c: Config, before: seq<byte>, parts: seq<Part>, rest: seq<byte>)
    requires |c.boundary| > 0 && Pos(c.boundary, before + (c.boundary + rest)) == |before|
    ensures Step(c, State(before + (c.boundary + rest), Looking, parts)) == (State(rest, Headers, parts), Repeat)
  {
    assert (before + (c.boundary + rest))[|before| + |c.boundary|..] == rest;
  }

  /** One part, from behind its delimiter to behind the next one. */
  lemma PartRead(c: Config, p: Source, parts: seq<Part>, rest: seq<byte>)
    requires PlainDelimiter(c.boundary) && GoodSource(c, p)
    ensures Run(c, State((CRLF + p.headers) + (BLANK + (p.content + (CRLF + (c.boundary + rest)))), Headers, parts))
            == Run(c, State(rest, Headers, parts + [Whole(c, p)]))
  {
    var b, w := c.boundary, Whole(c, p);
    var behind := CRLF + (b + rest);
    HeadersRead(c, p, parts, p.content + behind);
    ContentRead(c, w, p.content, parts, rest);
    assert Absent(b, []);
    DelimiterFound(b, [], rest);
    assert [] + behind == behind;
    var left := if p.content == [] then p.content + behind else behind;
    assert left == behind;
    DelimiterRead(c, CRLF, parts + [w], rest);
    RunTwice(c, State((CRLF + p.headers) + (BLANK + (p.content + behind)), Headers, parts),
             State(p.content + behind, Content, parts + [Part(w.name, w.kind, [], [])]),
                 State(behind, Looking, parts + [w]),
             State(rest, Headers, parts + [w]));
  }

  lemma RunTwice(c: Config, s: State, t: State, u: State, v: State)
    requires |c.boundary| > 0 && Ok(s) && Ok(t) && Ok(u)
    requires Step(c, s) == (t, Repeat) && Step(c, t) == (u, Repeat) && Step(c, u) == (v, Repeat)
    ensures Run(c, s) == Run(c, v)
  {
    assert Run(c, s) == Run(c, t);
    assert Run(c, t) == Run(c, u);
  }

  lemma WholesJoin(parts: seq<Part>, w: Part, rest: seq<Part>)
    ensures (parts + [w]) + rest == parts + ([w] + rest)
  {
  }

  lemma FirstPartRead(c: Config, ps: seq<Source>, parts: seq<Part>, more: seq<Part>, tail: seq<byte>)
    requires PlainDelimiter(c.boundary) && ps != [] && GoodSource(c, ps[0]) && more == parts + [Whole(c, ps[0])]
    ensures Run(c, State(Rest(c.boundary, ps, tail), Headers, parts))
            == Run(c, State(Rest(c.boundary, ps[1..], tail), Headers, more))
  {
    PartRead(c, ps[0], parts, Rest(c.boundary, ps[1..], tail));
  }

  /** All parts, whatever follows them: reading goes on behind the last delimiter. */
  lemma {:induction false} PartsRead(c: Config, ps: seq<Source>, parts: seq<Part>, tail: seq<byte>)
    requires PlainDelimiter(c.boundary) && GoodSources(c, ps)
    ensures Run(c, State(Rest(c.boundary, ps, tail), Headers, parts))
            == Run(c, State(tail, Headers, parts + Wholes(c, ps)))
    decreases |ps|
  {
    if ps == [] {
      assert parts + Wholes(c, ps) == parts;
    } else {
      var more := parts + [Whole(c, ps[0])];
      PartsRead(c, ps[1..], more, tail);
      FirstPartRead(c, ps, parts, more, tail);
      WholesJoin(parts, Whole(c, ps[0]), Wholes(c, ps[1..]));
    }
  }

  /**
   * A body laid out as in section 5.1.1 of RFC 2046, in one piece: every part arrives and is stored whole, in order.
   * Then the parser goes on with what follows the last delimiter, as if another header block were to come.
   */
  lemma RoundTrip(c: Config, preamble: seq<byte>, ps: seq<Source>, tail: seq<byte>)
    requires PlainDelimiter(c.boundary) && GoodSources(c, ps)
    requires Pos(c.boundary, preamble + c.boundary) == |preamble|
    ensures Run(c, State(Body(c.boundary, preamble, ps, tail), Looking, []))
            == Run(c, State(tail, Headers, Wholes(c, ps)))
  {
    var b := c.boundary;
    var rest := Rest(b, ps, tail);
    assert preamble + (b + rest) == (preamble + b) + rest;
    PosLonger(b, preamble + b, rest);
    DelimiterRead(c, preamble, [], rest);
    PartsRead(c, ps, [], tail);
    assert [] + Wholes(c, ps) == Wholes(c, ps);
  }

  /** What the parser makes of the bytes behind the last delimiter, when `parts` have arrived. */
  ghost predicate TailRead(c: Config, parts: seq<Part>, tail: seq<byte>, r: (State, Outcome)) {
    var n := Pos(BLANK, tail);
    if n < 0 then r == (State(tail, Headers, parts), Wait)
    else
      match c.parse(CString(tail[..n]))
      case Bad => r.1 == Throw && r.0.parts == parts
      case Broken(name) =>
        r.1 == Throw && |r.0.parts| == |parts| + 1 && OneMore(parts, r.0.parts, name, File)
            && r.0.parts[|parts|].handed == []
      case Named(name, kind) => |r.0.parts| > |parts| && OneMore(parts, r.0.parts, name, kind)
  }

  /** The part that follows `parts` has the name and the kind. */
  predicate OneMore(parts: seq<Part>, all: seq<Part>, name: seq<byte>, kind: Kind)
    requires |all| > |parts|
  {
    all[..|parts|] == parts && all[|parts|].name == name && all[|parts|].kind == kind
  }

  /** It waits iff there is no blank line; otherwise it refuses the body, or opens a part that nobody sent. */
  lemma TailIsRead(c: Config, parts: seq<Part>, tail: seq<byte>)
    requires |c.boundary| > 0
    ensures TailRead(c, parts, tail, Run(c, State(tail, Headers, parts)))
  {
    var st := State(tail, Headers, parts);
    var r := Step(c, st);
    if r.1 == Repeat {
      RunKeepsFront(c, r.0, |parts|);
      assert r.0.parts[..|parts|] == parts;
      RunKeepsOpen(c, r.0, |parts|);
    }
  }

  /** The parts before the open one never change. */
  predicate Behind(st: State, n: nat) {
    n <= |st.parts| && (st.status == Content ==> n < |st.parts|)
  }

  lemma StepKeepsFront(c: Config, st: State, n: nat)
    requires Ok(st) && |c.boundary| > 0 && Behind(st, n)
    ensures Behind(Step(c, st).0, n) && Step(c, st).0.parts[..n] == st.parts[..n]
  {
  }

  lemma {:induction false} RunKeepsFront(c: Config, st: State, n: nat)
    requires Ok(st) && |c.boundary| > 0 && Behind(st, n)
    ensures Behind(Run(c, st).0, n) && Run(c, st).0.parts[..n] == st.parts[..n]
    decreases |st.buf|, if st.status == Content then 1 else 0
  {
    StepKeepsFront(c, st, n);
    if Step(c, st).1 == Repeat {
      RunKeepsFront(c, Step(c, st).0, n);
    }
  }

  lemma {:induction false} FeedKeepsFront(c: Config, st: State, ds: seq<seq<byte>>, n: nat)
    requires Ok(st) && |c.boundary| > 0 && Behind(st, n)
    ensures Behind(Feed(c, st, ds).0, n) && Feed(c, st, ds).0.parts[..n] == st.parts[..n]
    decreases |ds|
  {
    if ds != [] {
      var r := Run(c, Arrive(st, ds[0]));
      RunKeepsFront(c, Arrive(st, ds[0]), n);
      if r.1 != Throw {
        FeedKeepsFront(c, r.0, ds[1..], n);
      }
    }
  }

  lemma StepKeepsOpen(c: Config, st: State, k: nat)
    requires Ok(st) && |c.boundary| > 0 && k < |st.parts|
    ensures var ps := Step(c, st).0.parts; k < |ps| && ps[k].name == st.parts[k].name && ps[k].kind == st.parts[k].kind
  {
  }

  /** A part keeps its name and kind. */
  lemma {:induction false} RunKeepsOpen(c: Config, st: State, k: nat)
    requires Ok(st) && |c.boundary| > 0 && k < |st.parts|
    ensures var ps := Run(c, st).0.parts; k < |ps| && ps[k].name == st.parts[k].name && ps[k].kind == st.parts[k].kind
    decreases |st.buf|, if st.status == Content then 1 else 0
  {
    StepKeepsOpen(c, st, k);
    if Step(c, st).1 == Repeat {
      RunKeepsOpen(c, Step(c, st).0, k);
    }
  }

  /**
   * So the exact condition for a body to end with its parts and nothing else, no error and no further part: no blank
   * line behind the last delimiter.
   */
  lemma RoundTripEnds(c: Config, preamble: seq<byte>, ps: seq<Source>, tail: seq<byte>)
    requires PlainDelimiter(c.boundary) && GoodSources(c, ps)
    requires Pos(c.boundary, preamble + c.boundary) == |preamble|
    ensures var r := Run(c, State(Body(c.boundary, preamble, ps, tail), Looking, []));
            r.1 == Wait && |r.0.parts| == |ps| <==> Absent(BLANK, tail)
  {
    RoundTrip(c, preamble, ps, tail);
    TailIsRead(c, Wholes(c, ps), tail);
    WholesSize(c, ps);
  }

  lemma {:induction false} WholesSize(c: Config, ps: seq<Source>)
    ensures |Wholes(c, ps)| == |ps|
  {
    if ps != [] {
      WholesSize(c, ps[1..]);
    }
  }

  /**
   * The same body cut anywhere: every part is still handed its content exactly, in order, and the rest is read alike.
   */
  lemma RoundTripInPieces(c: Config, preamble: seq<byte>, ps: seq<Source>, tail: seq<byte>, ds: seq<seq<byte>>)
    requires PlainDelimiter(c.boundary) && GoodSources(c, ps)
    requires Pos(c.boundary, preamble + c.boundary) == |preamble|
    requires ds != [] && Join(ds) == Body(c.boundary, preamble, ps, tail)
    ensures var r := Feed(c, State([], Looking, []), ds);
            && Agree(r, Run(c, State(tail, Headers, Wholes(c, ps))))
            && |ps| <= |r.0.parts| && SameParts(r.0.parts[..|ps|], Wholes(c, ps))
  {
    RoundTrip(c, preamble, ps, tail);
    ChunkingIndependence(c, State([], Looking, []), ds);
    assert [] + Join(ds) == Body(c.boundary, preamble, ps, tail);
    WholesSize(c, ps);
    RunKeepsFront(c, State(tail, Headers, Wholes(c, ps)), |ps|);
    FrontSame(Feed(c, State([], Looking, []), ds).0.parts, Run(c, State(tail, Headers, Wholes(c, ps))).0.parts,
        Wholes(c, ps));
  }

  lemma FrontSame(xs: seq<Part>, ys: seq<Part>, front: seq<Part>)
    requires SameParts(xs, ys) && |front| <= |ys| && ys[..|front|] == front[..|front|]
    ensures |front| <= |xs| && SameParts(xs[..|front|], front)
  {
  }

  // ---------------------------------------------------------------- what fields store

  /** Files hold exactly what they were handed. */
  predicate FilesWhole(ps: seq<Part>) {
    forall k :: 0 <= k < |ps| && ps[k].kind.File? ==> ps[k].stored == ps[k].handed
  }

  lemma {:induction false} RunKeepsFiles(c: Config, st: State)
    requires Ok(st) && |c.boundary| > 0 && FilesWhole(st.parts)
    ensures FilesWhole(Run(c, st).0.parts)
    decreases |st.buf|, if st.status == Content then 1 else 0
  {
    if Step(c, st).1 == Repeat {
      RunKeepsFiles(c, Step(c, st).0);
    }
  }

  /** However a body arrives, a file stores exactly the bytes its field was handed. */
  lemma {:induction false} FeedKeepsFiles(c: Config, st: State, ds: seq<seq<byte>>)
    requires Ok(st) && |c.boundary| > 0 && FilesWhole(st.parts)
    ensures FilesWhole(Feed(c, st, ds).0.parts)
    decreases |ds|
  {
    if ds != [] {
      RunKeepsFiles(c, Arrive(st, ds[0]));
      if Run(c, Arrive(st, ds[0])).1 != Throw {
        FeedKeepsFiles(c, Run(c, Arrive(st, ds[0])).0, ds[1..]);
      }
    }
  }

  /** A text field that takes a piece holds what it was handed iff this is its first one. */
  lemma TextPiece(p: Part, data: seq<byte>)
    requires p.kind.Text?
    ensures Accept(p, data).stored == Accept(p, data).handed <==> p.handed == []
  {
    assert p.handed + data == data <==> |p.handed| == 0;
  }
}
