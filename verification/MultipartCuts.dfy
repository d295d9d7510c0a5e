/** What every field holds in the end, for every way of cutting a body into calls. */
module MultipartCuts {
  import opened MultipartSpec
  import opened MultipartProofs

  // ---------------------------------------------------------------- places in the body

  /** Where a part's content starts, when what is behind its delimiter starts at `o`. */
  function ContentAt(p: Source, o: nat): nat {
    o + 6 + |p.headers|
  }

  /** Where the delimiter behind the part ends. */
  function DelimiterEnd(b: seq<byte>, p: Source, o: nat): nat {
    ContentAt(p, o) + |p.content| + 2 + |b|
  }

  /** How much of a content that starts at `s` is certain when `q` bytes have arrived, before its delimiter has. */
  function Ahead(b: seq<byte>, q: nat, s: nat): nat {
    if q > s + |b| + 2 then q - s - (|b| + 2) else 0
  }

  /** The end of the last call that stops short of `e`; `q` bytes have arrived before the calls `ds`. */
  function LastCut(ds: seq<seq<byte>>, q: nat, e: nat): (r: nat)
    ensures r >= q && (q < e ==> r < e)
    decreases |ds|
  {
    if ds == [] || q + |ds[0]| >= e then q else LastCut(ds[1..], q + |ds[0]|, e)
  }

  /** A finished part of which `h` bytes were handed over before the call that finished it. */
  function Kept(c: Config, p: Source, h: nat): Part {
    var w := Whole(c, p);
    if w.kind.File? || h > |p.content| then w else w.(stored := p.content[h..])
  }

  /** The parts of the sources `ps`, the first of them behind a delimiter that ends at `o`. */
  function Ended(c: Config, ps: seq<Source>, o: nat, ds: seq<seq<byte>>, q: nat): seq<Part> {
    if ps == [] then []
    else
      var e := DelimiterEnd(c.boundary, ps[0], o);
      [Kept(c, ps[0], Ahead(c.boundary, LastCut(ds, q, e), ContentAt(ps[0], o)))] + Ended(c, ps[1..], e, ds, q)
  }

  /** A call that stops short of all delimiters to come does not matter by itself. */
  lemma {:induction false} EndedLater(c: Config, ps: seq<Source>, o: nat, ds: seq<seq<byte>>, q: nat)
    requires ds != [] && (ps != [] ==> q + |ds[0]| < DelimiterEnd(c.boundary, ps[0], o))
    ensures Ended(c, ps, o, ds, q) == Ended(c, ps, o, ds[1..], q + |ds[0]|)
    decreases |ps|
  {
    if ps != [] {
      EndedLater(c, ps[1..], DelimiterEnd(c.boundary, ps[0], o), ds, q);
    }
  }

  /** The call that reaches the end of the first delimiter finishes that part. */
  lemma EndedNow(c: Config, done: seq<Part>, ps: seq<Source>, o: nat, ds: seq<seq<byte>>, q: nat, w: Part)
    requires ds != [] && ps != [] && q + |ds[0]| >= DelimiterEnd(c.boundary, ps[0], o)
    requires w == Kept(c, ps[0], Ahead(c.boundary, q, ContentAt(ps[0], o)))
    ensures done + Ended(c, ps, o, ds, q) == (done + [w]) + Ended(c, ps[1..], DelimiterEnd(c.boundary, ps[0], o), ds, q)
  {
    assert Ended(c, ps, o, ds, q) == [w] + Ended(c, ps[1..], DelimiterEnd(c.boundary, ps[0], o), ds, q);
  }

  // ---------------------------------------------------------------- prefixes

  /** In a prefix the first occurrence is the same one, or there is none yet. */
  lemma PosPrefix(pat: seq<byte>, x: seq<byte>, buf: seq<byte>, f: seq<byte>)
    requires x == buf + f && Pos(pat, x) >= 0
    ensures Pos(pat, buf) == if Pos(pat, x) + |pat| <= |buf| then Pos(pat, x) else -1
  {
    var n := Pos(pat, x);
    PosIsFirst(pat, x);
    forall k: nat | k + |pat| <= |buf|
      ensures Occurs(pat, buf, k) <==> Occurs(pat, x, k)
    {
      OccursLonger(pat, buf, f, k);
    }
    if n + |pat| <= |buf| {
      PosIs(pat, buf, n);
    } else {
      PosIsNone(pat, buf);
    }
  }

  lemma AbsentPrefix(pat: seq<byte>, buf: seq<byte>, f: seq<byte>)
    requires Absent(pat, buf + f)
    ensures Pos(pat, buf) == -1
  {
    if Pos(pat, buf) >= 0 {
      PosLonger(pat, buf, f);
    }
  }

  lemma PrefixSplit(buf: seq<byte>, f: seq<byte>, x: seq<byte>, y: seq<byte>)
    requires buf + f == x + y && |buf| >= |x|
    ensures buf == x + buf[|x|..] && buf[|x|..] + f == y
  {
    assert (buf + f)[..|x|] == buf[..|x|] && (x + y)[..|x|] == x;
    assert (buf + f)[|x|..] == buf[|x|..] + f && (x + y)[|x|..] == y;
  }

  lemma PrefixBytes(buf: seq<byte>, f: seq<byte>, x: seq<byte>, y: seq<byte>, k: nat)
    requires buf + f == x + y && k <= |buf| && k <= |x|
    ensures buf[..k] == x[..k] && buf[k..] + f == x[k..] + y
  {
    assert (buf + f)[..k] == buf[..k] && (x + y)[..k] == x[..k];
    assert (buf + f)[k..] == buf[k..] + f && (x + y)[k..] == x[k..] + y;
  }

  // ---------------------------------------------------------------- between two calls

  /** The open part of a source of which `h` bytes have been handed over. */
  ghost predicate Opened(c: Config, w: Part, p: Source, h: nat) {
    w.name == Whole(c, p).name && w.kind == Whole(c, p).kind && h <= |p.content| && w.handed == p.content[..h]
    && (h == 0 ==> w.stored == []) && (w.kind.File? ==> w.stored == w.handed)
  }

  /** What follows the first `h` bytes of a source's content. */
  function Behind(b: seq<byte>, ps: seq<Source>, tail: seq<byte>): seq<byte>
    requires ps != []
  {
    CRLF + (b + Rest(b, ps[1..], tail))
  }

  /** Waiting for the blank line of the next source, or for nothing any more; `f` is still to come. */
  ghost predicate InHeaders(c: Config, st: State, done: seq<Part>, ps: seq<Source>, o: nat, q: nat, tail: seq<byte>,
                            f: seq<byte>) {
    st.status == Headers && st.parts == done && st.buf + f == Rest(c.boundary, ps, tail) && q == o + |st.buf|
  }

  /** Inside the content of the first source. */
  ghost predicate InContent(c: Config, st: State, done: seq<Part>, ps: seq<Source>, o: nat, h: nat, q: nat,
                            tail: seq<byte>, f: seq<byte>) {
    ps != [] && st.status == Content && |st.parts| == |done| + 1 && st.parts[..|done|] == done
    && Opened(c, st.parts[|done|], ps[0], h) && st.buf + f == ps[0].content[h..] + Behind(c.boundary, ps, tail)
    && q == ContentAt(ps[0], o) + h + |st.buf|
  }

  /** The state between two calls when `q` bytes have arrived. */
  ghost predicate Between(c: Config, st: State, done: seq<Part>, ps: seq<Source>, o: nat, q: nat, tail: seq<byte>,
                          f: seq<byte>) {
    (InHeaders(c, st, done, ps, o, q, tail, f) && (ps != [] ==> q < ContentAt(ps[0], o)))
    || (ps != [] && q < DelimiterEnd(c.boundary, ps[0], o)
        && InContent(c, st, done, ps, o, Ahead(c.boundary, q, ContentAt(ps[0], o)), q, tail, f))
  }

  /** The layout, for a body that ends where no blank line can follow. */
  predicate Fits(c: Config, ps: seq<Source>, tail: seq<byte>) {
    PlainDelimiter(c.boundary) && GoodSources(c, ps) && Absent(BLANK, tail)
  }

  // ---------------------------------------------------------------- rounds on a part of the body

  /** The blank line is not complete yet. */
  lemma HeadersWait(c: Config, st: State, done: seq<Part>, ps: seq<Source>, o: nat, q: nat, tail: seq<byte>,
                    f: seq<byte>)
    requires Fits(c, ps, tail) && InHeaders(c, st, done, ps, o, q, tail, f) && (ps != [] ==> q < ContentAt(ps[0], o))
    ensures Run(c, st) == (st, Wait)
  {
    if ps == [] {
      AbsentPrefix(BLANK, st.buf, f);
    } else {
      BlankFound(CRLF + ps[0].headers, ps[0].content + Behind(c.boundary, ps, tail));
      PosPrefix(BLANK, Rest(c.boundary, ps, tail), st.buf, f);
    }
  }

  /** The blank line is there: the part is opened. */
  lemma HeadersGo(c: Config, st: State, done: seq<Part>, ps: seq<Source>, o: nat, q: nat, tail: seq<byte>, f: seq<byte>)
    returns (next: State)
    requires Fits(c, ps, tail) && InHeaders(c, st, done, ps, o, q, tail, f) && ps != [] && q >= ContentAt(ps[0], o)
    ensures Step(c, st) == (next, Repeat) && InContent(c, next, done, ps, o, 0, q, tail, f)
  {
    var h := CRLF + ps[0].headers;
    var more := ps[0].content + Behind(c.boundary, ps, tail);
    PrefixSplit(st.buf, f, h, BLANK + more);
    PrefixSplit(st.buf[|h|..], f, BLANK, more);
    var rest := st.buf[|h|..][4..];
    assert st.buf == h + (BLANK + rest);
    HeadersRead(c, ps[0], done, rest);
    var w := Whole(c, ps[0]);
    next := State(rest, Content, done + [Part(w.name, w.kind, [], [])]);
    assert ps[0].content[0..] == ps[0].content;
  }

  /** The delimiter is where the content ends. */
  lemma DelimiterPlace(c: Config, p: Source, h: nat, rest: seq<byte>)
    requires PlainDelimiter(c.boundary) && Absent(c.boundary, p.content) && h <= |p.content|
    ensures Pos(c.boundary, p.content[h..] + (CRLF + (c.boundary + rest))) == |p.content| - h + 2
  {
    PosDropped(c.boundary, p.content, h);
    DelimiterFound(c.boundary, p.content[h..], rest);
  }

  lemma NotYet(c: Config, p: Source, h: nat, rest: seq<byte>, buf: seq<byte>, f: seq<byte>)
    requires PlainDelimiter(c.boundary) && Absent(c.boundary, p.content) && h <= |p.content|
    requires buf + f == p.content[h..] + (CRLF + (c.boundary + rest)) && |buf| < |p.content| - h + 2 + |c.boundary|
    ensures Pos(c.boundary, buf) == -1
  {
    DelimiterPlace(c, p, h, rest);
    PosPrefix(c.boundary, buf + f, buf, f);
  }

  /** The delimiter is not complete yet: what is certain is handed over. */
  lemma ContentWait(c: Config, st: State, done: seq<Part>, ps: seq<Source>, o: nat, h: nat, q: nat, tail: seq<byte>,
                    f: seq<byte>)
    requires Fits(c, ps, tail) && InContent(c, st, done, ps, o, h, q, tail, f) && q < DelimiterEnd(c.boundary, ps[0], o)
    requires h > 0 ==> |st.buf| >= |c.boundary| + 2
    ensures Run(c, st).1 == Wait
            && InContent(c, Run(c, st).0, done, ps, o, Ahead(c.boundary, q, ContentAt(ps[0], o)), q, tail, f)
  {
    NotYetIn(c, st, done, ps, o, h, q, tail, f);
    WaitSends(c, st);
    SentAhead(c, st, Run(c, st).0, done, ps, o, h, Ahead(c.boundary, q, ContentAt(ps[0], o)), q, tail, f);
  }

  /** What is handed over moves the place in the content forward. */
  lemma SentAhead(c: Config, st: State, r: State, done: seq<Part>, ps: seq<Source>, o: nat, h: nat, h': nat, q: nat,
                  tail: seq<byte>, f: seq<byte>)
    requires InContent(c, st, done, ps, o, h, q, tail, f) && q < DelimiterEnd(c.boundary, ps[0], o)
    requires h > 0 ==> |st.buf| >= |c.boundary| + 2
    requires h' == Ahead(c.boundary, q, ContentAt(ps[0], o))
    requires r == if |st.buf| > |c.boundary| + 2 then Handed(st, |st.buf| - (|c.boundary| + 2)) else st
    ensures InContent(c, r, done, ps, o, h', q, tail, f)
  {
    AheadBy(c.boundary, q, ContentAt(ps[0], o), h, |st.buf|);
    if |st.buf| > |c.boundary| + 2 {
      ContentAhead(c, st, done, ps, o, h, |st.buf| - (|c.boundary| + 2), q, tail, f);
    }
  }

  lemma AheadBy(b: seq<byte>, q: nat, s: nat, h: nat, n: nat)
    requires q == s + h + n && (h > 0 ==> n >= |b| + 2)
    ensures Ahead(b, q, s) == if n > |b| + 2 then h + (n - (|b| + 2)) else h
  {
  }

  lemma NotYetIn(c: Config, st: State, done: seq<Part>, ps: seq<Source>, o: nat, h: nat, q: nat, tail: seq<byte>,
                 f: seq<byte>)
    requires Fits(c, ps, tail) && InContent(c, st, done, ps, o, h, q, tail, f) && q < DelimiterEnd(c.boundary, ps[0], o)
    ensures Ok(st) && Pos(c.boundary, st.buf) == -1
  {
    NotYet(c, ps[0], h, Rest(c.boundary, ps[1..], tail), st.buf, f);
  }

  lemma WaitSends(c: Config, st: State)
    requires Ok(st) && |c.boundary| > 0 && st.status == Content && Pos(c.boundary, st.buf) == -1
    ensures Run(c, st) == (if |st.buf| > |c.boundary| + 2 then Handed(st, |st.buf| - (|c.boundary| + 2)) else st, Wait)
  {
  }

  lemma ContentAhead(c: Config, st: State, done: seq<Part>, ps: seq<Source>, o: nat, h: nat, k: nat, q: nat,
                     tail: seq<byte>, f: seq<byte>)
    requires InContent(c, st, done, ps, o, h, q, tail, f) && 0 < k <= |st.buf| && h + k <= |ps[0].content|
    ensures InContent(c, Handed(st, k), done, ps, o, h + k, q, tail, f)
  {
    var x := ps[0].content[h..];
    PrefixBytes(st.buf, f, x, Behind(c.boundary, ps, tail), k);
    MoreHanded(c, st.parts[|done|], ps[0], h, k, st.buf[..k]);
    assert Deliver(st.parts, st.buf[..k]) == done + [Accept(st.parts[|done|], st.buf[..k])];
    assert x[k..] == ps[0].content[h + k..];
  }

  lemma MoreHanded(c: Config, w: Part, p: Source, h: nat, k: nat, data: seq<byte>)
    requires Opened(c, w, p, h) && 0 < k && h + k <= |p.content| && data == p.content[h..][..k]
    ensures Opened(c, Accept(w, data), p, h + k)
  {
    assert p.content[..h] + p.content[h..][..k] == p.content[..h + k];
  }

  /** The delimiter is there: the part is finished. */
  lemma ContentGo(c: Config, st: State, done: seq<Part>, ps: seq<Source>, o: nat, h: nat, q: nat, tail: seq<byte>,
                  f: seq<byte>)
    returns (next: State)
    requires Fits(c, ps, tail) && InContent(c, st, done, ps, o, h, q, tail, f)
             && q >= DelimiterEnd(c.boundary, ps[0], o)
    requires h < |ps[0].content| || h == 0
    ensures InHeaders(c, next, done + [Kept(c, ps[0], h)], ps[1..], DelimiterEnd(c.boundary, ps[0], o), q, tail, f)
    ensures Run(c, st) == Run(c, next)
  {
    var x, w := ps[0].content[h..], Kept(c, ps[0], h);
    var left := DelimiterIn(c, ps[0], h, Rest(c.boundary, ps[1..], tail), st.buf, f);
    LastPiece(c, st, done, ps[0], h, x);
    PartEnds(c, st, x, left, done + [w]);
    next := State(left, Headers, done + [w]);
  }

  /** What the buffer holds once the delimiter is complete. */
  lemma DelimiterIn(c: Config, p: Source, h: nat, rest: seq<byte>, buf: seq<byte>, f: seq<byte>)
    returns (left: seq<byte>)
    requires PlainDelimiter(c.boundary) && Absent(c.boundary, p.content) && h <= |p.content|
    requires buf + f == p.content[h..] + (CRLF + (c.boundary + rest)) && |buf| >= |p.content| - h + 2 + |c.boundary|
    ensures buf == p.content[h..] + (CRLF + (c.boundary + left)) && left + f == rest
    ensures Pos(c.boundary, buf) == |p.content| - h + 2
  {
    var b, x := c.boundary, p.content[h..];
    var n := |x|;
    DelimiterPlace(c, p, h, rest);
    PosPrefix(b, buf + f, buf, f);
    PrefixSplit(buf, f, x, CRLF + (b + rest));
    PrefixSplit(buf[n..], f, CRLF, b + rest);
    PrefixSplit(buf[n..][2..], f, b, rest);
    left := buf[n..][2..][|b|..];
  }

  /** The content's last piece, then the delimiter. */
  lemma PartEnds(c: Config, st: State, x: seq<byte>, left: seq<byte>, parts: seq<Part>)
    requires PlainDelimiter(c.boundary) && Ok(st) && st.status == Content
    requires st.buf == x + (CRLF + (c.boundary + left)) && Pos(c.boundary, st.buf) == |x| + 2
    requires parts == if |x| > 0 then Deliver(st.parts, x) else st.parts
    ensures Run(c, st) == Run(c, State(left, Headers, parts))
  {
    var b := c.boundary;
    var mid := State(CRLF + (b + left), Looking, parts);
    assert st.buf[..|x|] == x && st.buf[|x|..] == CRLF + (b + left);
    assert Step(c, st) == (mid, Repeat);
    DelimiterFound(b, [], left);
    assert [] + (CRLF + (b + left)) == CRLF + (b + left);
    DelimiterRead(c, CRLF, parts, left);
    assert Run(c, st) == Run(c, mid);
  }

  /** The last piece of a part, or none if the content is empty. */
  lemma LastPiece(c: Config, st: State, done: seq<Part>, p: Source, h: nat, x: seq<byte>)
    requires st.status == Content && |st.parts| == |done| + 1 && st.parts[..|done|] == done
             && Opened(c, st.parts[|done|], p, h)
    requires x == p.content[h..] && (|x| > 0 || h == 0) && GoodSource(c, p)
    ensures (if |x| > 0 then Deliver(st.parts, x) else st.parts) == done + [Kept(c, p, h)]
  {
    var w := st.parts[|done|];
    assert p.content[..h] + x == p.content;
    assert st.parts == done + [w];
  }

  // ---------------------------------------------------------------- one call

  /** Going on from inside the headers until the call's bytes are used up. */
  lemma {:induction false} HeadersOn(c: Config, st: State, done: seq<Part>, ps: seq<Source>, o: nat,
                                      ds: seq<seq<byte>>, q: nat, tail: seq<byte>, f: seq<byte>)
    returns (done': seq<Part>, ps': seq<Source>, o': nat)
    requires Fits(c, ps, tail) && ds != [] && InHeaders(c, st, done, ps, o, q + |ds[0]|, tail, f)
    requires ps != [] ==> q < ContentAt(ps[0], o)
    ensures Fits(c, ps', tail) && Run(c, st).1 == Wait && Between(c, Run(c, st).0, done', ps', o', q + |ds[0]|, tail, f)
    ensures done' + Ended(c, ps', o', ds[1..], q + |ds[0]|) == done + Ended(c, ps, o, ds, q)
    decreases |ps|, 1
  {
    var now := q + |ds[0]|;
    if ps != [] && now >= ContentAt(ps[0], o) {
      var next := HeadersGo(c, st, done, ps, o, now, tail, f);
      done', ps', o' := ContentOn(c, next, done, ps, o, 0, ds, q, tail, f);
    } else {
      HeadersWait(c, st, done, ps, o, now, tail, f);
      EndedLater(c, ps, o, ds, q);
      done', ps', o' := done, ps, o;
    }
  }

  /** Going on from inside a content. */
  lemma {:induction false} ContentOn(c: Config, st: State, done: seq<Part>, ps: seq<Source>, o: nat,
                                      h: nat, ds: seq<seq<byte>>, q: nat, tail: seq<byte>, f: seq<byte>)
    returns (done': seq<Part>, ps': seq<Source>, o': nat)
    requires Fits(c, ps, tail) && ds != [] && InContent(c, st, done, ps, o, h, q + |ds[0]|, tail, f)
    requires q < DelimiterEnd(c.boundary, ps[0], o) && h == Ahead(c.boundary, q, ContentAt(ps[0], o))
    ensures Fits(c, ps', tail) && Run(c, st).1 == Wait && Between(c, Run(c, st).0, done', ps', o', q + |ds[0]|, tail, f)
    ensures done' + Ended(c, ps', o', ds[1..], q + |ds[0]|) == done + Ended(c, ps, o, ds, q)
    decreases |ps|, 0
  {
    var now, e := q + |ds[0]|, DelimiterEnd(c.boundary, ps[0], o);
    if now >= e {
      var next := ContentGo(c, st, done, ps, o, h, now, tail, f);
      var w := Kept(c, ps[0], h);
      EndedNow(c, done, ps, o, ds, q, w);
      done', ps', o' := HeadersOn(c, next, done + [w], ps[1..], e, ds, q, tail, f);
    } else {
      ContentWait(c, st, done, ps, o, h, now, tail, f);
      EndedLater(c, ps, o, ds, q);
      done', ps', o' := done, ps, o;
    }
  }

  /** One call, from between two calls to between two calls. */
  lemma CallOn(c: Config, st: State, done: seq<Part>, ps: seq<Source>, o: nat, ds: seq<seq<byte>>, q: nat,
               tail: seq<byte>)
    returns (done': seq<Part>, ps': seq<Source>, o': nat)
    requires Fits(c, ps, tail) && ds != [] && Between(c, st, done, ps, o, q, tail, Join(ds))
    ensures var r := Run(c, Arrive(st, ds[0]));
            Fits(c, ps', tail) && r.1 == Wait && Between(c, r.0, done', ps', o', q + |ds[0]|, tail, Join(ds[1..]))
    ensures done' + Ended(c, ps', o', ds[1..], q + |ds[0]|) == done + Ended(c, ps, o, ds, q)
  {
    var more := Arrive(st, ds[0]);
    assert st.buf + Join(ds) == more.buf + Join(ds[1..]);
    if st.status == Headers {
      done', ps', o' := HeadersOn(c, more, done, ps, o, ds, q, tail, Join(ds[1..]));
    } else {
      var h := Ahead(c.boundary, q, ContentAt(ps[0], o));
      done', ps', o' := ContentOn(c, more, done, ps, o, h, ds, q, tail, Join(ds[1..]));
    }
  }

  // ---------------------------------------------------------------- all calls

  lemma {:induction false} FeedOn(c: Config, st: State, done: seq<Part>, ps: seq<Source>, o: nat,
                                   ds: seq<seq<byte>>, q: nat, tail: seq<byte>, want: seq<Part>)
    requires Fits(c, ps, tail) && Between(c, st, done, ps, o, q, tail, Join(ds))
             && want == done + Ended(c, ps, o, ds, q)
    ensures Ok(st) && Feed(c, st, ds) == (State(tail, Headers, want), Wait)
    decreases |ds|
  {
    if ds == [] {
      AllArrived(c, st, done, ps, o, q, tail);
    } else {
      var done', ps', o' := CallOn(c, st, done, ps, o, ds, q, tail);
      FeedOn(c, Run(c, Arrive(st, ds[0])).0, done', ps', o', ds[1..], q + |ds[0]|, tail, want);
    }
  }

  /** When nothing is still to come, all parts are finished. */
  lemma AllArrived(c: Config, st: State, done: seq<Part>, ps: seq<Source>, o: nat, q: nat, tail: seq<byte>)
    requires Fits(c, ps, tail) && Between(c, st, done, ps, o, q, tail, [])
    ensures ps == [] && st == State(tail, Headers, done) && done + Ended(c, ps, o, [], q) == done
  {
    assert st.buf + [] == st.buf;
  }

  lemma FeedFirst(c: Config, st: State, ds: seq<seq<byte>>)
    requires Ok(st) && |c.boundary| > 0 && ds != [] && Run(c, Arrive(st, ds[0])).1 == Wait
    ensures Feed(c, st, ds) == Feed(c, Run(c, Arrive(st, ds[0])).0, ds[1..])
  {
  }

  /** Before the first delimiter is complete, nothing happens. */
  lemma PreambleWait(c: Config, buf: seq<byte>, d: seq<byte>)
    requires |c.boundary| > 0 && Pos(c.boundary, buf + d) == -1
    ensures Run(c, Arrive(State(buf, Looking, []), d)) == (State(buf + d, Looking, []), Wait)
  {
  }

  /** The first delimiter is there. */
  lemma PreambleFound(c: Config, preamble: seq<byte>, buf: seq<byte>, d: seq<byte>, left: seq<byte>)
    requires |c.boundary| > 0 && buf + d == preamble + (c.boundary + left) && Pos(c.boundary, buf + d) == |preamble|
    ensures Run(c, Arrive(State(buf, Looking, []), d)) == Run(c, State(left, Headers, []))
  {
    DelimiterRead(c, preamble, [], left);
  }

  /** Where the first delimiter is found in what has arrived. */
  lemma PreamblePlace(c: Config, preamble: seq<byte>, more: seq<byte>, f: seq<byte>, ps: seq<Source>, tail: seq<byte>)
    requires Pos(c.boundary, preamble + c.boundary) == |preamble| && more + f == Body(c.boundary, preamble, ps, tail)
    ensures Pos(c.boundary, more) == if |preamble| + |c.boundary| <= |more| then |preamble| else -1
    ensures |preamble| + |c.boundary| <= |more| ==>
              var left := more[|preamble| + |c.boundary|..];
              more == preamble + (c.boundary + left) && left + f == Rest(c.boundary, ps, tail)
  {
    var b, rest := c.boundary, Rest(c.boundary, ps, tail);
    assert Body(b, preamble, ps, tail) == (preamble + b) + rest;
    PosLonger(b, preamble + b, rest);
    PosPrefix(b, Body(b, preamble, ps, tail), more, f);
    if |preamble| + |b| <= |more| {
      PrefixSplit(more, f, preamble + b, rest);
      var left := more[|preamble + b|..];
      assert (preamble + b) + left == preamble + (b + left);
    }
  }

  lemma {:induction false} PreambleOn(c: Config, preamble: seq<byte>, buf: seq<byte>, ps: seq<Source>, tail: seq<byte>,
                                      ds: seq<seq<byte>>, o: nat)
    requires Fits(c, ps, tail) && Pos(c.boundary, preamble + c.boundary) == |preamble| && o == |preamble| + |c.boundary|
    requires buf + Join(ds) == Body(c.boundary, preamble, ps, tail) && |buf| < o
    ensures Feed(c, State(buf, Looking, []), ds) == (State(tail, Headers, Ended(c, ps, o, ds, |buf|)), Wait)
    decreases |ds|
  {
    if ds != [] {
      var more := buf + ds[0];
      assert buf + Join(ds) == more + Join(ds[1..]);
      PreamblePlace(c, preamble, more, Join(ds[1..]), ps, tail);
      if |more| < o {
        PreambleOn(c, preamble, more, ps, tail, ds[1..], o);
        PreambleStays(c, buf, more, ps, ds, o);
      } else {
        PreambleGo(c, preamble, buf, more[o..], ps, tail, ds, o);
      }
    }
  }

  lemma PreambleStays(c: Config, buf: seq<byte>, more: seq<byte>, ps: seq<Source>, ds: seq<seq<byte>>, o: nat)
    requires |c.boundary| > 0 && ds != [] && more == buf + ds[0] && |more| < o && Pos(c.boundary, more) == -1
    ensures Feed(c, State(buf, Looking, []), ds) == Feed(c, State(more, Looking, []), ds[1..])
    ensures Ended(c, ps, o, ds, |buf|) == Ended(c, ps, o, ds[1..], |more|)
  {
    PreambleWait(c, buf, ds[0]);
    FeedFirst(c, State(buf, Looking, []), ds);
    EndedLater(c, ps, o, ds, |buf|);
  }

  lemma PreambleGo(c: Config, preamble: seq<byte>, buf: seq<byte>, left: seq<byte>, ps: seq<Source>, tail: seq<byte>,
                   ds: seq<seq<byte>>, o: nat)
    requires Fits(c, ps, tail) && ds != [] && |buf| < o && |buf| + |ds[0]| == o + |left|
    requires left + Join(ds[1..]) == Rest(c.boundary, ps, tail)
    requires buf + ds[0] == preamble + (c.boundary + left) && Pos(c.boundary, buf + ds[0]) == |preamble|
    ensures Feed(c, State(buf, Looking, []), ds) == (State(tail, Headers, Ended(c, ps, o, ds, |buf|)), Wait)
  {
    var less := [left] + ds[1..];
    FirstCall(left, ds[1..], less);
    PreambleFound(c, preamble, buf, ds[0], left);
    EndedFrom(c, ps, o, ds, less, |buf|, o);
    HeadersFed(c, ps, o, less, tail, Ended(c, ps, o, less, o));
    FeedAlike(c, State(buf, Looking, []), State([], Headers, []), ds, less);
  }

  lemma FirstCall(d: seq<byte>, more: seq<seq<byte>>, ds: seq<seq<byte>>)
    requires ds == [d] + more
    ensures ds[1..] == more && Join(ds) == d + Join(more) && [] + d == d
  {
  }

  /** Everything behind the first delimiter. */
  lemma HeadersFed(c: Config, ps: seq<Source>, o: nat, ds: seq<seq<byte>>, tail: seq<byte>, want: seq<Part>)
    requires Fits(c, ps, tail) && Join(ds) == Rest(c.boundary, ps, tail) && want == Ended(c, ps, o, ds, o)
    ensures Feed(c, State([], Headers, []), ds) == (State(tail, Headers, want), Wait)
  {
    NoneBefore(want);
    FeedOn(c, State([], Headers, []), [], ps, o, ds, o, tail, want);
  }

  lemma FeedAlike(c: Config, s: State, t: State, ds: seq<seq<byte>>, es: seq<seq<byte>>)
    requires Ok(s) && Ok(t) && |c.boundary| > 0 && ds != [] && es != [] && ds[1..] == es[1..]
    requires Run(c, Arrive(s, ds[0])) == Run(c, Arrive(t, es[0]))
    ensures Feed(c, s, ds) == Feed(c, t, es)
  {
  }

  /** Before the first delimiter ends nothing was handed over, so its call may as well begin behind it. */
  lemma {:induction false} EndedFrom(c: Config, ps: seq<Source>, at: nat, ds: seq<seq<byte>>, less: seq<seq<byte>>,
                                     q: nat, o: nat)
    requires ds != [] && less != [] && less[1..] == ds[1..] && q < o <= at && q + |ds[0]| == o + |less[0]|
    ensures Ended(c, ps, at, less, o) == Ended(c, ps, at, ds, q)
    decreases |ps|
  {
    if ps != [] {
      EndedFrom(c, ps[1..], DelimiterEnd(c.boundary, ps[0], at), ds, less, q, o);
    }
  }

  lemma NoneBefore(parts: seq<Part>)
    ensures [] + parts == parts
  {
  }

  /** A body that ends with the last delimiter, in any number of calls. */
  lemma CutBefore(c: Config, preamble: seq<byte>, ps: seq<Source>, ds: seq<seq<byte>>, o: nat)
    requires PlainDelimiter(c.boundary) && GoodSources(c, ps) && Pos(c.boundary, preamble + c.boundary) == |preamble|
    requires Join(ds) == Body(c.boundary, preamble, ps, []) && o == |preamble| + |c.boundary|
    ensures Feed(c, State([], Looking, []), ds) == (State([], Headers, Ended(c, ps, o, ds, 0)), Wait)
  {
    assert [] + Join(ds) == Join(ds);
    PosIsNone(BLANK, []);
    PreambleOn(c, preamble, [], ps, [], ds, o);
  }

  // ---------------------------------------------------------------- the call in which the last delimiter ends

  /** The first `n` bytes of the calls. */
  function Upto(ds: seq<seq<byte>>, n: nat): seq<seq<byte>> {
    if ds == [] then [] else if |ds[0]| >= n then [ds[0][..n]] else [ds[0]] + Upto(ds[1..], n - |ds[0]|)
  }

  /** The calls behind the first `n` bytes, beginning with the rest of the one in which they end. */
  function Past(ds: seq<seq<byte>>, n: nat): seq<seq<byte>> {
    if ds == [] then [] else if |ds[0]| >= n then [ds[0][n..]] + ds[1..] else Past(ds[1..], n - |ds[0]|)
  }

  lemma {:induction false} JoinSplit(ds: seq<seq<byte>>, n: nat)
    requires n <= |Join(ds)|
    ensures Join(Upto(ds, n)) == Join(ds)[..n] && Join(Past(ds, n)) == Join(ds)[n..]
    decreases |ds|
  {
    if ds != [] {
      if |ds[0]| >= n {
        assert Join([ds[0][..n]]) == ds[0][..n] + [];
        assert ([ds[0][n..]] + ds[1..])[1..] == ds[1..];
      } else {
        JoinSplit(ds[1..], n - |ds[0]|);
        assert ([ds[0]] + Upto(ds[1..], n - |ds[0]|))[1..] == Upto(ds[1..], n - |ds[0]|);
      }
    }
  }

  lemma {:induction false} LastCutUpto(ds: seq<seq<byte>>, n: nat, q: nat, e: nat)
    requires e <= q + n
    ensures LastCut(Upto(ds, n), q, e) == LastCut(ds, q, e)
    decreases |ds|
  {
    if ds != [] && |ds[0]| < n {
      assert ([ds[0]] + Upto(ds[1..], n - |ds[0]|))[1..] == Upto(ds[1..], n - |ds[0]|);
      LastCutUpto(ds[1..], n - |ds[0]|, q + |ds[0]|, e);
    }
  }

  /** Where the last delimiter ends. */
  function LastEnd(b: seq<byte>, ps: seq<Source>, o: nat): (e: nat)
    ensures e >= o
  {
    if ps == [] then o else LastEnd(b, ps[1..], DelimiterEnd(b, ps[0], o))
  }

  /** What the parts hold depends on the calls up to there only. */
  lemma {:induction false} EndedUpto(c: Config, ps: seq<Source>, o: nat, ds: seq<seq<byte>>, n: nat)
    requires LastEnd(c.boundary, ps, o) <= n
    ensures Ended(c, ps, o, Upto(ds, n), 0) == Ended(c, ps, o, ds, 0)
    decreases |ps|
  {
    if ps != [] {
      var e := DelimiterEnd(c.boundary, ps[0], o);
      LastCutUpto(ds, n, 0, e);
      EndedUpto(c, ps[1..], e, ds, n);
    }
  }

  lemma {:induction false} RestEnds(b: seq<byte>, ps: seq<Source>, tail: seq<byte>, o: nat)
    ensures Rest(b, ps, tail) == Rest(b, ps, []) + tail && o + |Rest(b, ps, [])| == LastEnd(b, ps, o)
    decreases |ps|
  {
    if ps != [] {
      RestEnds(b, ps[1..], tail, DelimiterEnd(b, ps[0], o));
      Reassociated(CRLF + ps[0].headers, BLANK, ps[0].content, CRLF, b, Rest(b, ps[1..], []), tail);
    }
  }

  lemma Reassociated(u: seq<byte>, v: seq<byte>, w: seq<byte>, x: seq<byte>, y: seq<byte>, z: seq<byte>,
                     tail: seq<byte>)
    ensures u + (v + (w + (x + (y + (z + tail))))) == (u + (v + (w + (x + (y + z))))) + tail
  {
  }

  lemma BodyEnds(b: seq<byte>, preamble: seq<byte>, ps: seq<Source>, tail: seq<byte>, body: seq<byte>, n: nat)
    requires body == Body(b, preamble, ps, tail) && n == LastEnd(b, ps, |preamble| + |b|)
    ensures n <= |body| && body[..n] == Body(b, preamble, ps, []) && body[n..] == tail
  {
    RestEnds(b, ps, tail, |preamble| + |b|);
    assert body == Body(b, preamble, ps, []) + tail;
  }

  /** A run that does not wait inside a content has used up what it could: the rest can come in the same call. */
  lemma {:induction false} ResumeExactly(c: Config, st: State, d: seq<byte>)
    requires Ok(st) && |c.boundary| > 0 && Run(c, st).1 == Wait && Run(c, st).0.status != Content
    ensures Run(c, Arrive(st, d)) == Run(c, Arrive(Run(c, st).0, d))
    decreases |st.buf|, if st.status == Content then 1 else 0
  {
    if Step(c, st).1 == Repeat {
      StepEarly(c, st, d);
      ResumeExactly(c, Step(c, st).0, d);
    }
  }

  /** The call in which the first `n` bytes end, as two calls. */
  lemma CallSplit(c: Config, st: State, d: seq<byte>, n: nat, r: State)
    requires Ok(st) && |c.boundary| > 0 && n <= |d| && Run(c, Arrive(st, d[..n])) == (r, Wait) && r.status != Content
    ensures Run(c, Arrive(st, d)) == Run(c, Arrive(r, d[n..]))
  {
    ResumeExactly(c, Arrive(st, d[..n]), d[n..]);
    assert (st.buf + d[..n]) + d[n..] == st.buf + d;
  }

  lemma {:induction false} FeedSplit(c: Config, st: State, ds: seq<seq<byte>>, n: nat, r: State)
    requires Ok(st) && Ok(r) && |c.boundary| > 0 && ds != [] && n <= |Join(ds)|
    requires Feed(c, st, Upto(ds, n)) == (r, Wait) && r.status != Content
    ensures Feed(c, st, ds) == Feed(c, r, Past(ds, n))
    decreases |ds|
  {
    if |ds[0]| >= n {
      OneCall(c, st, ds[0][..n]);
      CallSplit(c, st, ds[0], n, r);
      assert ([ds[0][n..]] + ds[1..])[1..] == ds[1..];
    } else {
      var more := Upto(ds[1..], n - |ds[0]|);
      assert ([ds[0]] + more)[1..] == more;
      var s := Run(c, Arrive(st, ds[0])).0;
      assert Feed(c, s, more) == (r, Wait);
      FeedSplit(c, s, ds[1..], n - |ds[0]|, r);
    }
  }

  lemma OneCall(c: Config, st: State, d: seq<byte>)
    requires Ok(st) && |c.boundary| > 0
    ensures Feed(c, st, [d]) == Run(c, Arrive(st, d))
  {
    assert [d][1..] == [];
  }

  /**
   * A body laid out as in section 5.1.1 of RFC 2046, in any number of calls and whatever follows the last delimiter:
   * every part arrives, in order, and of a text part the field keeps what was handed over by the call that completed
   * its delimiter. Then the parser goes on with the bytes behind the last delimiter, in the calls in which they come.
   */
  lemma CutAnywhere(c: Config, preamble: seq<byte>, ps: seq<Source>, tail: seq<byte>, ds: seq<seq<byte>>, o: nat,
                    n: nat)
    requires PlainDelimiter(c.boundary) && GoodSources(c, ps) && Pos(c.boundary, preamble + c.boundary) == |preamble|
    requires Join(ds) == Body(c.boundary, preamble, ps, tail)
    requires o == |preamble| + |c.boundary| && n == LastEnd(c.boundary, ps, o)
    ensures n <= |Join(ds)| && Join(Past(ds, n)) == tail
    ensures Feed(c, State([], Looking, []), ds) == Feed(c, State([], Headers, Ended(c, ps, o, ds, 0)), Past(ds, n))
  {
    BodyEnds(c.boundary, preamble, ps, tail, Join(ds), n);
    JoinSplit(ds, n);
    CutBefore(c, preamble, ps, Upto(ds, n), o);
    EndedUpto(c, ps, o, ds, n);
    FeedSplit(c, State([], Looking, []), ds, n, State([], Headers, Ended(c, ps, o, ds, 0)));
  }

  /** However the body is cut, what is behind the last delimiter is read as in one piece, behind the same parts. */
  lemma TailInPieces(c: Config, preamble: seq<byte>, ps: seq<Source>, tail: seq<byte>, ds: seq<seq<byte>>, o: nat,
                     parts: seq<Part>, r: (State, Outcome))
    requires PlainDelimiter(c.boundary) && GoodSources(c, ps) && Pos(c.boundary, preamble + c.boundary) == |preamble|
    requires Join(ds) == Body(c.boundary, preamble, ps, tail)
    requires o == |preamble| + |c.boundary| && parts == Ended(c, ps, o, ds, 0)
    requires r == Feed(c, State([], Looking, []), ds)
    ensures |parts| == |ps| && TailRead(c, parts, tail, r)
  {
    var n := LastEnd(c.boundary, ps, o);
    CutAnywhere(c, preamble, ps, tail, ds, o, n);
    EndedSize(c, ps, o, ds, 0);
    TailFed(c, parts, tail, Past(ds, n));
  }

  lemma TailFed(c: Config, parts: seq<Part>, tail: seq<byte>, ds: seq<seq<byte>>)
    requires |c.boundary| > 0 && Join(ds) == tail
    ensures TailRead(c, parts, tail, Feed(c, State([], Headers, parts), ds))
  {
    var st, r := State([], Headers, parts), Feed(c, State([], Headers, parts), ds);
    FeedKeepsFront(c, st, ds, |parts|);
    assert parts[..|parts|] == parts && [] + tail == tail;
    if ds == [] {
      PosIsNone(BLANK, tail);
    } else {
      ChunkingIndependence(c, st, ds);
      TailIsRead(c, parts, tail);
      TailAgrees(c, parts, tail, r, Run(c, State(tail, Headers, parts)));
    }
  }

  lemma TailAgrees(c: Config, parts: seq<Part>, tail: seq<byte>, r: (State, Outcome), want: (State, Outcome))
    requires TailRead(c, parts, tail, want) && Agree(r, want) && |r.0.parts| >= |parts| && r.0.parts[..|parts|] == parts
    ensures TailRead(c, parts, tail, r)
  {
    assert |r.0.parts| == |parts| ==> r.0.parts[..|parts|] == r.0.parts;
  }

  // ---------------------------------------------------------------- which text fields are right

  /** The delimiter does not start anywhere in the preamble, not even to end in the one behind it. */
  predicate FreeOf(b: seq<byte>, preamble: seq<byte>) {
    forall k :: 0 <= k < |preamble| ==> !Occurs(b, preamble + b, k)
  }

  lemma FirstBehind(b: seq<byte>, preamble: seq<byte>)
    ensures FreeOf(b, preamble) <==> Pos(b, preamble + b) == |preamble|
  {
    var s := preamble + b;
    assert s[|preamble|..] == b;
    PosIsFirst(b, s);
    if FreeOf(b, preamble) {
      PosIs(b, s, |preamble|);
    }
  }

  /** Where what is behind the delimiter in front of part `j` starts. */
  function OffsetOf(b: seq<byte>, ps: seq<Source>, o: nat, j: nat): nat
    requires j <= |ps|
  {
    if j == 0 then o else OffsetOf(b, ps[1..], DelimiterEnd(b, ps[0], o), j - 1)
  }

  /** Some call ends strictly between `lo` and `hi`. */
  predicate CutBetween(ds: seq<seq<byte>>, q: nat, lo: nat, hi: nat) {
    ds != [] && (lo < q + |ds[0]| < hi || CutBetween(ds[1..], q + |ds[0]|, lo, hi))
  }

  lemma {:induction false} CutBetweenMeans(ds: seq<seq<byte>>, q: nat, lo: nat, hi: nat)
    ensures CutBetween(ds, q, lo, hi) <==> exists i :: 0 < i <= |ds| && lo < q + |Join(ds[..i])| < hi
  {
    if ds != [] {
      var n := q + |ds[0]|;
      CutBetweenMeans(ds[1..], n, lo, hi);
      forall i | 0 < i <= |ds|
        ensures q + |Join(ds[..i])| == n + |Join(ds[1..][..i - 1])|
      {
        assert ds[..i][1..] == ds[1..][..i - 1];
      }
      if lo < n < hi {
        assert Join(ds[1..][..0]) == [];
        assert lo < q + |Join(ds[..1])| < hi;
      }
      if CutBetween(ds[1..], n, lo, hi) {
        var i :| 0 < i <= |ds[1..]| && lo < n + |Join(ds[1..][..i])| < hi;
        assert lo < q + |Join(ds[..i + 1])| < hi;
      }
      if i :| 0 < i <= |ds| && lo < q + |Join(ds[..i])| < hi {
        if i == 1 {
          assert Join(ds[1..][..0]) == [];
        } else {
          assert lo < n + |Join(ds[1..][..i - 1])| < hi;
        }
      }
    }
  }

  /** The last call end short of `hi` is beyond `lo` iff some call end is between them. */
  lemma {:induction false} LastCutBetween(ds: seq<seq<byte>>, q: nat, lo: nat, hi: nat)
    requires q <= lo
    ensures LastCut(ds, q, hi) > lo <==> CutBetween(ds, q, lo, hi)
    decreases |ds|
  {
    if ds != [] {
      var n := q + |ds[0]|;
      if n >= hi {
        NoCutBehind(ds[1..], n, lo, hi);
      } else if n > lo {
        assert LastCut(ds[1..], n, hi) >= n;
      } else {
        LastCutBetween(ds[1..], n, lo, hi);
      }
    }
  }

  lemma {:induction false} NoCutBehind(ds: seq<seq<byte>>, q: nat, lo: nat, hi: nat)
    requires q >= hi
    ensures !CutBetween(ds, q, lo, hi)
    decreases |ds|
  {
    if ds != [] {
      NoCutBehind(ds[1..], q + |ds[0]|, lo, hi);
    }
  }

  lemma {:induction false} EndedAt(c: Config, ps: seq<Source>, o: nat, ds: seq<seq<byte>>, q: nat, j: nat)
    requires j < |ps|
    ensures |Ended(c, ps, o, ds, q)| == |ps|
    ensures var p, at := ps[j], OffsetOf(c.boundary, ps, o, j);
            at >= o && Ended(c, ps, o, ds, q)[j]
            == Kept(c, p, Ahead(c.boundary, LastCut(ds, q, DelimiterEnd(c.boundary, p, at)), ContentAt(p, at)))
  {
    var e := DelimiterEnd(c.boundary, ps[0], o);
    EndedSize(c, ps, o, ds, q);
    if j > 0 {
      assert ps[1..][j - 1] == ps[j];
      EndedAt(c, ps[1..], e, ds, q, j - 1);
    }
  }

  lemma {:induction false} EndedSize(c: Config, ps: seq<Source>, o: nat, ds: seq<seq<byte>>, q: nat)
    ensures |Ended(c, ps, o, ds, q)| == |ps|
  {
    if ps != [] {
      EndedSize(c, ps[1..], DelimiterEnd(c.boundary, ps[0], o), ds, q);
    }
  }

  /**
   * The exact condition for a text field, for every body and every way of cutting it: part `j` is stored right iff no
   * call ends strictly between the place |boundary| + 2 bytes behind its blank line and the end of its delimiter.
   */
  lemma TextFieldRight(c: Config, preamble: seq<byte>, ps: seq<Source>, tail: seq<byte>, ds: seq<seq<byte>>, j: nat,
                       parts: seq<Part>, o: nat, at: nat)
    requires PlainDelimiter(c.boundary) && GoodSources(c, ps) && FreeOf(c.boundary, preamble)
    requires Join(ds) == Body(c.boundary, preamble, ps, tail) && j < |ps| && Whole(c, ps[j]).kind.Text?
    requires parts == Feed(c, State([], Looking, []), ds).0.parts
    requires o == |preamble| + |c.boundary| && at == OffsetOf(c.boundary, ps, o, j)
    ensures |ps| <= |parts| && IsRight(parts[j], c.boundary, ds, ps[j], at)
  {
    PartsAre(c, preamble, ps, tail, ds, parts, o);
    EndedRight(c, ps, o, ds, j, parts[..|ps|], at);
  }

  /** The field got every byte of the content, and stores it right iff no call ends where it does harm. */
  predicate IsRight(w: Part, b: seq<byte>, ds: seq<seq<byte>>, p: Source, at: nat) {
    && w.handed == p.content
    && (w.stored == p.content <==> !CutBetween(ds, 0, ContentAt(p, at) + |b| + 2, DelimiterEnd(b, p, at)))
  }

  lemma KeptIffCut(c: Config, ds: seq<seq<byte>>, p: Source, at: nat, w: Part)
    requires GoodSource(c, p) && Whole(c, p).kind.Text?
    requires w == Kept(c, p, Ahead(c.boundary, LastCut(ds, 0, DelimiterEnd(c.boundary, p, at)), ContentAt(p, at)))
    ensures IsRight(w, c.boundary, ds, p, at)
  {
    var b := c.boundary;
    EarlyIffCut(b, ds, p, at);
    KeptRight(c, p, Ahead(b, LastCut(ds, 0, DelimiterEnd(b, p, at)), ContentAt(p, at)));
  }

  lemma PartsAre(c: Config, preamble: seq<byte>, ps: seq<Source>, tail: seq<byte>, ds: seq<seq<byte>>,
                 parts: seq<Part>, o: nat)
    requires PlainDelimiter(c.boundary) && GoodSources(c, ps) && FreeOf(c.boundary, preamble)
    requires Join(ds) == Body(c.boundary, preamble, ps, tail) && o == |preamble| + |c.boundary|
    requires parts == Feed(c, State([], Looking, []), ds).0.parts
    ensures |ps| <= |parts| && parts[..|ps|] == Ended(c, ps, o, ds, 0)
  {
    FirstBehind(c.boundary, preamble);
    var want, n := Ended(c, ps, o, ds, 0), LastEnd(c.boundary, ps, o);
    CutAnywhere(c, preamble, ps, tail, ds, o, n);
    EndedSize(c, ps, o, ds, 0);
    FeedKeepsFront(c, State([], Headers, want), Past(ds, n), |ps|);
  }

  lemma EndedRight(c: Config, ps: seq<Source>, o: nat, ds: seq<seq<byte>>, j: nat, parts: seq<Part>, at: nat)
    requires GoodSources(c, ps) && j < |ps| && Whole(c, ps[j]).kind.Text?
    requires parts == Ended(c, ps, o, ds, 0) && at == OffsetOf(c.boundary, ps, o, j)
    ensures |parts| == |ps| && IsRight(parts[j], c.boundary, ds, ps[j], at)
  {
    EndedAt(c, ps, o, ds, 0, j);
    GoodAt(c, ps, j);
    KeptIffCut(c, ds, ps[j], at, parts[j]);
  }

  /** Something is handed over early iff some call ends between the two places. */
  lemma EarlyIffCut(b: seq<byte>, ds: seq<seq<byte>>, p: Source, at: nat)
    ensures var s, e := ContentAt(p, at), DelimiterEnd(b, p, at);
            var h := Ahead(b, LastCut(ds, 0, e), s);
            (h < |p.content| || h == 0) && (h > 0 <==> CutBetween(ds, 0, s + |b| + 2, e))
  {
    LastCutBetween(ds, 0, ContentAt(p, at) + |b| + 2, DelimiterEnd(b, p, at));
  }

  lemma {:induction false} GoodAt(c: Config, ps: seq<Source>, j: nat)
    requires GoodSources(c, ps) && j < |ps|
    ensures GoodSource(c, ps[j])
  {
    if j > 0 {
      GoodAt(c, ps[1..], j - 1);
    }
  }

  lemma KeptRight(c: Config, p: Source, h: nat)
    requires GoodSource(c, p) && Whole(c, p).kind.Text? && (h < |p.content| || h == 0)
    ensures Kept(c, p, h).handed == p.content && (Kept(c, p, h).stored == p.content <==> h == 0)
  {
    assert |p.content[h..]| == |p.content| - h;
    assert p.content[0..] == p.content;
  }

  // ---------------------------------------------------------------- one body that fails

  /** A reader of headers that finds a text field in every block. */
  function AnyText(headers: seq<byte>): Header {
    Named([110], Text)
  }

  /** Boundary "--B", one part with headers "H" and content "ab", and the close delimiter's "--". */
  lemma SmallBody(c: Config, p: Source, body: seq<byte>)
    requires c == Config([45, 45, 66], AnyText) && p == Source([72], [97, 98])
    requires body == [45, 45, 66, 13, 10, 72, 13, 10, 13, 10, 97, 98, 13, 10, 45, 45, 66, 45, 45]
    ensures body == Body(c.boundary, [], [p], [45, 45])
    ensures Fits(c, [p], [45, 45]) && Pos(c.boundary, [] + c.boundary) == 0
    ensures Whole(c, p) == Part([110], Text, [97, 98], [97, 98])
  {
    var b, ps, tail := c.boundary, [p], [45, 45];
    assert ps[1..] == [] && Rest(b, [], tail) == tail;
    assert Rest(b, ps, tail) == (CRLF + p.headers) + (BLANK + (p.content + (CRLF + (b + tail))));
    assert Body(b, [], ps, tail) == body;
    var block := CRLF + p.headers + CRLF;
    assert block == [13, 10, 72, 13, 10];
    assert block[0..4][2] == 72 && block[1..5][1] == 72;
    PosIsNone(BLANK, block);
    assert [] + b == b && b[0..3] == b;
    PosIs(b, b, 0);
    assert GoodSources(c, ps[1..]);
  }

  /** What the field of the small body holds after the calls `ds`. */
  lemma SmallBodyFed(c: Config, p: Source, body: seq<byte>, ds: seq<seq<byte>>)
    requires c == Config([45, 45, 66], AnyText) && p == Source([72], [97, 98]) && Join(ds) == body
    requires body == [45, 45, 66, 13, 10, 72, 13, 10, 13, 10, 97, 98, 13, 10, 45, 45, 66, 45, 45]
    ensures Feed(c, State([], Looking, []), ds).0.parts == [Kept(c, p, Ahead(c.boundary, LastCut(ds, 0, 17), 10))]
  {
    SmallBody(c, p, body);
    var r := Feed(c, State([], Looking, []), ds);
    TailInPieces(c, [], [p], [45, 45], ds, 3, Ended(c, [p], 3, ds, 0), r);
    PosIsNone(BLANK, [45, 45]);
    assert [p][1..] == [];
  }

  /** In one call the field holds "ab"; cut behind the second hyphen of the last delimiter, it holds "b". */
  lemma TextFieldLost(c: Config, p: Source, body: seq<byte>)
    requires c == Config([45, 45, 66], AnyText) && p == Source([72], [97, 98])
    requires body == [45, 45, 66, 13, 10, 72, 13, 10, 13, 10, 97, 98, 13, 10, 45, 45, 66, 45, 45]
    ensures Feed(c, State([], Looking, []), [body]).0.parts == [Part([110], Text, [97, 98], [97, 98])]
    ensures Feed(c, State([], Looking, []), [body[..16], body[16..]]).0.parts == [Part([110], Text, [97, 98], [98])]
  {
    var one: seq<seq<byte>>, two: seq<seq<byte>> := [body], [body[..16], body[16..]];
    SmallBody(c, p, body);
    assert one[1..] == [] && two[1..] == [body[16..]] && two[1..][1..] == [];
    assert Join(one) == body + [] == body;
    assert Join(two) == body[..16] + (body[16..] + []) == body;
    SmallBodyFed(c, p, body, one);
    SmallBodyFed(c, p, body, two);
    assert LastCut(one, 0, 17) == 0;
    assert LastCut(two[1..], 16, 17) == 16;
    assert p.content[0..] == [97, 98] && p.content[1..] == [98];
  }
}
