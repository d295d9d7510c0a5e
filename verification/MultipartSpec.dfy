/** The multipart parser as a function of its buffer, its status and the parts it has opened so far. */
module MultipartSpec {
  type byte = b: int | 0 <= b < 256

  const CRLF: seq<byte> := [13, 10]
  const BLANK: seq<byte> := [13, 10, 13, 10]

  datatype Kind = Text | File

  /** What one part's field was handed so far, all pieces together, and what it has stored of it. */
  datatype Part = Part(name: seq<byte>, kind: Kind, handed: seq<byte>, stored: seq<byte>)

  datatype Status = Looking | Headers | Content

  datatype State = State(buf: seq<byte>, status: Status, parts: seq<Part>)

  /** What the header block of a part says; a broken one is refused after the field of a file has been set up. */
  datatype Header = Named(name: seq<byte>, kind: Kind) | Broken(name: seq<byte>) | Bad

  /** What is fixed for a request: the delimiter ("--" included) and the reading of header blocks. */
  datatype Config = Config(boundary: seq<byte>, parse: seq<byte> -> Header)

  // ---------------------------------------------------------------- searching

  predicate Occurs(b: seq<byte>, buf: seq<byte>, i: nat) {
    i + |b| <= |buf| && buf[i..i + |b|] == b
  }

  /** First occurrence at or behind `i`, or -1. */
  function PosFrom(b: seq<byte>, buf: seq<byte>, i: nat): (r: int)
    ensures r == -1 || (r >= i && Occurs(b, buf, r))
    decreases |buf| - i
  {
    if i + |b| > |buf| then -1 else if Occurs(b, buf, i) then i else PosFrom(b, buf, i + 1)
  }

  function Pos(b: seq<byte>, buf: seq<byte>): (r: int)
    ensures r == -1 || (r >= 0 && Occurs(b, buf, r))
  {
    PosFrom(b, buf, 0)
  }

  /** It is the first one: there is none before it, and none at all when it is -1. */
  lemma {:induction false} PosFromIsFirst(b: seq<byte>, buf: seq<byte>, i: nat)
    ensures var r := PosFrom(b, buf, i); forall k :: i <= k && (r == -1 || k < r) ==> !Occurs(b, buf, k)
    decreases |buf| - i
  {
    if i + |b| <= |buf| && !Occurs(b, buf, i) {
      PosFromIsFirst(b, buf, i + 1);
    }
  }

  lemma PosIsFirst(b: seq<byte>, buf: seq<byte>)
    ensures var r := Pos(b, buf); forall k :: 0 <= k && (r == -1 || k < r) ==> !Occurs(b, buf, k)
  {
    PosFromIsFirst(b, buf, 0);
  }

  lemma PosIs(b: seq<byte>, buf: seq<byte>, n: nat)
    requires Occurs(b, buf, n) && forall k :: 0 <= k < n ==> !Occurs(b, buf, k)
    ensures Pos(b, buf) == n
  {
    PosIsFirst(b, buf);
  }

  lemma PosIsNone(b: seq<byte>, buf: seq<byte>)
    requires forall k :: 0 <= k && k + |b| <= |buf| ==> !Occurs(b, buf, k)
    ensures Pos(b, buf) == -1
  {
  }

  /** A C string made of the bytes: they end at the first NUL. */
  function CString(s: seq<byte>): seq<byte> {
    if s == [] || s[0] == 0 then [] else [s[0]] + CString(s[1..])
  }

  /** Up to the first NUL, or whole. */
  lemma {:induction false} CStringEnds(s: seq<byte>)
    ensures CString(s) <= s && (forall k :: 0 <= k < |CString(s)| ==> s[k] != 0)
    ensures |CString(s)| < |s| ==> s[|CString(s)|] == 0
  {
    if s != [] && s[0] != 0 {
      CStringEnds(s[1..]);
      assert s == [s[0]] + s[1..];
      assert forall k :: 0 < k < |CString(s)| ==> s[k] == s[1..][k - 1];
    }
  }

  // ---------------------------------------------------------------- one round of the state loop

  /** The field takes a piece; a text field keeps writing at offset 0. */
  function Accept(p: Part, data: seq<byte>): Part {
    p.(handed := p.handed + data, stored := if p.kind.File? then p.stored + data else data)
  }

  function Deliver(parts: seq<Part>, data: seq<byte>): seq<Part>
    requires parts != []
  {
    parts[..|parts| - 1] + [Accept(parts[|parts| - 1], data)]
  }

  datatype Outcome = Repeat | Wait | Throw

  /** How many bytes of the buffer belong to the part for certain. */
  function Certain(b: seq<byte>, buf: seq<byte>): int {
    if Pos(b, buf) >= 0 then Pos(b, buf) - 2 else |buf| - (|b| + 2)
  }

  predicate Ok(st: State) {
    st.status == Content ==> st.parts != []
  }

  /** Hand over what is certain. */
  function Sent(b: seq<byte>, st: State): (r: State)
    requires st.status == Content && Ok(st)
    ensures Ok(r) && r.status == Content && |r.buf| <= |st.buf|
  {
    var n := Certain(b, st.buf);
    if n > 0 then State(st.buf[n..], Content, Deliver(st.parts, st.buf[..n])) else st
  }

  function Step(c: Config, st: State): (r: (State, Outcome))
    requires Ok(st) && |c.boundary| > 0
    ensures Ok(r.0)
    ensures r.1 == Repeat
            ==> |r.0.buf| < |st.buf| || (|r.0.buf| == |st.buf| && st.status == Content && r.0.status == Looking)
  {
    match st.status
    case Looking =>
      var n := Pos(c.boundary, st.buf);
      if n >= 0 then (State(st.buf[n + |c.boundary|..], Headers, st.parts), Repeat) else (st, Wait)
    case Headers =>
      var n := Pos(BLANK, st.buf);
      if n < 0 then (st, Wait)
      else
        var h := c.parse(CString(st.buf[..n]));
        if h.Bad? then (st, Throw)
        else if h.Broken? then (st.(parts := st.parts + [Part(h.name, File, [], [])]), Throw)
        else (State(st.buf[n + 4..], Content, st.parts + [Part(h.name, h.kind, [], [])]), Repeat)
    case Content =>
      if Pos(c.boundary, st.buf) >= 0 then (Sent(c.boundary, st).(status := Looking), Repeat)
      else (Sent(c.boundary, st), Wait)
  }

  /** The state loop. */
  function Run(c: Config, st: State): (r: (State, Outcome))
    requires Ok(st) && |c.boundary| > 0
    ensures Ok(r.0) && r.1 != Repeat
    decreases |st.buf|, if st.status == Content then 1 else 0
  {
    var r := Step(c, st);
    if r.1 == Repeat then Run(c, r.0) else r
  }

  /** Bytes arrive behind the ones in the buffer. */
  function Arrive(st: State, d: seq<byte>): State {
    st.(buf := st.buf + d)
  }

  /** A body in any number of pieces, up to the first error. */
  function Feed(c: Config, st: State, ds: seq<seq<byte>>): (r: (State, Outcome))
    requires Ok(st) && |c.boundary| > 0
    ensures Ok(r.0) && r.1 != Repeat
    decreases |ds|
  {
    if ds == [] then (st, Wait)
    else
      var r := Run(c, Arrive(st, ds[0]));
      if r.1 == Throw then r else Feed(c, r.0, ds[1..])
  }

  /** One call: the bytes are appended before the limit is looked at. */
  function Call(c: Config, max: nat, st: State, d: seq<byte>): (r: (State, Outcome))
    requires Ok(st) && |c.boundary| > 0
    ensures Ok(r.0) && r.1 != Repeat
  {
    var more := Arrive(st, d);
    if |more.buf| > max then (more, Throw) else Run(c, more)
  }

  function Calls(c: Config, max: nat, st: State, ds: seq<seq<byte>>): (r: (State, Outcome))
    requires Ok(st) && |c.boundary| > 0
    ensures Ok(r.0) && r.1 != Repeat
    decreases |ds|
  {
    if ds == [] then (st, Wait)
    else
      var r := Call(c, max, st, ds[0]);
      if r.1 == Throw then r else Calls(c, max, r.0, ds[1..])
  }

  function Join(ds: seq<seq<byte>>): seq<byte> {
    if ds == [] then [] else ds[0] + Join(ds[1..])
  }

  // ---------------------------------------------------------------- what does not depend on the pieces

  predicate SamePart(p: Part, q: Part) {
    p.name == q.name && p.kind == q.kind && p.handed == q.handed
  }

  predicate SameParts(ps: seq<Part>, qs: seq<Part>) {
    |ps| == |qs| && forall k :: 0 <= k < |ps| ==> SamePart(ps[k], qs[k])
  }

  predicate Same(s: State, t: State) {
    s.buf == t.buf && s.status == t.status && SameParts(s.parts, t.parts)
  }
}
