/** Reading the body of a request: the loop over what arrives, and what the map of fields holds in the end. */
module MultipartPost {
  import opened MultipartSpec
  import opened MultipartProofs
  import opened MultipartParser

  lemma CallsFirst(c: Config, max: nat, st: State, ds: seq<seq<byte>>, i: nat, r: (State, Outcome))
    requires Ok(st) && |c.boundary| > 0 && i < |ds| && r == Call(c, max, st, ds[i])
    ensures Calls(c, max, st, ds[i..]) == if r.1 == Throw then r else Calls(c, max, r.0, ds[i + 1..])
  {
    assert ds[i..][1..] == ds[i + 1..];
  }

  /** The pieces go to the parser one after the other; the first refusal ends the request. */
  method ReadPost(c: Config, maxLength: nat, storage: Storage, ds: seq<seq<byte>>) returns (valid: bool, p: Parser)
    requires |c.boundary| > 0
    ensures fresh(p) && p.c == c && p.Valid()
    ensures (p.Now(), if valid then Wait else Throw) == Calls(c, maxLength, State([], Looking, []), ds)
  {
    p := new Parser(c, maxLength, storage);
    valid := true;
    var i := 0;
    ghost var want := Calls(c, maxLength, State([], Looking, []), ds);
    while i < |ds| && valid
      invariant 0 <= i <= |ds| && fresh(p) && fresh(p.fields.Values)
      invariant p.c == c && p.maxLength == maxLength && p.Valid() && Ok(p.Now())
      invariant valid ==> Calls(c, maxLength, p.Now(), ds[i..]) == want
      invariant !valid ==> (p.Now(), Throw) == want
    {
      ghost var st := p.Now();
      var answer := p.AcceptSomeData(ds[i]);
      valid := answer == Fine;
      CallsFirst(c, maxLength, st, ds, i, Call(c, maxLength, st, ds[i]));
      i := i + 1;
    }
  }

  /**
   * After a body, part `j` is found under its name, with its kind and all its bytes, iff no later part bears the name,
   * be it one of the body or one that was opened behind its last delimiter.
   */
  lemma FieldAfterBody(p: Parser, preamble: seq<byte>, ps: seq<Source>, tail: seq<byte>, ds: seq<seq<byte>>, j: nat,
                       w: Part)
    requires PlainDelimiter(p.c.boundary) && GoodSources(p.c, ps)
             && Pos(p.c.boundary, preamble + p.c.boundary) == |preamble|
    requires ds != [] && Join(ds) == Body(p.c.boundary, preamble, ps, tail) && |Join(ds)| <= p.maxLength
    requires p.Valid() && p.Now() == Calls(p.c, p.maxLength, State([], Looking, []), ds).0
    requires j < |ps| && w == Whole(p.c, ps[j])
    ensures |ps| <= |p.parts| && w.name in p.fields && HasName(p.parts, w.name)
    ensures LatestAt(p.parts, w.name) == j <==> forall k :: j < k < |p.parts| ==> p.parts[k].name != w.name
    ensures LatestAt(p.parts, w.name) == j ==> SamePart(p.fields[w.name].View(w.name), w)
  {
    var c := p.c;
    WithinLimit(c, p.maxLength, State([], Looking, []), ds);
    RoundTripInPieces(c, preamble, ps, tail, ds);
    WholeAt(c, ps, j);
    assert p.parts[..|ps|][j] == p.parts[j];
    assert SamePart(p.parts[j], w);
    FoundIffLast(p.parts, j);
  }

  lemma {:induction false} WholeAt(c: Config, ps: seq<Source>, j: nat)
    requires j < |ps|
    ensures |Wholes(c, ps)| == |ps| && Wholes(c, ps)[j] == Whole(c, ps[j])
  {
    WholesSize(c, ps);
    if j > 0 {
      WholeAt(c, ps[1..], j - 1);
    }
  }
}
