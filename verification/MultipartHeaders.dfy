/** Reading the header block of a part, and the blocks that a client writes for a form. */
module MultipartHeaders {
  import opened MultipartSpec
  import opened MultipartProofs

  const QUOTE: seq<byte> := [34]
  // Content-Disposition: form-data;
  const FORM_DATA: seq<byte> :=
    [67, 111, 110, 116, 101, 110, 116, 45, 68, 105, 115, 112, 111, 115, 105, 116, 105, 111, 110,
     58, 32, 102, 111, 114, 109, 45, 100, 97, 116, 97, 59]
  const NAME: seq<byte> := [110, 97, 109, 101, 61, 34]                              // name="
  const FILENAME: seq<byte> := [102, 105, 108, 101, 110, 97, 109, 101, 61, 34]      // filename="

  /** `_ParseHeaders` */
  function ReadHeaders(s: seq<byte>): Header {
    var n := Pos(NAME, s);
    if Pos(FORM_DATA, s) < 0 || n < 0 then Bad
    else
      var e := PosFrom(QUOTE, s, n + 6);
      if e < 0 then Bad
      else
        var name, f := s[n + 6..e], Pos(FILENAME, s);
        if f < 0 then Named(name, Text)
        else if PosFrom(QUOTE, s, f + 10) < 0 then Broken(name)
        else Named(name, File)
  }

  // ---------------------------------------------------------------- every block

  ghost predicate Contains(s: seq<byte>, b: seq<byte>) {
    exists k: nat :: Occurs(b, s, k)
  }

  /** The first occurrence of `b` is at `n`. */
  predicate FirstAt(b: seq<byte>, s: seq<byte>, n: nat) {
    Occurs(b, s, n) && forall k :: 0 <= k < n ==> !Occurs(b, s, k)
  }

  predicate QuoteFrom(s: seq<byte>, i: nat) {
    exists e :: i <= e < |s| && s[e] == 34
  }

  lemma PosIffFirst(b: seq<byte>, s: seq<byte>)
    ensures Pos(b, s) < 0 <==> !Contains(s, b)
    ensures Pos(b, s) >= 0 ==> FirstAt(b, s, Pos(b, s))
    ensures forall n: nat :: FirstAt(b, s, n) ==> Pos(b, s) == n
  {
    PosIsFirst(b, s);
    forall n: nat | FirstAt(b, s, n)
      ensures Pos(b, s) == n
    {
      PosIs(b, s, n);
    }
  }

  lemma QuoteIffFound(s: seq<byte>, i: nat)
    ensures PosFrom(QUOTE, s, i) >= 0 <==> QuoteFrom(s, i)
    ensures PosFrom(QUOTE, s, i) >= 0 ==> s[PosFrom(QUOTE, s, i)] == 34
  {
    var r := PosFrom(QUOTE, s, i);
    if r >= 0 {
      OccursByte(QUOTE, s, r, 0);
    }
    if e :| i <= e < |s| && s[e] == 34 {
      SomeQuoteBehind(s, i, e);
    }
  }

  /** A block is refused outright iff it is no form data, has no name, or the name has no end. */
  lemma BadIff(s: seq<byte>)
    ensures ReadHeaders(s) == Bad
            <==> !Contains(s, FORM_DATA) || !Contains(s, NAME)
                 || exists n: nat :: FirstAt(NAME, s, n) && !QuoteFrom(s, n + 6)
  {
    PosIffFirst(FORM_DATA, s);
    PosIffFirst(NAME, s);
    if Pos(NAME, s) >= 0 {
      QuoteIffFound(s, Pos(NAME, s) + 6);
    }
  }

  /**
   * Any other block names a field: what stands between the first name=" and the next quote. It is a text field iff
   * the block has no filename="; and it is broken iff the first of those is followed by no quote.
   */
  lemma BlockRead(s: seq<byte>, n: nat, e: nat)
    requires Contains(s, FORM_DATA) && FirstAt(NAME, s, n)
    requires n + 6 <= e < |s| && s[e] == 34 && forall k :: n + 6 <= k < e ==> s[k] != 34
    ensures !Contains(s, FILENAME) ==> ReadHeaders(s) == Named(s[n + 6..e], Text)
    ensures forall f: nat :: FirstAt(FILENAME, s, f) ==>
              ReadHeaders(s) == if QuoteFrom(s, f + 10) then Named(s[n + 6..e], File) else Broken(s[n + 6..e])
  {
    PosIffFirst(FORM_DATA, s);
    PosIffFirst(NAME, s);
    NextQuote(s, n + 6, e);
    PosIffFirst(FILENAME, s);
    if Pos(FILENAME, s) >= 0 {
      QuoteIffFound(s, Pos(FILENAME, s) + 10);
    }
  }

  // ---------------------------------------------------------------- the blocks of a form

  /** Content-Disposition: form-data; name="NAME" */
  function TextLine(name: seq<byte>): seq<byte> {
    FORM_DATA + ([32] + (NAME + (name + QUOTE)))
  }

  /** Content-Disposition: form-data; name="NAME"; filename="FILE" */
  function FileLine(name: seq<byte>, file: seq<byte>): seq<byte> {
    FORM_DATA + ([32] + (NAME + (name + ([34, 59, 32] + (FILENAME + (file + QUOTE))))))
  }

  /** A name that ends in filename= makes the quote behind it look like the start of a file name. */
  predicate LooksLikeFile(name: seq<byte>) {
    |name| >= 9 && name[|name| - 9..] == FILENAME[..9]
  }

  /** The part of the block before the name: its only quote is its last byte, and NAME ends there. */
  lemma Opening(s: seq<byte>, rest: seq<byte>)
    requires s == CRLF + (FORM_DATA + ([32] + (NAME + rest)))
    ensures Pos(FORM_DATA, s) >= 0 && Pos(NAME, s) == 34 && s[40..] == rest && s[39] == 34 && s[30] != 102
    ensures forall k :: 0 <= k < 39 ==> s[k] != 34
  {
    assert forall k :: 0 <= k < 31 ==> s[2 + k] == FORM_DATA[k];
    assert forall k :: 0 <= k < 6 ==> s[34 + k] == NAME[k];
    assert s[30] == FORM_DATA[28];
    OpeningQuotes(s);
    assert s[2..33] == FORM_DATA && s[34..40] == NAME;
    PosIsFirst(FORM_DATA, s);
    assert Occurs(FORM_DATA, s, 2) && Occurs(NAME, s, 34);
    forall k | 0 <= k < 34
      ensures !Occurs(NAME, s, k)
    {
      if Occurs(NAME, s, k) {
        OccursByte(NAME, s, k, 5);
      }
    }
    PosIs(NAME, s, 34);
  }

  lemma OpeningQuotes(s: seq<byte>)
    requires |s| >= 40 && s[..2] == CRLF && s[33] == 32
    requires forall k :: 0 <= k < 31 ==> s[2 + k] == FORM_DATA[k]
    requires forall k :: 0 <= k < 6 ==> s[34 + k] == NAME[k]
    ensures forall k :: 0 <= k < 39 ==> s[k] != 34
  {
    NoQuote();
    forall k | 0 <= k < 39
      ensures s[k] != 34
    {
      if 2 <= k < 33 {
        assert s[2 + (k - 2)] == FORM_DATA[k - 2];
      } else if k >= 34 {
        assert s[34 + (k - 34)] == NAME[k - 34];
      } else if k < 2 {
        assert s[..2][k] == CRLF[k];
      }
    }
  }

  lemma NoQuote()
    ensures forall k :: 0 <= k < 31 ==> FORM_DATA[k] != 34
    ensures forall k :: 0 <= k < 5 ==> NAME[k] != 34
  {
  }

  /** The name ends at the next quote. */
  lemma {:induction false} NextQuote(s: seq<byte>, i: nat, e: nat)
    requires i <= e < |s| && s[e] == 34 && forall k :: i <= k < e ==> s[k] != 34
    ensures PosFrom(QUOTE, s, i) == e
    decreases e - i
  {
    assert s[i..i + 1] == [s[i]];
    if i < e {
      NextQuote(s, i + 1, e);
    }
  }

  lemma {:induction false} NoQuoteBehind(s: seq<byte>, i: nat)
    requires i >= |s|
    ensures PosFrom(QUOTE, s, i) < 0
  {
  }

  lemma {:induction false} SomeQuoteBehind(s: seq<byte>, i: nat, e: nat)
    requires i <= e < |s| && s[e] == 34
    ensures PosFrom(QUOTE, s, i) >= 0
    decreases e - i
  {
    assert s[i..i + 1] == [s[i]];
    if i < e {
      SomeQuoteBehind(s, i + 1, e);
    }
  }

  /** FILENAME has no quote before its last byte. */
  lemma OverQuote(s: seq<byte>, k: nat)
    requires 30 < k <= 39 < |s| && s[39] == 34
    ensures !Occurs(FILENAME, s, k)
  {
    if Occurs(FILENAME, s, k) {
      OccursByte(FILENAME, s, k, 39 - k);
    }
  }

  /** In a text block FILENAME can only occur where the name ends. */
  lemma FilenameInText(name: seq<byte>, s: seq<byte>)
    requires s == CRLF + TextLine(name) && 34 !in name
    ensures Pos(FILENAME, s) == if LooksLikeFile(name) then 31 + |name| else -1
  {
    var n := |name|;
    TextQuotes(name, s);
    forall k: nat | k != 31 + n || n < 9
      ensures !Occurs(FILENAME, s, k)
    {
      if 30 < k <= 39 {
        OverQuote(s, k);
      } else if Occurs(FILENAME, s, k) {
        OccursByte(FILENAME, s, k, 9);
        OccursByte(FILENAME, s, k, 0);
      }
    }
    if n >= 9 {
      assert s[31 + n..41 + n] == name[n - 9..] + QUOTE;
      assert FILENAME == FILENAME[..9] + QUOTE;
      EndsAlike(name[n - 9..], FILENAME[..9]);
    }
    if LooksLikeFile(name) {
      PosIs(FILENAME, s, 31 + n);
    } else {
      PosIsNone(FILENAME, s);
    }
  }

  lemma EndsAlike(x: seq<byte>, y: seq<byte>)
    ensures x + QUOTE == y + QUOTE <==> x == y
  {
    assert (x + QUOTE)[..|x + QUOTE| - 1] == x && (y + QUOTE)[..|y + QUOTE| - 1] == y;
  }

  /** A text block has two quotes, around the name. */
  lemma TextQuotes(name: seq<byte>, s: seq<byte>)
    requires s == CRLF + TextLine(name) && 34 !in name
    ensures |s| == 41 + |name| && s[40..40 + |name|] == name && s[30] != 102
    ensures Pos(FORM_DATA, s) >= 0 && Pos(NAME, s) == 34 && PosFrom(QUOTE, s, 40) == 40 + |name|
    ensures forall k :: 0 <= k < |s| ==> (s[k] == 34 <==> k == 39 || k == 40 + |name|)
  {
    var n := |name|;
    Opening(s, name + QUOTE);
    NameEnds(s, name, QUOTE);
    forall k | 40 <= k < |s|
      ensures s[k] == 34 <==> k == 40 + n
    {
      assert s[k] == s[40..][k - 40];
      assert k < 40 + n ==> s[k] == name[k - 40];
    }
  }

  /** The block of a text field is read back as written, unless its name ends in filename=; then it is refused. */
  lemma TextLineRead(name: seq<byte>)
    requires 34 !in name
    ensures ReadHeaders(CRLF + TextLine(name)) == if LooksLikeFile(name) then Broken(name) else Named(name, Text)
  {
    var s := CRLF + TextLine(name);
    TextQuotes(name, s);
    FilenameInText(name, s);
    if LooksLikeFile(name) {
      NoQuoteBehind(s, 41 + |name|);
    }
  }

  /** The block of a file is read back as written, whatever its name. */
  lemma FileLineRead(name: seq<byte>, file: seq<byte>)
    requires 34 !in name
    ensures ReadHeaders(CRLF + FileLine(name, file)) == Named(name, File)
  {
    var s := CRLF + FileLine(name, file);
    Opening(s, name + ([34, 59, 32] + (FILENAME + (file + QUOTE))));
    NameEnds(s, name, [34, 59, 32] + (FILENAME + (file + QUOTE)));
    FileNamed(s[40..], name, file);
    assert s[43 + |name|..53 + |name|] == s[40..][3 + |name|..13 + |name|];
    PosIsFirst(FILENAME, s);
    assert Occurs(FILENAME, s, 43 + |name|);
    SomeQuoteBehind(s, Pos(FILENAME, s) + 10, |s| - 1);
  }

  lemma NameEnds(s: seq<byte>, name: seq<byte>, behind: seq<byte>)
    requires |s| >= 40 && s[40..] == name + behind && behind != [] && behind[0] == 34 && 34 !in name
    ensures s[40..40 + |name|] == name && PosFrom(QUOTE, s, 40) == 40 + |name|
  {
    var n := |name|;
    assert s[40 + n] == s[40..][n];
    forall k | 40 <= k < 40 + n
      ensures s[k] != 34
    {
      assert s[k] == s[40..][k - 40] == name[k - 40];
    }
    NextQuote(s, 40, 40 + n);
  }

  /** Where FILENAME stands behind the name, and the quote at the end. */
  lemma FileNamed(t: seq<byte>, name: seq<byte>, file: seq<byte>)
    requires t == name + ([34, 59, 32] + (FILENAME + (file + QUOTE)))
    ensures |t| == 14 + |name| + |file| && t[3 + |name|..13 + |name|] == FILENAME && t[|t| - 1] == 34
  {
  }

  // ---------------------------------------------------------------- whole forms

  /** What a client sends for one field of a form. */
  datatype Item = TextItem(name: seq<byte>, content: seq<byte>)
      | FileItem(name: seq<byte>, file: seq<byte>, content: seq<byte>)

  function SourceOf(i: Item): Source {
    match i
    case TextItem(name, content) => Source(TextLine(name), content)
    case FileItem(name, file, content) => Source(FileLine(name, file), content)
  }

  /** The part that must come of it. */
  function PartOf(i: Item): Part {
    Part(i.name, if i.TextItem? then Text else File, i.content, i.content)
  }

  function SourcesOf(items: seq<Item>): seq<Source> {
    if items == [] then [] else [SourceOf(items[0])] + SourcesOf(items[1..])
  }

  function PartsOf(items: seq<Item>): seq<Part> {
    if items == [] then [] else [PartOf(items[0])] + PartsOf(items[1..])
  }

  /** Neither CR nor NUL. */
  predicate OneLine(s: seq<byte>) {
    forall k :: 0 <= k < |s| ==> s[k] != 13 && s[k] != 0
  }

  /** What a client makes sure of: names without quotes, everything in one line, and no delimiter in the content. */
  predicate WellSent(b: seq<byte>, i: Item) {
    34 !in i.name && OneLine(i.name) && (i.FileItem? ==> OneLine(i.file)) && Absent(b, i.content)
  }

  predicate AllWellSent(b: seq<byte>, items: seq<Item>) {
    items == [] || (WellSent(b, items[0]) && AllWellSent(b, items[1..]))
  }

  /** What the parser needs besides. */
  predicate NoneLooksLikeFile(items: seq<Item>) {
    items == [] || ((items[0].TextItem? ==> !LooksLikeFile(items[0].name)) && NoneLooksLikeFile(items[1..]))
  }

  lemma {:induction false} CStringWhole(s: seq<byte>)
    requires OneLine(s) || (forall k :: 0 <= k < |s| ==> s[k] != 0)
    ensures CString(s) == s
  {
    if s != [] {
      assert forall k :: 0 <= k < |s[1..]| ==> s[1..][k] == s[k + 1];
      CStringWhole(s[1..]);
    }
  }

  /** A block of one line has no blank line in it. */
  lemma OneLineAbsent(line: seq<byte>, s: seq<byte>)
    requires OneLine(line) && line != [] && s == CRLF + line + CRLF
    ensures Absent(BLANK, s)
  {
    assert s[..2] == CRLF && s[2..2 + |line|] == line;
    assert forall k :: 0 <= k < |line| ==> s[2 + k] == line[k];
    assert s[2] == line[0];
    forall k: nat | k + 4 <= |s|
      ensures !Occurs(BLANK, s, k)
    {
      if Occurs(BLANK, s, k) {
        OccursByte(BLANK, s, k, 0);
        OccursByte(BLANK, s, k, 2);
      }
    }
    PosIsNone(BLANK, s);
  }

  lemma ConstantsOneLine()
    ensures OneLine(FORM_DATA) && OneLine(NAME) && OneLine(FILENAME)
  {
  }

  lemma LineOf(b: seq<byte>, i: Item)
    requires WellSent(b, i)
    ensures OneLine(SourceOf(i).headers) && SourceOf(i).headers != []
  {
    ConstantsOneLine();
    match i
    case TextItem(name, _) => OneLineJoin(name, QUOTE, [], []);
    case FileItem(name, file, _) => OneLineJoin(name, [34, 59, 32], FILENAME, file + QUOTE);
  }

  lemma OneLineJoin(u: seq<byte>, v: seq<byte>, w: seq<byte>, x: seq<byte>)
    requires OneLine(u) && OneLine(v) && OneLine(w) && OneLine(x) && OneLine(FORM_DATA) && OneLine(NAME)
    ensures OneLine(FORM_DATA + ([32] + (NAME + (u + v)))) && OneLine(FORM_DATA + ([32] + (NAME + (u + (v + (w + x))))))
  {
  }

  /** A field of a form is a good source iff it is a file or its name does not look like one. */
  lemma ItemRead(c: Config, b: seq<byte>, i: Item)
    requires c == Config(b, ReadHeaders) && WellSent(b, i)
    ensures GoodSource(c, SourceOf(i)) <==> (i.TextItem? ==> !LooksLikeFile(i.name))
    ensures GoodSource(c, SourceOf(i)) ==> Whole(c, SourceOf(i)) == PartOf(i)
  {
    var line := SourceOf(i).headers;
    LineOf(b, i);
    OneLineAbsent(line, CRLF + line + CRLF);
    CStringWhole(CRLF + line);
    match i
    case TextItem(name, _) => TextLineRead(name);
    case FileItem(name, file, _) => FileLineRead(name, file);
  }

  lemma {:induction false} ItemsRead(c: Config, b: seq<byte>, items: seq<Item>)
    requires c == Config(b, ReadHeaders) && AllWellSent(b, items)
    ensures GoodSources(c, SourcesOf(items)) <==> NoneLooksLikeFile(items)
    ensures GoodSources(c, SourcesOf(items)) ==> Wholes(c, SourcesOf(items)) == PartsOf(items)
  {
    if items != [] {
      ItemRead(c, b, items[0]);
      ItemsRead(c, b, items[1..]);
      assert SourcesOf(items)[1..] == SourcesOf(items[1..]);
    }
  }

  /** A form is delivered: every field, in order, with its name, its kind and its content, however the body is cut. */
  lemma FormDelivered(c: Config, b: seq<byte>, preamble: seq<byte>, items: seq<Item>, tail: seq<byte>,
                      ds: seq<seq<byte>>)
    requires c == Config(b, ReadHeaders) && PlainDelimiter(b) && Pos(b, preamble + b) == |preamble|
    requires AllWellSent(b, items) && NoneLooksLikeFile(items)
    requires ds != [] && Join(ds) == Body(b, preamble, SourcesOf(items), tail)
    ensures var parts := Feed(c, State([], Looking, []), ds).0.parts;
            |items| <= |parts| && SameParts(parts[..|items|], PartsOf(items))
  {
    ItemsRead(c, b, items);
    RoundTripInPieces(c, preamble, SourcesOf(items), tail, ds);
    WholesSize(c, SourcesOf(items));
    SourcesSize(items);
  }

  lemma {:induction false} SourcesSize(items: seq<Item>)
    ensures |SourcesOf(items)| == |items|
  {
    if items != [] {
      SourcesSize(items[1..]);
    }
  }

  // ---------------------------------------------------------------- the close delimiter

  const DASHES: seq<byte> := [45, 45]

  lemma DashesAbsent()
    ensures Absent(BLANK, DASHES + CRLF)
  {
    var s := DASHES + CRLF;
    assert s[0..4][0] == 45;
    PosIsNone(BLANK, s);
  }

  /**
   * The close delimiter is not recognised: when its line is followed by an empty one, its two hyphens are read as a
   * header block and the whole body is refused, after every part has arrived.
   */
  lemma CloseDelimiterRefused(c: Config, b: seq<byte>, preamble: seq<byte>, ps: seq<Source>, epilogue: seq<byte>,
                              ds: seq<seq<byte>>)
    requires c == Config(b, ReadHeaders) && PlainDelimiter(b) && GoodSources(c, ps)
             && Pos(b, preamble + b) == |preamble|
    requires ds != [] && Join(ds) == Body(b, preamble, ps, DASHES + (BLANK + epilogue))
    ensures Feed(c, State([], Looking, []), ds).1 == Throw
  {
    var tail := DASHES + (BLANK + epilogue);
    DashesAbsent();
    BlankFound(DASHES, epilogue);
    assert tail[..2] == DASHES;
    CStringWhole(DASHES);
    assert |FORM_DATA| == 31 && ReadHeaders(DASHES) == Bad;
    RoundTripInPieces(c, preamble, ps, tail, ds);
    TailIsRead(c, Wholes(c, ps), tail);
  }

  /**
   * A form with one field "n", content "a", delimiter "--B": with CRLF behind the close delimiter it is read, with two
   * it is refused.
   */
  lemma CloseDelimiterMatters(c: Config, form: seq<Item>, short: seq<byte>, long: seq<byte>)
    requires c == Config([45, 45, 66], ReadHeaders) && form == [TextItem([110], [97])]
    requires short == Body(c.boundary, [], SourcesOf(form), DASHES + CRLF) && long == short + CRLF
    ensures Feed(c, State([], Looking, []), [short]).1 == Wait
    ensures Feed(c, State([], Looking, []), [long]).1 == Throw
  {
    var b, ps := c.boundary, SourcesOf(form);
    OneField(c, b, form);
    BodyLonger(b, ps);
    OneJoined(short);
    OneJoined(long);
    CloseDelimiterRefused(c, b, [], ps, [], [long]);
    CloseDelimiterWaits(c, b, ps, [short]);
  }

  lemma OneJoined(d: seq<byte>)
    ensures Join([d]) == d
  {
    assert [d][1..] == [] && d + [] == d;
  }

  lemma OneField(c: Config, b: seq<byte>, form: seq<Item>)
    requires c == Config(b, ReadHeaders) && b == [45, 45, 66] && form == [TextItem([110], [97])]
    ensures PlainDelimiter(b) && GoodSources(c, SourcesOf(form)) && Pos(b, [] + b) == 0
  {
    assert form[1..] == [];
    assert [] + b == b && b[0..3] == b;
    PosIs(b, b, 0);
    PosIsNone(b, [97]);
    ItemsRead(c, b, form);
  }

  lemma CloseDelimiterWaits(c: Config, b: seq<byte>, ps: seq<Source>, ds: seq<seq<byte>>)
    requires c.boundary == b && PlainDelimiter(b) && GoodSources(c, ps) && Pos(b, [] + b) == 0
    requires ds != [] && Join(ds) == Body(b, [], ps, DASHES + CRLF)
    ensures Feed(c, State([], Looking, []), ds).1 == Wait
  {
    RoundTripInPieces(c, [], ps, DASHES + CRLF, ds);
    DashesAbsent();
    TailIsRead(c, Wholes(c, ps), DASHES + CRLF);
  }

  lemma {:induction false} RestLonger(b: seq<byte>, ps: seq<Source>, tail: seq<byte>, more: seq<byte>)
    ensures Rest(b, ps, tail + more) == Rest(b, ps, tail) + more
  {
    if ps != [] {
      RestLonger(b, ps[1..], tail, more);
    }
  }

  lemma BodyLonger(b: seq<byte>, ps: seq<Source>)
    ensures Body(b, [], ps, DASHES + (BLANK + [])) == Body(b, [], ps, DASHES + CRLF) + CRLF
  {
    assert DASHES + (BLANK + []) == (DASHES + CRLF) + CRLF;
    RestLonger(b, ps, DASHES + CRLF, CRLF);
  }
}
