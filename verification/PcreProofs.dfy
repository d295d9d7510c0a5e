/** Compiled code tries the end positions of the pattern, in the same order. */
module PcreProofs {
  import opened PcreSyntax
  import opened PcreCode
  import opened PcreTries
  import opened PcreRun

  // ---------------------------------------------------------------- pieces of code

  /** `x` stands at position `p` of the code. */
  ghost predicate Has(code: seq<byte>, p: nat, x: seq<byte>)
    decreases |x|
  {
    p + |x| <= |code| && (x == [] || (code[p] == x[0] && Has(code, p + 1, x[1..])))
  }

  lemma {:induction false} HasSlice(code: seq<byte>, p: nat, x: seq<byte>)
    requires p + |x| <= |code| && code[p..p + |x|] == x
    ensures Has(code, p, x)
    decreases |x|
  {
    if x != [] {
      assert code[p] == code[p..p + |x|][0];
      assert code[p + 1..p + 1 + |x[1..]|] == code[p..p + |x|][1..];
      HasSlice(code, p + 1, x[1..]);
    }
  }

  lemma {:induction false} HasSplit(code: seq<byte>, p: nat, x: seq<byte>, y: seq<byte>)
    requires Has(code, p, x + y)
    ensures Has(code, p, x) && Has(code, p + |x|, y)
    decreases |x|
  {
    if x == [] {
      assert x + y == y;
    } else {
      assert (x + y)[1..] == x[1..] + y;
      HasSplit(code, p + 1, x[1..], y);
    }
  }

  lemma {:induction false} HasAt(code: seq<byte>, p: nat, x: seq<byte>, k: nat)
    requires Has(code, p, x) && k < |x|
    ensures p + |x| <= |code| && code[p + k] == x[k]
    decreases k
  {
    if k > 0 {
      HasAt(code, p + 1, x[1..], k - 1);
    }
  }

  /** A head byte and a two-byte number read back. */
  lemma HasHead(code: seq<byte>, p: nat, op: byte, n: nat, rest: seq<byte>)
    requires Has(code, p, [op] + Two(n) + rest) && n < 65536
    ensures p + 2 < |code| && code[p] == op && Link(code, p) == n && Has(code, p + 3, rest)
  {
    var x := [op] + Two(n) + rest;
    HasAt(code, p, x, 0);
    HasAt(code, p, x, 1);
    HasAt(code, p, x, 2);
    HasSplit(code, p, [op] + Two(n), rest);
  }

  // ---------------------------------------------------------------- lists of ends

  lemma {:induction false} EndsAllJoin(code: seq<byte>, s: seq<byte>, pc: nat, xs: seq<nat>, ys: seq<nat>)
    ensures EndsAll(code, s, pc, xs + ys) == EndsAll(code, s, pc, xs) + EndsAll(code, s, pc, ys)
  {
    if xs == [] {
      assert xs + ys == ys;
    } else {
      assert (xs + ys)[1..] == xs[1..] + ys;
      EndsAllJoin(code, s, pc, xs[1..], ys);
    }
  }

  lemma EndsAllOne(code: seq<byte>, s: seq<byte>, pc: nat, i: nat)
    ensures EndsAll(code, s, pc, [i]) == Ends(code, s, pc, i)
  {
    assert EndsAll(code, s, pc, [i][1..]) == [];
  }

  lemma {:induction false} EndsAllSame(code: seq<byte>, s: seq<byte>, p: nat, q: nat, xs: seq<nat>)
    requires forall x: nat :: Ends(code, s, p, x) == Ends(code, s, q, x)
    ensures EndsAll(code, s, p, xs) == EndsAll(code, s, q, xs)
  {
    if xs != [] {
      EndsAllSame(code, s, p, q, xs[1..]);
    }
  }

  // ---------------------------------------------------------------- repeated literals

  lemma {:induction false} DownwardShift(lo: nat, hi: int)
    requires lo <= hi
    ensures Downward(lo, hi) == Downward(lo + 1, hi) + [lo]
    decreases hi - lo
  {
    if lo < hi {
      DownwardShift(lo, hi - 1);
    } else {
      assert Downward(lo, hi - 1) == [] && Downward(lo + 1, hi) == [];
    }
  }

  lemma RangeStep(lo: nat, hi: int, lazy: bool)
    ensures lo > hi ==> Range(lo, hi, lazy) == []
    ensures lo <= hi
            ==> Range(lo, hi, lazy) == if lazy then [lo] + Range(lo + 1, hi, lazy) else Range(lo + 1, hi, lazy) + [lo]
  {
    if lo <= hi {
      DownwardShift(lo, hi);
    }
  }

  lemma RangePoint(i: nat, lazy: bool)
    ensures Range(i, i, lazy) == [i]
  {
    RangeStep(i, i, lazy);
    RangeStep(i + 1, i, lazy);
  }

  /** One unrolling of the stops. */
  lemma StopsStep(c: byte, min: nat, max: int, lazy: bool, s: seq<byte>, i: nat)
    ensures var more := if max != 0 && i < |s| && s[i] == c
                        then Stops(c, if min > 0 then min - 1 else 0, if max == -1 then -1 else max - 1, lazy, s, i + 1)
                        else [];
            Stops(c, min, max, lazy, s, i) == if min > 0 then more else if lazy then [i] + more else more + [i]
  {
    var n := RunLength(c, max, s, i);
    if min == 0 {
      RangeStep(i, i + n, lazy);
      RangeStep(i + 1, i, lazy);
    } else if n == 0 {
      RangeStep(i + min, i, lazy);
    }
  }

  /** The stops of the matcher are the tries of direct repetition. */
  lemma {:induction false} StopsAreTries(c: byte, min: int, max: int, lazy: bool, s: seq<byte>, i: nat)
    requires max == -1 || (min <= max && max >= 0)
    ensures TriesLit(c, min, max, lazy, s, i) == Stops(c, if min > 0 then min else 0, max, lazy, s, i)
    decreases |s| - i
  {
    StopsStep(c, if min > 0 then min else 0, max, lazy, s, i);
    if max != 0 && i < |s| && s[i] == c {
      StopsAreTries(c, min - 1, if max == -1 then -1 else max - 1, lazy, s, i + 1);
    }
  }

  /** After the first `k` bytes of a run, the rest of the run. */
  lemma {:induction false} RunSplit(c: byte, k: nat, max: int, s: seq<byte>, i: nat)
    requires max == -1 || k <= max
    ensures var first := RunLength(c, k, s, i);
            RunLength(c, max, s, i) == if first == k
                then k + RunLength(c, if max == -1 then -1 else max - k, s, i + k) else first
    ensures RunLength(c, k, s, i) <= k
    decreases k
  {
    if k > 0 && i < |s| && s[i] == c {
      RunSplit(c, k - 1, if max == -1 then -1 else max - 1, s, i + 1);
    }
  }

  lemma StopsExact(c: byte, k: nat, lazy: bool, s: seq<byte>, i: nat)
    ensures Stops(c, k, k, lazy, s, i) == if RunLength(c, k, s, i) == k then [i + k] else []
  {
    RunSplit(c, k, k, s, i);
    RangePoint(i + k, lazy);
    RangeStep(i + k, i + RunLength(c, k, s, i), lazy);
  }

  /** A repetition is its minimum followed by the optional rest. */
  lemma StopsSplit(c: byte, k: nat, max: int, lazy: bool, s: seq<byte>, i: nat)
    requires max == -1 || k <= max
    ensures Stops(c, k, max, lazy, s, i)
            == if RunLength(c, k, s, i) == k then Stops(c, 0, if max == -1 then -1 else max - k, lazy, s, i + k) else []
  {
    RunSplit(c, k, max, s, i);
    RangeStep(i + k, i + RunLength(c, k, s, i), lazy);
  }

  /** A repeat opcode with its character. */
  lemma RepeatRuns(code: seq<byte>, s: seq<byte>, p: nat, i: nat)
    requires p < |code| && IsRepeat(code[p]) && p + BoundsAt(code, p).skip < |code|
    ensures var b := BoundsAt(code, p);
            Ends(code, s, p, i) == EndsAll(code, s, p + b.skip + 1, Stops(code[p + b.skip], b.min, b.max, b.lazy, s, i))
  {
  }

  lemma CharRuns(code: seq<byte>, s: seq<byte>, p: nat, c: byte, i: nat)
    requires Has(code, p, [OP_CHAR, c])
    ensures Ends(code, s, p, i) == EndsAll(code, s, p + 2, Stops(c, 1, 1, false, s, i))
  {
    HasAt(code, p, [OP_CHAR, c], 0);
    HasAt(code, p, [OP_CHAR, c], 1);
    StopsExact(c, 1, false, s, i);
    assert RunLength(c, 1, s, i) == if i < |s| && s[i] == c then 1 else 0;
    EndsAllOne(code, s, p + 2, i + 1);
  }

  /** The short forms: STAR, PLUS and QUERY. */
  lemma ShortRuns(code: seq<byte>, s: seq<byte>, p: nat, op: byte, c: byte, lazy: bool, i: nat)
    requires op in {OP_STAR, OP_PLUS, OP_QUERY} && Has(code, p, [Twin(op, lazy), c])
    ensures Ends(code, s, p, i) == EndsAll(code, s, p + 2,
              Stops(c, if op == OP_PLUS then 1 else 0, if op == OP_QUERY then 1 else -1, lazy, s, i))
  {
    HasAt(code, p, [Twin(op, lazy), c], 0);
    HasAt(code, p, [Twin(op, lazy), c], 1);
    RepeatRuns(code, s, p, i);
  }

  /** The counted forms: EXACT and UPTO. */
  lemma CountedRuns(code: seq<byte>, s: seq<byte>, p: nat, op: byte, n: nat, c: byte, i: nat)
    requires op in {OP_EXACT, OP_UPTO, Twin(OP_UPTO, true)} && n < 65536 && Has(code, p, [op] + Two(n) + [c])
    ensures Ends(code, s, p, i) == EndsAll(code, s, p + 4,
              Stops(c, if op == OP_EXACT then n else 0, n, op == Twin(OP_UPTO, true), s, i))
  {
    HasHead(code, p, op, n, [c]);
    HasAt(code, p + 3, [c], 0);
    RepeatRuns(code, s, p, i);
  }

  /** An exact count at `p`, then at `q` the optional rest, which ends at `r`. */
  lemma TwoPhases(code: seq<byte>, s: seq<byte>, c: byte, k: nat, max: int, left: int, lazy: bool, i: nat, p: nat,
                  q: nat, r: nat)
    requires (max == -1 || k <= max) && left == if max == -1 then -1 else max - k
    requires Ends(code, s, p, i) == EndsAll(code, s, q, Stops(c, k, k, false, s, i))
    requires Ends(code, s, q, i + k) == EndsAll(code, s, r, Stops(c, 0, left, lazy, s, i + k))
    ensures Ends(code, s, p, i) == EndsAll(code, s, r, Stops(c, k, max, lazy, s, i))
  {
    StopsExact(c, k, false, s, i);
    StopsSplit(c, k, max, lazy, s, i);
    EndsAllOne(code, s, q, i + k);
  }

  /** The optional rest behind an exact count or a single item: STAR, QUERY, UPTO, or nothing. */
  function OptionalRest(c: byte, max: int, lazy: bool): seq<byte>
    requires max == -1 || 0 <= max <= MAX_REPEAT
  {
    if max == -1 then [Twin(OP_STAR, lazy), c]
    else if max == 0 then []
    else if max == 1 then [Twin(OP_QUERY, lazy), c]
    else UpTo(c, max, lazy)
  }

  lemma OptionalRestRuns(code: seq<byte>, s: seq<byte>, c: byte, max: int, lazy: bool, q: nat, r: nat, j: nat)
    requires (max == -1 || 0 <= max <= MAX_REPEAT) && Has(code, q, OptionalRest(c, max, lazy))
    requires r == q + |OptionalRest(c, max, lazy)|
    ensures Ends(code, s, q, j) == EndsAll(code, s, r, Stops(c, 0, max, lazy, s, j))
  {
    if max == -1 {
      ShortRuns(code, s, q, OP_STAR, c, lazy, j);
    } else if max == 0 {
      StopsExact(c, 0, lazy, s, j);
      EndsAllOne(code, s, q, j);
    } else if max == 1 {
      ShortRuns(code, s, q, OP_QUERY, c, lazy, j);
    } else {
      CountedRuns(code, s, q, Twin(OP_UPTO, lazy), max, c, j);
    }
  }

  lemma ExactParts(code: seq<byte>, c: byte, rep: Rep, left: int, p: nat, r: nat)
    requires RepOk(rep) && rep.min > 1 && Has(code, p, EmitLit(c, rep)) && r == p + |EmitLit(c, rep)|
    requires left == if rep.max == -1 then -1 else rep.max - rep.min
    ensures Has(code, p, [OP_EXACT] + Two(rep.min) + [c])
    ensures Has(code, p + 4, OptionalRest(c, left, rep.lazy)) && r == p + 4 + |OptionalRest(c, left, rep.lazy)|
  {
    var head := [OP_EXACT] + Two(rep.min) + [c];
    assert EmitLit(c, rep) == head + OptionalRest(c, left, rep.lazy);
    HasSplit(code, p, head, OptionalRest(c, left, rep.lazy));
  }

  /** {n,} and {n,m} with n > 1: EXACT, then the optional rest. */
  lemma ExactRuns(code: seq<byte>, s: seq<byte>, c: byte, rep: Rep, left: int, p: nat, r: nat, i: nat)
    requires RepOk(rep) && rep.min > 1 && left == if rep.max == -1 then -1 else rep.max - rep.min
    requires Has(code, p, [OP_EXACT] + Two(rep.min) + [c])
    requires Has(code, p + 4, OptionalRest(c, left, rep.lazy)) && r == p + 4 + |OptionalRest(c, left, rep.lazy)|
    ensures Ends(code, s, p, i) == EndsAll(code, s, r, Stops(c, rep.min, rep.max, rep.lazy, s, i))
  {
    var q := p + 4;
    CountedRuns(code, s, p, OP_EXACT, rep.min, c, i);
    OptionalRestRuns(code, s, c, left, rep.lazy, q, r, i + rep.min);
    TwoPhases(code, s, c, rep.min, rep.max, left, rep.lazy, i, p, q, r);
  }

  /** {1,m}: the item itself, then UPTO. */
  lemma OnceRuns(code: seq<byte>, s: seq<byte>, c: byte, rep: Rep, p: nat, r: nat, i: nat)
    requires RepOk(rep) && rep.min == 1 && rep.max >= 1 && Has(code, p, EmitLit(c, rep)) && r == p + |EmitLit(c, rep)|
    ensures Ends(code, s, p, i) == EndsAll(code, s, r, Stops(c, rep.min, rep.max, rep.lazy, s, i))
  {
    StopsExact(c, 1, false, s, i);
    StopsExact(c, 1, rep.lazy, s, i);
    if rep.max == 1 {
      CharRuns(code, s, p, c, i);
    } else {
      HasSplit(code, p, [OP_CHAR, c], UpTo(c, rep.max - 1, rep.lazy));
      CharRuns(code, s, p, c, i);
      CountedRuns(code, s, p + 2, Twin(OP_UPTO, rep.lazy), rep.max - 1, c, i + 1);
      TwoPhases(code, s, c, 1, rep.max, rep.max - 1, rep.lazy, i, p, p + 2, r);
    }
  }

  /** Lowering of a quantified literal keeps its tries and their order. */
  lemma LitMatches(code: seq<byte>, s: seq<byte>, c: byte, rep: Rep, p: nat, r: nat, i: nat)
    requires RepOk(rep) && Has(code, p, EmitLit(c, rep)) && r == p + |EmitLit(c, rep)|
    ensures Ends(code, s, p, i) == EndsAll(code, s, r, TriesLit(c, rep.min, rep.max, rep.lazy, s, i))
  {
    StopsAreTries(c, rep.min, rep.max, rep.lazy, s, i);
    if rep.min == 0 {
      OptionalRestRuns(code, s, c, rep.max, rep.lazy, p, r, i);
    } else if rep.min > 1 {
      var left := if rep.max == -1 then -1 else rep.max - rep.min;
      ExactParts(code, c, rep, left, p, r);
      ExactRuns(code, s, c, rep, left, p, r, i);
    } else if rep.max == -1 {
      ShortRuns(code, s, p, OP_PLUS, c, rep.lazy, i);
    } else {
      OnceRuns(code, s, c, rep, p, r, i);
    }
  }

  // ---------------------------------------------------------------- groups

  lemma KetRuns(code: seq<byte>, s: seq<byte>, p: nat, xs: seq<nat>)
    requires p < |code| && code[p] == OP_KET
    ensures EndsAll(code, s, p, xs) == EndsAll(code, s, p + 3, xs)
  {
    EndsAllSame(code, s, p, p + 3, xs);
  }

  /** One alternative: head, link, code. */
  function EmitOne(op: byte, eb: seq<byte>): seq<byte> {
    [op] + Two(3 + |eb|) + eb
  }

  lemma EmitOneAt(code: seq<byte>, op: byte, eb: seq<byte>, p: nat)
    requires p + |EmitOne(op, eb)| < |code| <= MAX_PATTERN_SIZE && Has(code, p, EmitOne(op, eb))
    ensures p + 2 < |code| && code[p] == op && Link(code, p) == 3 + |eb| && Has(code, p + 3, eb)
  {
    HasHead(code, p, op, 3 + |eb|, eb);
  }

  /** From any alternative head the links lead to the KET. */
  lemma {:induction false} LinksLeadToKet(code: seq<byte>, op: byte, a: Alts, p: nat, ket: nat)
    requires AltsOk(a) && |code| <= MAX_PATTERN_SIZE && Has(code, p, EmitAlts(op, a))
    requires ket == p + |EmitAlts(op, a)| < |code| && code[ket] == OP_KET
    ensures KetOf(code, p) == ket && p + 2 < |code| && code[p] == op
    decreases a
  {
    var eb := EmitBranch(a.branch);
    if a.Or? {
      assert EmitAlts(op, a) == EmitOne(op, eb) + EmitAlts(OP_ALT, a.others);
      HasSplit(code, p, EmitOne(op, eb), EmitAlts(OP_ALT, a.others));
      EmitOneAt(code, op, eb, p);
      LinksLeadToKet(code, OP_ALT, a.others, p + 3 + |eb|, ket);
    } else {
      EmitOneAt(code, op, eb, p);
    }
  }

  /** Where a branch ends, at an ALT or at the KET, the match goes on behind the KET. */
  lemma BranchEndRuns(code: seq<byte>, s: seq<byte>, p: nat, ket: nat, xs: seq<nat>)
    requires p < |code| && ket < |code| && code[ket] == OP_KET
             && (p == ket || (code[p] == OP_ALT && KetOf(code, p) == ket))
    ensures EndsAll(code, s, p, xs) == EndsAll(code, s, ket + 3, xs)
  {
    KetRuns(code, s, ket, xs);
    EndsAllSame(code, s, p, ket, xs);
  }

  /** The alternatives of a group are tried in order. */
  lemma {:induction false} AltsMatch(code: seq<byte>, s: seq<byte>, op: byte, a: Alts, p: nat, ket: nat, i: nat)
    requires AltsOk(a) && |code| <= MAX_PATTERN_SIZE && Has(code, p, EmitAlts(op, a))
    requires ket == p + |EmitAlts(op, a)| < |code| && code[ket] == OP_KET
    ensures EndsAlts(code, s, p, i) == EndsAll(code, s, ket + 3, TriesAlts(a, s, i))
    decreases a, 1, 1, 0
  {
    var eb := EmitBranch(a.branch);
    var q := p + 3 + |eb|;
    if a.Or? {
      OrParts(code, op, a, p, q, ket);
      HeadMatches(code, s, op, a.branch, p, q, ket, i);
      AltsMatch(code, s, OP_ALT, a.others, q, ket, i);
      EndsAllJoin(code, s, ket + 3, TriesBranch(a.branch, s, i), TriesAlts(a.others, s, i));
      OrRuns(code, s, p, q, i);
    } else {
      EmitOneAt(code, op, eb, p);
      HeadMatches(code, s, op, a.branch, p, q, ket, i);
      OrRuns(code, s, p, q, i);
    }
  }

  lemma OrParts(code: seq<byte>, op: byte, a: Alts, p: nat, q: nat, ket: nat)
    requires AltsOk(a) && a.Or? && |code| <= MAX_PATTERN_SIZE && Has(code, p, EmitAlts(op, a))
    requires ket == p + |EmitAlts(op, a)| < |code| && code[ket] == OP_KET && q == p + 3 + |EmitBranch(a.branch)|
    ensures Has(code, p, EmitOne(op, EmitBranch(a.branch))) && Has(code, q, EmitAlts(OP_ALT, a.others))
    ensures p < q < ket == q + |EmitAlts(OP_ALT, a.others)| && Link(code, p) == q - p
    ensures code[q] == OP_ALT && KetOf(code, q) == ket
  {
    var eb := EmitBranch(a.branch);
    assert EmitAlts(op, a) == EmitOne(op, eb) + EmitAlts(OP_ALT, a.others);
    HasSplit(code, p, EmitOne(op, eb), EmitAlts(OP_ALT, a.others));
    EmitOneAt(code, op, eb, p);
    LinksLeadToKet(code, OP_ALT, a.others, q, ket);
  }

  /** One alternative, at whose end the match leaves the group. */
  lemma HeadMatches(code: seq<byte>, s: seq<byte>, op: byte, b: Branch, p: nat, q: nat, ket: nat, i: nat)
    requires BranchOk(b) && |code| <= MAX_PATTERN_SIZE && Has(code, p, EmitOne(op, EmitBranch(b)))
    requires q == p + 3 + |EmitBranch(b)| < |code| && ket < |code| && code[ket] == OP_KET
    requires q == ket || (code[q] == OP_ALT && KetOf(code, q) == ket)
    ensures Ends(code, s, p + 3, i) == EndsAll(code, s, ket + 3, TriesBranch(b, s, i))
    decreases b, 3, 0, 0
  {
    EmitOneAt(code, op, EmitBranch(b), p);
    BranchMatches(code, s, b, p + 3, q, i);
    BranchEndRuns(code, s, q, ket, TriesBranch(b, s, i));
  }

  /** One head: its branch first, then the next head if there is one. */
  lemma OrRuns(code: seq<byte>, s: seq<byte>, p: nat, q: nat, i: nat)
    requires p + 2 < |code| && q == p + Link(code, p) && p < q < |code|
    ensures EndsAlts(code, s, p, i) == Ends(code, s, p + 3, i)
            + (if code[q] == OP_ALT then EndsAlts(code, s, q, i) else [])
  {
  }

  /** A bracketed group. */
  lemma {:induction false} BracketMatches(code: seq<byte>, s: seq<byte>, a: Alts, p: nat, r: nat, i: nat)
    requires AltsOk(a) && |code| <= MAX_PATTERN_SIZE && Has(code, p, EmitBracket(a)) && r == p + |EmitBracket(a)|
    ensures Ends(code, s, p, i) == EndsAll(code, s, r, TriesAlts(a, s, i))
    ensures KetOf(code, p) + 3 == r
    decreases a, 2, 0, 0
  {
    var body := EmitAlts(OP_BRA, a);
    var tail := [OP_KET] + Two(|body|);
    var ket := p + |body|;
    assert EmitBracket(a) == body + tail;
    HasSplit(code, p, body, tail);
    HasAt(code, ket, tail, 0);
    LinksLeadToKet(code, OP_BRA, a, p, ket);
    AltsMatch(code, s, OP_BRA, a, p, ket, i);
  }

  lemma {:induction false} NoMoreCopies(a: Alts, lazy: bool, s: seq<byte>, xs: seq<nat>)
    requires AltsOk(a)
    ensures TriesGroupAll(a, 0, 0, lazy, s, xs) == xs
  {
    if xs != [] {
      NoMoreCopies(a, lazy, s, xs[1..]);
    }
  }

  /** BRAZERO or BRAMINZERO in front of code that goes on to `r`, as skipping it does. */
  lemma OptionalRuns(code: seq<byte>, s: seq<byte>, lazy: bool, p: nat, r: nat, i: nat, more: seq<nat>)
    requires p < |code| && code[p] == Twin(OP_BRAZERO, lazy) && KetOf(code, p + 1) + 3 == r
    requires Ends(code, s, p + 1, i) == EndsAll(code, s, r, more)
    ensures Ends(code, s, p, i) == EndsAll(code, s, r, if lazy then [i] + more else more + [i])
  {
    EndsAllOne(code, s, r, i);
    EndsAllJoin(code, s, r, [i], more);
    EndsAllJoin(code, s, r, more, [i]);
  }

  /** A bracket without alternatives around the code at `p + 3`. */
  lemma WrapperRuns(code: seq<byte>, s: seq<byte>, p: nat, inner: seq<byte>, i: nat)
    requires |code| <= MAX_PATTERN_SIZE
    requires Has(code, p, [OP_BRA] + Two(3 + |inner|) + inner + [OP_KET] + Two(3 + |inner|))
    ensures Has(code, p + 3, inner) && p + 3 + |inner| < |code| && code[p + 3 + |inner|] == OP_KET
    ensures code[p] == OP_BRA && Link(code, p) == 3 + |inner|
    ensures Ends(code, s, p, i) == Ends(code, s, p + 3, i) && KetOf(code, p) == p + 3 + |inner|
  {
    var tail := [OP_KET] + Two(3 + |inner|);
    assert [OP_BRA] + Two(3 + |inner|) + inner + [OP_KET] + Two(3 + |inner|)
           == [OP_BRA] + Two(3 + |inner|) + (inner + tail);
    HasHead(code, p, OP_BRA, 3 + |inner|, inner + tail);
    HasSplit(code, p + 3, inner, tail);
    HasAt(code, p + 3 + |inner|, tail, 0);
  }

  /** The nested optional copies. */
  lemma {:induction false} NestedMatches(code: seq<byte>, s: seq<byte>, a: Alts, g: seq<byte>, n: nat, lazy: bool,
                                         p: nat, r: nat, i: nat)
    requires AltsOk(a) && g == EmitBracket(a) && |code| <= MAX_PATTERN_SIZE
    requires Has(code, p, Nested(g, n, lazy)) && r == p + |Nested(g, n, lazy)|
    ensures Ends(code, s, p, i) == EndsAll(code, s, r, TriesGroup(a, 0, n, lazy, s, i))
    decreases a, 3, n, 0
  {
    if n == 0 {
      EndsAllOne(code, s, p, i);
    } else if n == 1 {
      LastMatches(code, s, a, g, lazy, p, r, i);
    } else {
      DeeperMatches(code, s, a, g, n, lazy, p, r, i);
    }
  }

  /** An optional copy with others nested in it. */
  lemma {:induction false} DeeperMatches(code: seq<byte>, s: seq<byte>, a: Alts, g: seq<byte>, n: nat, lazy: bool,
                                         p: nat, r: nat, i: nat)
    requires AltsOk(a) && g == EmitBracket(a) && |code| <= MAX_PATTERN_SIZE && n > 1
    requires Has(code, p, Nested(g, n, lazy)) && r == p + |Nested(g, n, lazy)|
    ensures Ends(code, s, p, i) == EndsAll(code, s, r, TriesGroup(a, 0, n, lazy, s, i))
    decreases a, 3, n - 1, 3 + |TriesAlts(a, s, i)|
  {
    var q := p + 4 + |g|;
    NestedParts(code, s, g, n, lazy, p, r, i);
    InsideMatches(code, s, a, g, n, lazy, p + 4, r - 3, i);
    OuterGroup(code, s, a, n, lazy, p, q, r - 3, i);
  }

  /** The inside of an outer optional copy: the group once, then the copies nested in it. */
  lemma InsideMatches(code: seq<byte>, s: seq<byte>, a: Alts, g: seq<byte>, n: nat, lazy: bool, p: nat, ket: nat,
                      i: nat)
    requires AltsOk(a) && g == EmitBracket(a) && |code| <= MAX_PATTERN_SIZE && n > 1
    requires Has(code, p, g) && Has(code, p + |g|, Nested(g, n - 1, lazy)) && ket == p + |g| + |Nested(g, n - 1, lazy)|
    ensures var first := TriesAlts(a, s, i);
            && Ends(code, s, p, i) == EndsAll(code, s, p + |g|, first)
            && EndsAll(code, s, p + |g|, first) == EndsAll(code, s, ket, TriesGroupAll(a, 0, n - 1, lazy, s, first))
    decreases a, 3, n - 1, 2 + |TriesAlts(a, s, i)|
  {
    BracketMatches(code, s, a, p, p + |g|, i);
    NestedMatchesAll(code, s, a, g, n - 1, lazy, p + |g|, ket, TriesAlts(a, s, i));
  }

  lemma OuterGroup(code: seq<byte>, s: seq<byte>, a: Alts, n: nat, lazy: bool, p: nat, q: nat, ket: nat, i: nat)
    requires AltsOk(a) && n > 1 && ket < |code| && code[ket] == OP_KET
    requires p < |code| && code[p] == Twin(OP_BRAZERO, lazy) && KetOf(code, p + 1) == ket
    requires Ends(code, s, p + 1, i) == EndsAll(code, s, q, TriesAlts(a, s, i))
    requires EndsAll(code, s, q, TriesAlts(a, s, i))
             == EndsAll(code, s, ket, TriesGroupAll(a, 0, n - 1, lazy, s, TriesAlts(a, s, i)))
    ensures Ends(code, s, p, i) == EndsAll(code, s, ket + 3, TriesGroup(a, 0, n, lazy, s, i))
  {
    var first := TriesAlts(a, s, i);
    var more := TriesGroupAll(a, 0, n - 1, lazy, s, first);
    OuterCopy(code, s, lazy, p, q, ket, i, first, more);
    assert TriesGroup(a, 0, n, lazy, s, i) == if lazy then [i] + more else more + [i];
  }

  /** An outer optional copy, given what its inside does. */
  lemma OuterCopy(code: seq<byte>, s: seq<byte>, lazy: bool, p: nat, q: nat, ket: nat, i: nat, first: seq<nat>,
                  more: seq<nat>)
    requires ket < |code| && code[ket] == OP_KET
    requires p < |code| && code[p] == Twin(OP_BRAZERO, lazy) && KetOf(code, p + 1) == ket
    requires Ends(code, s, p + 1, i) == EndsAll(code, s, q, first)
    requires EndsAll(code, s, q, first) == EndsAll(code, s, ket, more)
    ensures Ends(code, s, p, i) == EndsAll(code, s, ket + 3, if lazy then [i] + more else more + [i])
  {
    KetRuns(code, s, ket, more);
    OptionalRuns(code, s, lazy, p, ket + 3, i, more);
  }

  lemma {:induction false} NestedMatchesAll(code: seq<byte>, s: seq<byte>, a: Alts, g: seq<byte>, n: nat, lazy: bool,
                                            p: nat, r: nat, xs: seq<nat>)
    requires AltsOk(a) && g == EmitBracket(a) && |code| <= MAX_PATTERN_SIZE
    requires Has(code, p, Nested(g, n, lazy)) && r == p + |Nested(g, n, lazy)|
    ensures EndsAll(code, s, p, xs) == EndsAll(code, s, r, TriesGroupAll(a, 0, n, lazy, s, xs))
    decreases a, 3, n, 1 + |xs|
  {
    if xs != [] {
      NestedMatches(code, s, a, g, n, lazy, p, r, xs[0]);
      NestedMatchesAll(code, s, a, g, n, lazy, p, r, xs[1..]);
      EndsAllJoin(code, s, r, TriesGroup(a, 0, n, lazy, s, xs[0]), TriesGroupAll(a, 0, n, lazy, s, xs[1..]));
    }
  }

  lemma NestedParts(code: seq<byte>, s: seq<byte>, g: seq<byte>, n: nat, lazy: bool, p: nat, r: nat, i: nat)
    requires |code| <= MAX_PATTERN_SIZE && n > 1 && Has(code, p, Nested(g, n, lazy)) && r == p + |Nested(g, n, lazy)|
    ensures p < |code| && code[p] == Twin(OP_BRAZERO, lazy) && KetOf(code, p + 1) + 3 == r
    ensures Has(code, p + 4, g) && Has(code, p + 4 + |g|, Nested(g, n - 1, lazy))
    ensures r == p + 4 + |g| + |Nested(g, n - 1, lazy)| + 3 && r - 3 < |code| && code[r - 3] == OP_KET
    ensures code[p + 1] == OP_BRA && Link(code, p + 1) == r - 4 - p
    ensures Ends(code, s, p + 1, i) == Ends(code, s, p + 4, i)
  {
    var inner := g + Nested(g, n - 1, lazy);
    var wrapped := [OP_BRA] + Two(3 + |inner|) + inner + [OP_KET] + Two(3 + |inner|);
    assert Nested(g, n, lazy) == [Twin(OP_BRAZERO, lazy)] + wrapped;
    HasSplit(code, p, [Twin(OP_BRAZERO, lazy)], wrapped);
    HasAt(code, p, [Twin(OP_BRAZERO, lazy)], 0);
    WrapperRuns(code, s, p + 1, inner, i);
    HasSplit(code, p + 4, g, Nested(g, n - 1, lazy));
  }

  /** The innermost optional copy. */
  lemma LastMatches(code: seq<byte>, s: seq<byte>, a: Alts, g: seq<byte>, lazy: bool, p: nat, r: nat, i: nat)
    requires AltsOk(a) && g == EmitBracket(a) && |code| <= MAX_PATTERN_SIZE
    requires Has(code, p, [Twin(OP_BRAZERO, lazy)] + g) && r == p + 1 + |g|
    ensures Ends(code, s, p, i) == EndsAll(code, s, r, TriesGroup(a, 0, 1, lazy, s, i))
    decreases a, 2, 1, 0
  {
    HasSplit(code, p, [Twin(OP_BRAZERO, lazy)], g);
    HasAt(code, p, [Twin(OP_BRAZERO, lazy)], 0);
    BracketMatches(code, s, a, p + 1, r, i);
    NoMoreCopies(a, lazy, s, TriesAlts(a, s, i));
    OptionalRuns(code, s, lazy, p, r, i, TriesAlts(a, s, i));
  }

  /** The mandatory copies, then the optional ones. */
  lemma {:induction false} CopiesMatch(code: seq<byte>, s: seq<byte>, a: Alts, g: seq<byte>, min: nat, n: nat,
                                       max: nat, lazy: bool, p: nat, r: nat, i: nat)
    requires AltsOk(a) && g == EmitBracket(a) && |code| <= MAX_PATTERN_SIZE && max == min + n
    requires Has(code, p, Copies(g, min) + Nested(g, n, lazy)) && r == p + |Copies(g, min)| + |Nested(g, n, lazy)|
    ensures Ends(code, s, p, i) == EndsAll(code, s, r, TriesGroup(a, min, max, lazy, s, i))
    decreases a, 4, min, 0
  {
    if min == 0 {
      NoCopies(g, n, lazy);
      NestedMatches(code, s, a, g, n, lazy, p, r, i);
    } else {
      var q := p + |g|;
      CopiesParts(code, g, min, n, lazy, p);
      assert r == q + |Copies(g, min - 1)| + |Nested(g, n, lazy)|;
      CopyMatches(code, s, a, g, min, n, max, lazy, p, q, r, i, TriesAlts(a, s, i));
    }
  }

  /** One mandatory copy and what follows it. */
  lemma {:induction false} CopyMatches(code: seq<byte>, s: seq<byte>, a: Alts, g: seq<byte>, min: nat, n: nat,
                                       max: nat, lazy: bool, p: nat, q: nat, r: nat, i: nat, first: seq<nat>)
    requires AltsOk(a) && g == EmitBracket(a) && |code| <= MAX_PATTERN_SIZE && max == min + n && min > 0
    requires Has(code, p, g) && q == p + |g| && first == TriesAlts(a, s, i)
    requires Has(code, q, Copies(g, min - 1) + Nested(g, n, lazy))
             && r == q + |Copies(g, min - 1)| + |Nested(g, n, lazy)|
    ensures Ends(code, s, p, i) == EndsAll(code, s, r, TriesGroup(a, min, max, lazy, s, i))
    decreases a, 4, min - 1, 2 + |first|
  {
    BracketMatches(code, s, a, p, q, i);
    CopiesMatchAll(code, s, a, g, min - 1, n, max - 1, lazy, q, r, first);
    assert TriesGroup(a, min, max, lazy, s, i) == TriesGroupAll(a, min - 1, max - 1, lazy, s, first);
  }

  lemma NoCopies(g: seq<byte>, n: nat, lazy: bool)
    ensures Copies(g, 0) + Nested(g, n, lazy) == Nested(g, n, lazy) && |Copies(g, 0)| == 0
  {
  }

  lemma CopiesParts(code: seq<byte>, g: seq<byte>, min: nat, n: nat, lazy: bool, p: nat)
    requires min > 0 && Has(code, p, Copies(g, min) + Nested(g, n, lazy))
    ensures Has(code, p, g) && Has(code, p + |g|, Copies(g, min - 1) + Nested(g, n, lazy))
    ensures |Copies(g, min)| == |g| + |Copies(g, min - 1)|
  {
    var rest := Copies(g, min - 1) + Nested(g, n, lazy);
    assert Copies(g, min) + Nested(g, n, lazy) == g + rest;
    HasSplit(code, p, g, rest);
  }

  lemma {:induction false} CopiesMatchAll(code: seq<byte>, s: seq<byte>, a: Alts, g: seq<byte>, min: nat, n: nat,
                                          max: nat, lazy: bool, p: nat, r: nat, xs: seq<nat>)
    requires AltsOk(a) && g == EmitBracket(a) && |code| <= MAX_PATTERN_SIZE && max == min + n
    requires Has(code, p, Copies(g, min) + Nested(g, n, lazy)) && r == p + |Copies(g, min)| + |Nested(g, n, lazy)|
    ensures EndsAll(code, s, p, xs) == EndsAll(code, s, r, TriesGroupAll(a, min, max, lazy, s, xs))
    decreases a, 4, min, 1 + |xs|
  {
    if xs != [] {
      CopiesMatch(code, s, a, g, min, n, max, lazy, p, r, xs[0]);
      CopiesMatchAll(code, s, a, g, min, n, max, lazy, p, r, xs[1..]);
      EndsAllJoin(code, s, r, TriesGroup(a, min, max, lazy, s, xs[0]), TriesGroupAll(a, min, max, lazy, s, xs[1..]));
    }
  }

  /** A group repeated {0} is skipped. */
  lemma SkippedMatches(code: seq<byte>, s: seq<byte>, a: Alts, g: seq<byte>, p: nat, r: nat, i: nat)
    requires AltsOk(a) && g == EmitBracket(a) && |code| <= MAX_PATTERN_SIZE
    requires Has(code, p, [OP_SKIPZERO] + g) && r == p + 1 + |g|
    ensures Ends(code, s, p, i) == EndsAll(code, s, r, [i])
    decreases a, 2, 1, 0
  {
    HasSplit(code, p, [OP_SKIPZERO], g);
    HasAt(code, p, [OP_SKIPZERO], 0);
    BracketMatches(code, s, a, p + 1, r, i);
    EndsAllOne(code, s, r, i);
  }

  /** Lowering of a quantified group keeps its tries and their order. */
  lemma GroupMatches(code: seq<byte>, s: seq<byte>, a: Alts, g: seq<byte>, rep: Rep, p: nat, r: nat, i: nat)
    requires AltsOk(a) && RepOk(rep) && rep.max >= 0 && g == EmitBracket(a) && |code| <= MAX_PATTERN_SIZE
    requires Has(code, p, EmitGroup(g, rep)) && r == p + |EmitGroup(g, rep)|
    ensures Ends(code, s, p, i) == EndsAll(code, s, r, TriesGroup(a, rep.min, rep.max, rep.lazy, s, i))
    decreases a, 5, 0, 0
  {
    if rep.max == 0 {
      SkippedMatches(code, s, a, g, p, r, i);
      assert TriesGroup(a, 0, 0, rep.lazy, s, i) == [i];
    } else {
      CopiesMatch(code, s, a, g, rep.min, rep.max - rep.min, rep.max, rep.lazy, p, r, i);
    }
  }

  lemma {:induction false} BranchMatches(code: seq<byte>, s: seq<byte>, b: Branch, p: nat, r: nat, i: nat)
    requires BranchOk(b) && |code| <= MAX_PATTERN_SIZE && Has(code, p, EmitBranch(b)) && r == p + |EmitBranch(b)|
    ensures Ends(code, s, p, i) == EndsAll(code, s, r, TriesBranch(b, s, i))
    decreases b, 1, 0, 0
  {
    match b
    case Empty => EndsAllOne(code, s, p, i);
    case Then(item, rest) =>
      var q := p + |EmitItem(item)|;
      var xs := TriesItem(item, s, i);
      HasSplit(code, p, EmitItem(item), EmitBranch(rest));
      ItemMatches(code, s, item, p, q, i);
      BranchMatchesAll(code, s, rest, q, r, xs);
      assert TriesBranch(b, s, i) == TriesBranchAll(rest, s, xs);
  }

  lemma {:induction false} BranchMatchesAll(code: seq<byte>, s: seq<byte>, b: Branch, p: nat, r: nat, xs: seq<nat>)
    requires BranchOk(b) && |code| <= MAX_PATTERN_SIZE && Has(code, p, EmitBranch(b)) && r == p + |EmitBranch(b)|
    ensures EndsAll(code, s, p, xs) == EndsAll(code, s, r, TriesBranchAll(b, s, xs))
    decreases b, 2, 0, |xs|
  {
    if xs != [] {
      BranchMatches(code, s, b, p, r, xs[0]);
      BranchMatchesAll(code, s, b, p, r, xs[1..]);
      EndsAllJoin(code, s, r, TriesBranch(b, s, xs[0]), TriesBranchAll(b, s, xs[1..]));
    }
  }

  lemma {:induction false} ItemMatches(code: seq<byte>, s: seq<byte>, it: Item, p: nat, r: nat, i: nat)
    requires ItemOk(it) && |code| <= MAX_PATTERN_SIZE && Has(code, p, EmitItem(it)) && r == p + |EmitItem(it)|
    ensures Ends(code, s, p, i) == EndsAll(code, s, r, TriesItem(it, s, i))
    decreases it, 0, 0, 0
  {
    match it
    case Lit(c, rep) => LitMatches(code, s, c, rep, p, r, i);
    case Group(alts, rep) => GroupMatches(code, s, alts, EmitBracket(alts), rep, p, r, i);
  }

  /** The compiled pattern tries exactly the end positions of the pattern, in the same order. */
  lemma PatternMatches(a: Alts, s: seq<byte>, i: nat)
    requires AltsOk(a) && |EmitPattern(a)| <= MAX_PATTERN_SIZE
    ensures Ends(EmitPattern(a), s, 0, i) == TriesAlts(a, s, i)
  {
    var code := EmitPattern(a);
    HasSlice(code, 0, EmitBracket(a));
    BracketMatches(code, s, a, 0, |code| - 1, i);
    EndRuns(code, s, |code| - 1, TriesAlts(a, s, i));
  }

  lemma {:induction false} EndRuns(code: seq<byte>, s: seq<byte>, p: nat, xs: seq<nat>)
    requires p < |code| && code[p] == OP_END
    ensures EndsAll(code, s, p, xs) == xs
  {
    if xs != [] {
      EndRuns(code, s, p, xs[1..]);
    }
  }
}
