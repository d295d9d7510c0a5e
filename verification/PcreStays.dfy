/** Running emitted code never leads out of it: every opcode, link, count and literal the matcher reads is inside. */
module PcreStays {
  import opened PcreSyntax
  import opened PcreCode
  import opened PcreRun
  import opened PcreProofs

  /** Whatever the subject, running from `pc` reads only bytes of `code` and knows every opcode it meets. */
  predicate Stays(code: seq<byte>, pc: nat)
    decreases |code| - pc, 1
  {
    pc < |code|
    && var op := code[pc];
       if op == OP_END then true
       else if op == OP_CHAR then Stays(code, pc + 2)
       else if IsRepeat(op) then Stays(code, pc + BoundsAt(code, pc).skip + 1)
       else if op == OP_BRA then StaysAlts(code, pc)
       else if op == OP_ALT then Stays(code, KetOf(code, pc))
       else if op == OP_KET then Stays(code, pc + 1 + LINK)
       else if op == OP_BRAZERO || op == OP_BRAMINZERO then
         Stays(code, pc + 1) && Stays(code, KetOf(code, pc + 1) + 1 + LINK)
       else op == OP_SKIPZERO && Stays(code, KetOf(code, pc + 1) + 1 + LINK)
  }

  predicate StaysAlts(code: seq<byte>, pc: nat)
    decreases |code| - pc, 0
  {
    pc + 2 < |code|
    && var n := pc + Link(code, pc);
       pc < n < |code| && Stays(code, pc + 1 + LINK) && (code[n] == OP_ALT ==> StaysAlts(code, n))
  }

  lemma ShortStays(code: seq<byte>, p: nat, op: byte, c: byte)
    requires (op == OP_CHAR || OP_STAR <= op < OP_UPTO) && Has(code, p, [op, c]) && Stays(code, p + 2)
    ensures Stays(code, p)
  {
    HasAt(code, p, [op, c], 0);
  }

  lemma CountedStays(code: seq<byte>, p: nat, op: byte, n: nat, c: byte)
    requires OP_UPTO <= op <= OP_EXACT && Has(code, p, [op] + Two(n) + [c]) && Stays(code, p + 4)
    ensures Stays(code, p)
  {
    HasAt(code, p, [op] + Two(n) + [c], 0);
  }

  lemma OptionalRestStays(code: seq<byte>, c: byte, max: int, lazy: bool, q: nat)
    requires (max == -1 || 0 <= max <= MAX_REPEAT) && Has(code, q, OptionalRest(c, max, lazy))
    requires Stays(code, q + |OptionalRest(c, max, lazy)|)
    ensures Stays(code, q)
  {
    if max == -1 {
      ShortStays(code, q, Twin(OP_STAR, lazy), c);
    } else if max == 1 {
      ShortStays(code, q, Twin(OP_QUERY, lazy), c);
    } else if max > 1 {
      CountedStays(code, q, Twin(OP_UPTO, lazy), max, c);
    }
  }

  lemma OnceStays(code: seq<byte>, c: byte, rep: Rep, p: nat)
    requires RepOk(rep) && rep.min == 1 && Has(code, p, EmitLit(c, rep)) && Stays(code, p + |EmitLit(c, rep)|)
    ensures Stays(code, p)
  {
    if rep.max == -1 {
      ShortStays(code, p, Twin(OP_PLUS, rep.lazy), c);
    } else if rep.max == 1 {
      ShortStays(code, p, OP_CHAR, c);
    } else {
      HasSplit(code, p, [OP_CHAR, c], UpTo(c, rep.max - 1, rep.lazy));
      CountedStays(code, p + 2, Twin(OP_UPTO, rep.lazy), rep.max - 1, c);
      ShortStays(code, p, OP_CHAR, c);
    }
  }

  lemma LitStays(code: seq<byte>, c: byte, rep: Rep, p: nat)
    requires RepOk(rep) && Has(code, p, EmitLit(c, rep)) && Stays(code, p + |EmitLit(c, rep)|)
    ensures Stays(code, p)
  {
    if rep.max != 0 {
      if rep.min == 0 {
        OptionalRestStays(code, c, rep.max, rep.lazy, p);
      } else if rep.min == 1 {
        OnceStays(code, c, rep, p);
      } else {
        var left := if rep.max == -1 then -1 else rep.max - rep.min;
        ExactParts(code, c, rep, left, p, p + |EmitLit(c, rep)|);
        OptionalRestStays(code, c, left, rep.lazy, p + 4);
        CountedStays(code, p, OP_EXACT, rep.min, c);
      }
    }
  }

  lemma KetStays(code: seq<byte>, p: nat)
    requires p < |code| && code[p] == OP_KET && Stays(code, p + 3)
    ensures Stays(code, p)
  {
  }

  /** The end of a branch: the KET itself, or an ALT that leads there. */
  lemma BranchEndStays(code: seq<byte>, p: nat, ket: nat)
    requires p < |code| && ket < |code| && code[ket] == OP_KET
             && (p == ket || (code[p] == OP_ALT && KetOf(code, p) == ket))
    requires Stays(code, ket + 3)
    ensures Stays(code, p)
  {
    KetStays(code, ket);
  }

  lemma {:induction false} AltsStay(code: seq<byte>, op: byte, a: Alts, p: nat, ket: nat)
    requires AltsOk(a) && |code| <= MAX_PATTERN_SIZE && Has(code, p, EmitAlts(op, a))
    requires ket == p + |EmitAlts(op, a)| < |code| && code[ket] == OP_KET && Stays(code, ket + 3)
    ensures StaysAlts(code, p)
    decreases a, 0
  {
    var eb := EmitBranch(a.branch);
    if a.One? {
      EmitOneAt(code, op, eb, p);
      BranchEndStays(code, ket, ket);
      BranchStays(code, a.branch, p + 3, ket);
    } else {
      var q := p + 3 + |eb|;
      OrParts(code, op, a, p, q, ket);
      AltsStay(code, OP_ALT, a.others, q, ket);
      EmitOneAt(code, op, eb, p);
      BranchEndStays(code, q, ket);
      BranchStays(code, a.branch, p + 3, q);
    }
  }

  lemma {:induction false} BracketStays(code: seq<byte>, a: Alts, p: nat, r: nat)
    requires AltsOk(a) && |code| <= MAX_PATTERN_SIZE && Has(code, p, EmitBracket(a)) && r == p + |EmitBracket(a)|
    requires Stays(code, r)
    ensures Stays(code, p) && KetOf(code, p) + 3 == r
    decreases a, 1
  {
    var body := EmitAlts(OP_BRA, a);
    var ket := p + |body|;
    assert EmitBracket(a) == body + ([OP_KET] + Two(|body|));
    HasSplit(code, p, body, [OP_KET] + Two(|body|));
    HasAt(code, ket, [OP_KET] + Two(|body|), 0);
    LinksLeadToKet(code, OP_BRA, a, p, ket);
    AltsStay(code, OP_BRA, a, p, ket);
  }

  lemma OptionalStays(code: seq<byte>, op: byte, p: nat, r: nat)
    requires p < |code| && code[p] == op && op in {OP_BRAZERO, OP_BRAMINZERO} && KetOf(code, p + 1) + 3 == r
    requires Stays(code, p + 1) && Stays(code, r)
    ensures Stays(code, p)
  {
  }

  lemma {:induction false} NestedStays(code: seq<byte>, a: Alts, g: seq<byte>, n: nat, lazy: bool, p: nat, r: nat)
    requires AltsOk(a) && g == EmitBracket(a) && |code| <= MAX_PATTERN_SIZE
    requires Has(code, p, Nested(g, n, lazy)) && r == p + |Nested(g, n, lazy)| && Stays(code, r)
    ensures Stays(code, p)
    decreases a, 3, n, 0
  {
    if n == 1 {
      assert Nested(g, 1, lazy) == [Twin(OP_BRAZERO, lazy)] + g;
      LastStays(code, a, g, lazy, p, r);
    } else if n > 1 {
      DeeperStays(code, a, g, n, lazy, p, r);
    }
  }

  /** An optional copy with others nested in it. */
  lemma {:induction false} DeeperStays(code: seq<byte>, a: Alts, g: seq<byte>, n: nat, lazy: bool, p: nat, r: nat)
    requires AltsOk(a) && g == EmitBracket(a) && |code| <= MAX_PATTERN_SIZE && n > 1
    requires Has(code, p, Nested(g, n, lazy)) && r == p + |Nested(g, n, lazy)| && Stays(code, r)
    ensures Stays(code, p)
    decreases a, 3, n - 1, 2
  {
    NestedParts(code, [], g, n, lazy, p, r, 0);
    var q := p + 4 + |g|;
    CopyStays(code, a, g, n - 1, lazy, p + 4, q, r - 3);
    OuterStays(code, lazy, p, r);
  }

  lemma {:induction false} LastStays(code: seq<byte>, a: Alts, g: seq<byte>, lazy: bool, p: nat, r: nat)
    requires AltsOk(a) && g == EmitBracket(a) && |code| <= MAX_PATTERN_SIZE
    requires Has(code, p, [Twin(OP_BRAZERO, lazy)] + g) && r == p + 1 + |g| && Stays(code, r)
    ensures Stays(code, p)
    decreases a, 2
  {
    HasSplit(code, p, [Twin(OP_BRAZERO, lazy)], g);
    HasAt(code, p, [Twin(OP_BRAZERO, lazy)], 0);
    BracketStays(code, a, p + 1, r);
    OptionalStays(code, Twin(OP_BRAZERO, lazy), p, r);
  }

  lemma OuterStays(code: seq<byte>, lazy: bool, p: nat, r: nat)
    requires p + 4 < r - 3 < |code| && code[p] == Twin(OP_BRAZERO, lazy) && KetOf(code, p + 1) + 3 == r
    requires code[p + 1] == OP_BRA && Link(code, p + 1) == r - 4 - p && code[r - 3] == OP_KET
    requires Stays(code, p + 4) && Stays(code, r)
    ensures Stays(code, p)
  {
    WrapperStays(code, p + 1, r - 3);
    OptionalStays(code, Twin(OP_BRAZERO, lazy), p, r);
  }

  /** A copy and the copies nested in it, up to their KET. */
  lemma {:induction false} CopyStays(code: seq<byte>, a: Alts, g: seq<byte>, n: nat, lazy: bool, p: nat, q: nat,
                                     ket: nat)
    requires AltsOk(a) && g == EmitBracket(a) && |code| <= MAX_PATTERN_SIZE
    requires Has(code, p, g) && q == p + |g| && Has(code, q, Nested(g, n, lazy)) && ket == q + |Nested(g, n, lazy)|
    requires ket < |code| && code[ket] == OP_KET && Stays(code, ket + 3)
    ensures Stays(code, p)
    decreases a, 3, n, 1
  {
    KetStays(code, ket);
    NestedStays(code, a, g, n, lazy, q, ket);
    BracketStays(code, a, p, q);
  }

  /** A bracket with one alternative. */
  lemma WrapperStays(code: seq<byte>, p: nat, ket: nat)
    requires p + 2 < |code| && code[p] == OP_BRA && p + Link(code, p) == ket && p < ket < |code| && code[ket] == OP_KET
    requires Stays(code, p + 3)
    ensures Stays(code, p)
  {
  }

  lemma {:induction false} CopiesStay(code: seq<byte>, a: Alts, g: seq<byte>, min: nat, n: nat, lazy: bool, p: nat,
                                      r: nat)
    requires AltsOk(a) && g == EmitBracket(a) && |code| <= MAX_PATTERN_SIZE
    requires Has(code, p, Copies(g, min) + Nested(g, n, lazy)) && r == p + |Copies(g, min)| + |Nested(g, n, lazy)|
    requires Stays(code, r)
    ensures Stays(code, p)
    decreases a, 4, min
  {
    if min == 0 {
      NoCopies(g, n, lazy);
      NestedStays(code, a, g, n, lazy, p, r);
    } else {
      var q := p + |g|;
      CopiesParts(code, g, min, n, lazy, p);
      assert r == q + |Copies(g, min - 1)| + |Nested(g, n, lazy)|;
      CopiesStay(code, a, g, min - 1, n, lazy, q, r);
      BracketStays(code, a, p, q);
    }
  }

  lemma {:induction false} SkippedStays(code: seq<byte>, a: Alts, g: seq<byte>, p: nat, r: nat)
    requires AltsOk(a) && g == EmitBracket(a) && |code| <= MAX_PATTERN_SIZE
    requires Has(code, p, [OP_SKIPZERO] + g) && r == p + 1 + |g| && Stays(code, r)
    ensures Stays(code, p)
    decreases a, 2
  {
    HasSplit(code, p, [OP_SKIPZERO], g);
    HasAt(code, p, [OP_SKIPZERO], 0);
    BracketStays(code, a, p + 1, r);
  }

  lemma {:induction false} ItemStays(code: seq<byte>, it: Item, p: nat)
    requires ItemOk(it) && |code| <= MAX_PATTERN_SIZE && Has(code, p, EmitItem(it)) && Stays(code, p + |EmitItem(it)|)
    ensures Stays(code, p)
    decreases it
  {
    match it
    case Lit(c, rep) => LitStays(code, c, rep, p);
    case Group(alts, rep) =>
      var g := EmitBracket(alts);
      if rep.max == 0 {
        SkippedStays(code, alts, g, p, p + |EmitItem(it)|);
      } else {
        CopiesStay(code, alts, g, rep.min, rep.max - rep.min, rep.lazy, p, p + |EmitItem(it)|);
      }
  }

  lemma {:induction false} BranchStays(code: seq<byte>, b: Branch, p: nat, r: nat)
    requires BranchOk(b) && |code| <= MAX_PATTERN_SIZE && Has(code, p, EmitBranch(b)) && r == p + |EmitBranch(b)|
    requires Stays(code, r)
    ensures Stays(code, p)
    decreases b
  {
    if b.Then? {
      HasSplit(code, p, EmitItem(b.item), EmitBranch(b.rest));
      BranchStays(code, b.rest, p + |EmitItem(b.item)|, r);
      ItemStays(code, b.item, p);
    }
  }

  /** The matcher, started on a compiled pattern, stays inside it. */
  lemma PatternStays(a: Alts)
    requires AltsOk(a) && |EmitPattern(a)| <= MAX_PATTERN_SIZE
    ensures Stays(EmitPattern(a), 0)
  {
    var code := EmitPattern(a);
    HasSlice(code, 0, code);
    HasSplit(code, 0, EmitBracket(a), [OP_END]);
    HasAt(code, |EmitBracket(a)|, [OP_END], 0);
    BracketStays(code, a, 0, |EmitBracket(a)|);
  }
}
