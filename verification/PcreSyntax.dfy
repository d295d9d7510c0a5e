/** The pattern fragment: one-byte literals, alternation, non-capturing groups, greedy and lazy quantifiers. */
module PcreSyntax {

  type byte = b: int | 0 <= b < 256

  /** {min,max}; `max` is -1 for no upper bound. An item without a quantifier is {1,1}. */
  datatype Rep = Rep(min: int, max: int, lazy: bool)

  datatype Alts = One(branch: Branch) | Or(branch: Branch, others: Alts)
  datatype Branch = Empty | Then(item: Item, rest: Branch)
  datatype Item = Lit(c: byte, rep: Rep) | Group(alts: Alts, rep: Rep)

  const MAX_REPEAT: int := 65535

  /** What `read_repeat_counts` accepts. */
  predicate RepOk(r: Rep) {
    0 <= r.min <= MAX_REPEAT && (r.max == -1 || r.min <= r.max <= MAX_REPEAT)
  }

  /** Counts are in range, and groups are repeated a bounded number of times. */
  predicate AltsOk(a: Alts) {
    match a
    case One(b) => BranchOk(b)
    case Or(b, others) => BranchOk(b) && AltsOk(others)
  }

  predicate BranchOk(b: Branch) {
    match b
    case Empty => true
    case Then(item, rest) => ItemOk(item) && BranchOk(rest)
  }

  predicate ItemOk(it: Item) {
    match it
    case Lit(_, rep) => RepOk(rep)
    case Group(alts, rep) => AltsOk(alts) && RepOk(rep) && rep.max >= 0
  }
}

/** Opcodes and the code a pattern compiles to. */
module PcreCode {
  import opened PcreSyntax

  const OP_END: byte := 0
  const OP_CHAR: byte := 28
  const OP_STAR: byte := 31   // each opcode up to OP_UPTO is followed by its lazy twin
  const OP_PLUS: byte := 33
  const OP_QUERY: byte := 35
  const OP_UPTO: byte := 37
  const OP_EXACT: byte := 39
  const OP_ALT: byte := 84
  const OP_KET: byte := 85
  const OP_BRA: byte := 94
  const OP_BRAZERO: byte := 105
  const OP_BRAMINZERO: byte := 106
  const OP_SKIPZERO: byte := 118

  const LINK: int := 2                 // LINK_SIZE
  const MAX_PATTERN_SIZE: int := 65536

  /** PUT and PUT2: a number in two bytes, high byte first, truncated to 16 bits. */
  function Two(n: int): (r: seq<byte>)
    requires n >= 0
    ensures |r| == 2
    ensures n < 65536 ==> r[0] as int * 256 + r[1] as int == n
  {
    [n / 256 % 256, n % 256]
  }

  function Twin(op: byte, lazy: bool): byte
    requires op < 255
  {
    if lazy then op + 1 else op
  }

  /** UPTO, preceded by nothing: the item and its count. */
  function UpTo(c: byte, n: int, lazy: bool): seq<byte>
    requires n >= 0
  {
    [Twin(OP_UPTO, lazy)] + Two(n) + [c]
  }

  /** A quantified literal. */
  function EmitLit(c: byte, r: Rep): seq<byte>
    requires RepOk(r)
  {
    if r.max == 0 then []
    else if r.min == 0 then
      if r.max == -1 then [Twin(OP_STAR, r.lazy), c]
      else if r.max == 1 then [Twin(OP_QUERY, r.lazy), c]
      else UpTo(c, r.max, r.lazy)
    else if r.min == 1 then
      if r.max == -1 then [Twin(OP_PLUS, r.lazy), c]
      else if r.max == 1 then [OP_CHAR, c]
      else [OP_CHAR, c] + UpTo(c, r.max - 1, r.lazy)
    else
      [OP_EXACT] + Two(r.min) + [c]
      + (if r.max == -1 then [Twin(OP_STAR, r.lazy), c]
         else if r.max == r.min then []
         else if r.max - r.min == 1 then [Twin(OP_QUERY, r.lazy), c]
         else UpTo(c, r.max - r.min, r.lazy))
  }

  function Copies(g: seq<byte>, n: nat): seq<byte> {
    if n == 0 then [] else g + Copies(g, n - 1)
  }

  /** `n` optional copies of `g`, each nested in the one before. */
  function Nested(g: seq<byte>, n: nat, lazy: bool): seq<byte> {
    if n == 0 then []
    else if n == 1 then [Twin(OP_BRAZERO, lazy)] + g
    else
      var inner := g + Nested(g, n - 1, lazy);
      [Twin(OP_BRAZERO, lazy), OP_BRA] + Two(1 + LINK + |inner|) + inner + [OP_KET] + Two(1 + LINK + |inner|)
  }

  /** A quantified group with code `g`. */
  function EmitGroup(g: seq<byte>, r: Rep): seq<byte>
    requires RepOk(r) && r.max >= 0
  {
    if r.max == 0 then [OP_SKIPZERO] + g
    else Copies(g, r.min) + Nested(g, r.max - r.min, r.lazy)
  }

  function EmitItem(it: Item): seq<byte>
    requires ItemOk(it)
  {
    match it
    case Lit(c, rep) => EmitLit(c, rep)
    case Group(alts, rep) => EmitGroup(EmitBracket(alts), rep)
  }

  function EmitBranch(b: Branch): seq<byte>
    requires BranchOk(b)
  {
    match b
    case Empty => []
    case Then(item, rest) => EmitItem(item) + EmitBranch(rest)
  }

  /** The alternatives, the first one headed by `op`; each head links to the next one or to the KET. */
  function EmitAlts(op: byte, a: Alts): seq<byte>
    requires AltsOk(a)
    decreases a, 0
  {
    match a
    case One(b) => [op] + Two(1 + LINK + |EmitBranch(b)|) + EmitBranch(b)
    case Or(b, others) => [op] + Two(1 + LINK + |EmitBranch(b)|) + EmitBranch(b) + EmitAlts(OP_ALT, others)
  }

  function EmitBracket(a: Alts): seq<byte>
    requires AltsOk(a)
    decreases a, 1
  {
    var body := EmitAlts(OP_BRA, a);
    body + [OP_KET] + Two(|body|)
  }

  /** The codes of a quantified literal, one for each way of writing it. */
  lemma LiteralCodes(c: byte)
    ensures EmitLit(c, Rep(1, 1, false)) == [28, c] && EmitLit(c, Rep(0, 0, false)) == []
    ensures EmitLit(c, Rep(0, -1, false)) == [31, c] && EmitLit(c, Rep(0, -1, true)) == [32, c]
    ensures EmitLit(c, Rep(1, -1, false)) == [33, c] && EmitLit(c, Rep(1, -1, true)) == [34, c]
    ensures EmitLit(c, Rep(0, 1, false)) == [35, c] && EmitLit(c, Rep(0, 1, true)) == [36, c]
    ensures EmitLit(c, Rep(0, 5, false)) == [37, 0, 5, c] && EmitLit(c, Rep(1, 5, true)) == [28, c, 38, 0, 4, c]
    ensures EmitLit(c, Rep(300, 300, false)) == [39, 1, 44, c]
    ensures EmitLit(c, Rep(3, -1, false)) == [39, 0, 3, c, 31, c]
    ensures EmitLit(c, Rep(3, 4, true)) == [39, 0, 3, c, 36, c]
    ensures EmitLit(c, Rep(3, 8, false)) == [39, 0, 3, c, 37, 0, 5, c]
  {
  }

  /** The codes of a quantified group `g`. */
  lemma GroupCodes(g: seq<byte>)
    ensures EmitGroup(g, Rep(0, 0, false)) == [118] + g && EmitGroup(g, Rep(1, 1, false)) == g
    ensures EmitGroup(g, Rep(0, 1, false)) == [105] + g && EmitGroup(g, Rep(0, 1, true)) == [106] + g
    ensures EmitGroup(g, Rep(2, 2, false)) == g + g && EmitGroup(g, Rep(1, 2, false)) == g + [105] + g
    ensures var inner := g + ([105] + g);
            EmitGroup(g, Rep(0, 2, false)) == [105, 94] + Two(3 + |inner|) + inner + [85] + Two(3 + |inner|)
  {
    assert Copies(g, 0) == [] && Copies(g, 1) == g + [] == g && Copies(g, 2) == g + Copies(g, 1);
    assert Nested(g, 0, false) == [] && Nested(g, 1, false) == [105] + g && Nested(g, 1, true) == [106] + g;
  }

  /** The whole pattern. */
  function EmitPattern(a: Alts): seq<byte>
    requires AltsOk(a)
  {
    EmitBracket(a) + [OP_END]
  }
}
