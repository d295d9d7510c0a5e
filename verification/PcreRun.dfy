/** What the matcher tries when it runs compiled code: all end positions, in order. */
module PcreRun {
  import opened PcreSyntax
  import opened PcreCode

  /** GET at `pc + 1`. */
  function Link(code: seq<byte>, pc: nat): nat
    requires pc + 2 < |code|
  {
    code[pc + 1] as int * 256 + code[pc + 2] as int
  }

  /** Follow the links of the alternatives to the KET; past the end if the code is malformed. */
  function KetOf(code: seq<byte>, pc: nat): (k: nat)
    ensures k > pc
    decreases |code| - pc
  {
    if pc + 2 >= |code| || Link(code, pc) == 0 then pc + |code| + 1
    else
      var n := pc + Link(code, pc);
      if n < |code| && code[n] == OP_ALT then KetOf(code, n) else n
  }

  /** How many bytes `c` follow from `i`, counting no further than `max` (-1: no bound). */
  function RunLength(c: byte, max: int, s: seq<byte>, i: nat): nat
    decreases |s| - i
  {
    if max != 0 && i < |s| && s[i] == c
    then 1 + RunLength(c, if max == -1 then -1 else max - 1, s, i + 1)
    else 0
  }

  function Upward(lo: nat, hi: int): seq<nat>
    decreases hi - lo
  {
    if lo > hi then [] else [lo] + Upward(lo + 1, hi)
  }

  function Downward(lo: nat, hi: int): seq<nat>
    decreases hi - lo
  {
    if lo > hi then [] else [hi] + Downward(lo, hi - 1)
  }

  function Range(lo: nat, hi: int, lazy: bool): seq<nat> {
    if lazy then Upward(lo, hi) else Downward(lo, hi)
  }

  /** Positions a repeated literal stops at: from the fewest up when lazy, from the most down when greedy. */
  function Stops(c: byte, min: nat, max: int, lazy: bool, s: seq<byte>, i: nat): seq<nat> {
    Range(i + min, i + RunLength(c, max, s, i), lazy)
  }

  /** Number of bytes of a repeated-literal opcode before its character, with its bounds. */
  datatype Bounds = Bounds(min: nat, max: int, lazy: bool, skip: nat)

  function BoundsAt(code: seq<byte>, pc: nat): (r: Bounds)
    requires pc < |code|
    ensures r.skip == 1 || r.skip == 3
  {
    var op := code[pc];
    if op == OP_STAR || op == OP_STAR + 1 then Bounds(0, -1, op == OP_STAR + 1, 1)
    else if op == OP_PLUS || op == OP_PLUS + 1 then Bounds(1, -1, op == OP_PLUS + 1, 1)
    else if op == OP_QUERY || op == OP_QUERY + 1 then Bounds(0, 1, op == OP_QUERY + 1, 1)
    else
      var n := if pc + 2 < |code| then Link(code, pc) else 0;
      Bounds(if op == OP_EXACT then n else 0, n, op == OP_UPTO + 1, 3)
  }

  predicate IsRepeat(op: byte) {
    OP_STAR <= op <= OP_EXACT
  }

  function Ends(code: seq<byte>, s: seq<byte>, pc: nat, i: nat): seq<nat>
    decreases |code| - pc, 1, 0
  {
    if pc >= |code| then []
    else
      var op := code[pc];
      if op == OP_END then [i]
      else if op == OP_CHAR then
        if pc + 1 < |code| && i < |s| && s[i] == code[pc + 1] then Ends(code, s, pc + 2, i + 1) else []
      else if IsRepeat(op) then
        var b := BoundsAt(code, pc);
        if pc + b.skip < |code|
        then EndsAll(code, s, pc + b.skip + 1, Stops(code[pc + b.skip], b.min, b.max, b.lazy, s, i))
        else []
      else if op == OP_BRA then EndsAlts(code, s, pc, i)
      else if op == OP_ALT then Ends(code, s, KetOf(code, pc), i)
      else if op == OP_KET then Ends(code, s, pc + 1 + LINK, i)
      else if op == OP_BRAZERO then
        Ends(code, s, pc + 1, i) + Ends(code, s, KetOf(code, pc + 1) + 1 + LINK, i)
      else if op == OP_BRAMINZERO then
        Ends(code, s, KetOf(code, pc + 1) + 1 + LINK, i) + Ends(code, s, pc + 1, i)
      else if op == OP_SKIPZERO then Ends(code, s, KetOf(code, pc + 1) + 1 + LINK, i)
      else []
  }

  /** The alternatives from the head at `pc` on. */
  function EndsAlts(code: seq<byte>, s: seq<byte>, pc: nat, i: nat): seq<nat>
    decreases |code| - pc, 0, 0
  {
    if pc + 2 >= |code| then []
    else
      var n := pc + Link(code, pc);
      var here := Ends(code, s, pc + 1 + LINK, i);
      if n > pc && n < |code| && code[n] == OP_ALT then here + EndsAlts(code, s, n, i) else here
  }

  /** Going on from each of the positions `xs`, in turn. */
  function EndsAll(code: seq<byte>, s: seq<byte>, pc: nat, xs: seq<nat>): seq<nat>
    decreases |code| - pc, 2, |xs|
  {
    if xs == [] then [] else Ends(code, s, pc, xs[0]) + EndsAll(code, s, pc, xs[1..])
  }
}
