/** The pre-compile pass: how many bytes it reserves, and that the real pass never needs more. */
module PcreSizing {
  import opened PcreSyntax
  import opened PcreCode

  /** Bytes reserved for a quantified group whose code was sized at `len`. */
  function GroupBytes(len: nat, r: Rep): (n: int)
    requires RepOk(r) && r.max >= 0 && len >= 6
    ensures n >= 1
  {
    if r.max == 0 then len + 1 else RepeatBytes(len, r.min, r.max - r.min)
  }

  /** `min` copies, then `opt` nested optional ones. */
  function RepeatBytes(len: nat, min: nat, opt: nat): (n: int)
    requires len >= 6
    ensures n >= 0 && (min + opt > 0 ==> n >= 1)
  {
    MulNat(min, len);
    MulNat(opt, len + 7);
    min * len + (if opt == 0 then 0 else opt * (len + 7) - 6)
  }

  lemma MulNat(a: nat, b: nat)
    ensures a * b >= 0 && (a > 0 ==> a * b >= b)
  {
    if a > 0 {
      assert a * b == (a - 1) * b + b;
      MulMono(0, b, a - 1);
    }
  }

  lemma {:induction false} MulMono(x: nat, y: nat, k: nat)
    requires x <= y
    ensures 0 <= k * x <= k * y
    decreases k
  {
    if k > 0 {
      MulMono(x, y, k - 1);
      assert k * x == (k - 1) * x + x && k * y == (k - 1) * y + y;
    }
  }

  function PreItem(it: Item): nat
    requires ItemOk(it)
    decreases it
  {
    match it
    case Lit(c, rep) => if rep.max == 0 then 2 else |EmitLit(c, rep)|
    case Group(alts, rep) => GroupBytes(PreBracket(alts), rep)
  }

  function PreBranch(b: Branch): nat
    requires BranchOk(b)
    decreases b
  {
    match b
    case Empty => 0
    case Then(item, rest) => PreItem(item) + PreBranch(rest)
  }

  /** The branches with their BRA or ALT heads. */
  function PreAlts(a: Alts): (n: nat)
    requires AltsOk(a)
    ensures n >= 3
    decreases a, 0
  {
    match a
    case One(b) => 3 + PreBranch(b)
    case Or(b, others) => 3 + PreBranch(b) + PreAlts(others)
  }

  function PreBracket(a: Alts): (n: nat)
    requires AltsOk(a)
    ensures n >= 6
    decreases a, 1
  {
    PreAlts(a) + 3
  }

  /** The length the pre-compile pass ends with, the final OP_END included. */
  function PrePattern(a: Alts): nat
    requires AltsOk(a)
  {
    1 + PreBracket(a)
  }

  // ---------------------------------------------------------------- literals repeated {0}

  predicate ZeroFreeAlts(a: Alts) {
    match a
    case One(b) => ZeroFreeBranch(b)
    case Or(b, others) => ZeroFreeBranch(b) && ZeroFreeAlts(others)
  }

  predicate ZeroFreeBranch(b: Branch) {
    match b
    case Empty => true
    case Then(item, rest) => ZeroFreeItem(item) && ZeroFreeBranch(rest)
  }

  predicate ZeroFreeItem(it: Item) {
    match it
    case Lit(_, rep) => rep.max != 0
    case Group(alts, _) => ZeroFreeAlts(alts)
  }

  // ---------------------------------------------------------------- the bound

  lemma {:induction false} CopiesSize(g: seq<byte>, n: nat)
    ensures |Copies(g, n)| == n * |g|
  {
    if n > 0 {
      CopiesSize(g, n - 1);
      assert n * |g| == (n - 1) * |g| + |g|;
    }
  }

  lemma {:induction false} NestedSize(g: seq<byte>, n: nat, lazy: bool)
    ensures n > 0 ==> |Nested(g, n, lazy)| == n * (|g| + 7) - 6
    ensures n == 0 ==> |Nested(g, n, lazy)| == 0
  {
    if n > 1 {
      NestedSize(g, n - 1, lazy);
      assert n * (|g| + 7) == (n - 1) * (|g| + 7) + (|g| + 7);
    }
  }

  lemma GroupSize(g: seq<byte>, len: nat, r: Rep)
    requires RepOk(r) && r.max >= 0 && 6 <= |g| <= len
    ensures |EmitGroup(g, r)| <= GroupBytes(len, r)
    ensures |g| == len <==> |EmitGroup(g, r)| == GroupBytes(len, r)
  {
    if r.max > 0 {
      var opt := r.max - r.min;
      CopiesSize(g, r.min);
      NestedSize(g, opt, r.lazy);
      MulGrows(|g|, len, r.min);
      MulGrows(|g| + 7, len + 7, opt);
    }
  }

  lemma MulGrows(x: nat, y: nat, k: nat)
    requires x <= y
    ensures k * x <= k * y && (k > 0 && x < y ==> k * x < k * y)
  {
    MulMono(x, y, k);
    if k > 0 && x < y {
      MulMono(x, y, k - 1);
      assert k * x == (k - 1) * x + x && k * y == (k - 1) * y + y;
    }
  }

  lemma {:induction false} ItemSize(it: Item)
    requires ItemOk(it)
    ensures |EmitItem(it)| <= PreItem(it)
    ensures ZeroFreeItem(it) <==> |EmitItem(it)| == PreItem(it)
    decreases it
  {
    match it
    case Lit(c, rep) =>
    case Group(alts, rep) =>
      BracketSize(alts);
      GroupSize(EmitBracket(alts), PreBracket(alts), rep);
  }

  lemma {:induction false} BranchSize(b: Branch)
    requires BranchOk(b)
    ensures |EmitBranch(b)| <= PreBranch(b)
    ensures ZeroFreeBranch(b) <==> |EmitBranch(b)| == PreBranch(b)
    decreases b
  {
    match b
    case Empty =>
    case Then(item, rest) =>
      ItemSize(item);
      BranchSize(rest);
  }

  lemma {:induction false} AltsSize(op: byte, a: Alts)
    requires AltsOk(a)
    ensures 3 <= |EmitAlts(op, a)| <= PreAlts(a)
    ensures ZeroFreeAlts(a) <==> |EmitAlts(op, a)| == PreAlts(a)
    decreases a, 0
  {
    match a
    case One(b) => BranchSize(b);
    case Or(b, others) =>
      BranchSize(b);
      AltsSize(OP_ALT, others);
  }

  lemma {:induction false} BracketSize(a: Alts)
    requires AltsOk(a)
    ensures 6 <= |EmitBracket(a)| <= PreBracket(a)
    ensures ZeroFreeAlts(a) <==> |EmitBracket(a)| == PreBracket(a)
    decreases a, 1
  {
    AltsSize(OP_BRA, a);
  }

  /**
   * The real pass never writes more than the pre-compile pass reserved, and exactly that iff no literal is repeated
   * {0}.
   */
  lemma TwoPassSizing(a: Alts)
    requires AltsOk(a)
    ensures |EmitPattern(a)| <= PrePattern(a)
    ensures ZeroFreeAlts(a) <==> |EmitPattern(a)| == PrePattern(a)
  {
    BracketSize(a);
  }

  // ---------------------------------------------------------------- the pre-compile pass itself

  /** Length in bytes of what replaces a literal when its quantifier is read; `code` and `previous` as in the source. */
  method PreQuantifyLit(previous: int, oldCode: int, r: Rep) returns (code: int)
    requires RepOk(r) && oldCode == previous + 2
    ensures code == previous + |EmitLit(0, r)|
  {
    code := previous;
    if r.max == 0 {
      return;
    }
    if r.min == 0 {
      code := code + 1;
      if r.max != -1 && r.max != 1 {
        code := code + 2;
      }
    } else if r.min == 1 {
      if r.max == -1 {
        code := code + 1;
      } else {
        code := oldCode;
        if r.max == 1 {
          return;
        }
        code := code + 3;
      }
    } else {
      code := code + 3;
      if r.max < 0 {
        code := code + 2;
      } else if r.max != r.min {
        code := code + (if r.max - r.min == 1 then 2 else 4);
      }
    }
    code := code + 1;
  }

  /** Adjustment of the code pointer and of the length when a group's quantifier is read. */
  method PreQuantifyGroup(code0: int, length0: int, len: nat, r: Rep) returns (code: int, length: int)
    requires RepOk(r) && r.max >= 0 && len >= 6
    ensures length + code == length0 + code0 + GroupBytes(len, r) - len && code >= code0
  {
    code, length := code0, length0;
    var max := r.max;
    var bralink := false;
    if r.min == 0 {
      if max <= 1 {
        code := code + 1;
        if max == 0 {
          return;
        }
      } else {
        code := code + 2 + LINK;
        bralink := true;
      }
      max := max - 1;
    } else {
      if r.min > 1 {
        length := length + (r.min - 1) * len;
        assert r.min * len == (r.min - 1) * len + len;
      }
      max := max - r.min;
    }
    if max > 0 {
      length := length + max * (len + 1 + 2 + 2 * LINK) - 2 - 2 * LINK;
      assert (max + 1) * (len + 7) == max * (len + 7) + (len + 7);
    }
    if bralink {
      code := code + 1 + LINK;
    }
  }

  /** The bookkeeping at the head of the source's loop: count what the last round emitted, then reuse the workspace. */
  method Settle(code0: int, last0: int, previous0: int, length0: int)
    returns (code: int, last: int, previous: int, length: int)
    requires 0 <= previous0 <= code0 || previous0 == -1
    ensures length == length0 + (if code0 < last0 then 0 else code0 - last0)
    ensures last == code && (previous0 == -1 ==> previous == -1 && code == 0)
    ensures previous0 != -1 ==> previous == 0 && code == (if code0 < last0 then last0 else code0) - previous0
  {
    code, previous := code0, previous0;
    if code < last0 {
      code := last0;
    }
    length := length0 + code - last0;
    if previous >= 0 {
      code := code - previous;
      previous := 0;
    } else {
      code := 0;
    }
    last := code;
  }

  /** One item: its opcode, then its quantifier. `code - last` is still to be counted when it returns. */
  method PreItemPass(it: Item, code0: int, last0: int, previous0: int, length0: int)
    returns (code: int, last: int, previous: int, length: int)
    requires ItemOk(it) && code0 >= 0 && (0 <= previous0 <= code0 || previous0 == -1)
    ensures length + (if code < last then 0 else code - last)
            == length0 + (if code0 < last0 then 0 else code0 - last0) + PreItem(it)
    ensures code >= 0 && previous == -1
    decreases it, 2
  {
    code, last, previous, length := Settle(code0, last0, previous0, length0);
    previous := code;
    match it {
      case Lit(c, rep) =>
        code := code + 2;
        code, last, previous, length := Settle(code, last, previous, length);
        code := PreQuantifyLit(previous, code, rep);
      case Group(alts, rep) =>
        var len := PreBracketPass(alts);
        length := length + (len - 6);
        code := code + 6;
        code, last, previous, length := Settle(code, last, previous, length);
        code, length := PreQuantifyGroup(code, length, len, rep);
    }
    previous := -1;
  }

  method PreBranchPass(b: Branch) returns (length: int)
    requires BranchOk(b)
    ensures length == PreBranch(b)
    decreases b, 3
  {
    length := 0;
    var code, last, previous := 0, 0, -1;
    var rest := b;
    while rest.Then?
      invariant BranchOk(rest) && code >= 0 && previous == -1
      invariant length + (if code < last then 0 else code - last) + PreBranch(rest) == PreBranch(b)
      invariant rest == b || rest < b
      decreases rest
    {
      code, last, previous, length := PreItemPass(rest.item, code, last, previous, length);
      rest := rest.rest;
    }
    code, last, previous, length := Settle(code, last, previous, length);
    length := length + (code - last);
  }

  /** `compile_regex` in the pre-compile phase: heads, branches, KET. */
  method PreBracketPass(a: Alts) returns (length: int)
    requires AltsOk(a)
    ensures length == PreBracket(a)
    decreases a, 4
  {
    length := 2 + 2 * LINK;
    var rest := a;
    while true
      invariant AltsOk(rest) && length + PreAlts(rest) - 3 == PreBracket(a)
      invariant rest == a || rest < a
      decreases rest
    {
      var n := PreBranchPass(rest.branch);
      length := length + n;
      if rest.One? {
        return;
      }
      length := length + 1 + LINK;
      rest := rest.others;
    }
  }
}
