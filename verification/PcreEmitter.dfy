/** The real compile pass: one buffer of the reserved size, a moving code pointer, links patched in place. */
module PcreEmitter {
  import opened PcreSyntax
  import opened PcreCode
  import opened PcreSizing

  /** An optional copy whose bracket is still open; `link` holds the chain to the bracket open before. */
  function Open(g: seq<byte>, link: nat, lazy: bool): seq<byte> {
    [Twin(OP_BRAZERO, lazy), OP_BRA] + Two(link) + g
  }

  /** Bytes of `k` open copies of a group of `len` bytes. */
  function OpenSize(len: nat, k: nat): nat {
    if k == 0 then 0 else OpenSize(len, k - 1) + len + 4
  }

  /** `k` open copies in a row, each chained to the one before. */
  function Opens(g: seq<byte>, k: nat, lazy: bool): (r: seq<byte>)
    ensures |r| == OpenSize(|g|, k)
  {
    if k == 0 then [] else Opens(g, k - 1, lazy) + Open(g, if k == 1 then 0 else |g| + 4, lazy)
  }

  lemma {:induction false} OpenSizeGrows(len: nat, j: nat, k: nat)
    requires j <= k
    ensures OpenSize(len, j) <= OpenSize(len, k)
    decreases k - j
  {
    if j < k {
      OpenSizeGrows(len, j, k - 1);
    }
  }

  /** Where the link of the last of `k` open copies stands behind `base`; -1 for none. */
  function LastLink(base: nat, len: nat, k: nat): int {
    if k == 0 then -1 else base + OpenSize(len, k - 1) + 2
  }

  lemma OpensStep(base: seq<byte>, g: seq<byte>, j: nat, lazy: bool)
    ensures base + Opens(g, j + 1, lazy) == base + Opens(g, j, lazy) + Open(g, if j == 0 then 0 else |g| + 4, lazy)
  {
  }

  lemma SliceKept(x: seq<byte>, y: seq<byte>, p: nat, l: nat)
    requires p + l <= |x|
    ensures (x + y)[p..p + l] == x[p..p + l]
  {
  }

  /** Replacing the two bytes between `front` and `rest`. */
  lemma Replaced(front: seq<byte>, was: seq<byte>, now: seq<byte>, rest: seq<byte>)
    requires |was| == |now|
    ensures var d := front + was + rest; d[..|front|] + now + d[|front| + |was|..] == front + now + rest
  {
  }

  /** An open copy whose inside is followed by its KET is a nested copy once its link is patched. */
  lemma ClosedIsNested(g: seq<byte>, n: nat, lazy: bool)
    requires n >= 1
    ensures var inner := g + Nested(g, n, lazy);
            Nested(g, n + 1, lazy)
            == [Twin(OP_BRAZERO, lazy), OP_BRA] + Two(3 + |inner|) + (inner + ([OP_KET] + Two(3 + |inner|)))
  {
  }

  lemma LastOpen(base: seq<byte>, g: seq<byte>, k: nat, n: nat, lazy: bool, chain: nat)
    requires k > 0 && chain == if k == 1 then 0 else |g| + 4
    ensures base + Opens(g, k, lazy) + Nested(g, n, lazy)
            == base + Opens(g, k - 1, lazy) + [Twin(OP_BRAZERO, lazy), OP_BRA] + Two(chain) + (g + Nested(g, n, lazy))
  {
    OpensStep(base, g, k - 1, lazy);
  }

  lemma ClosedBracket(pre: seq<byte>, g: seq<byte>, n: nat, lazy: bool)
    requires n > 0
    ensures var inner := g + Nested(g, n, lazy);
            pre + [Twin(OP_BRAZERO, lazy), OP_BRA] + Two(3 + |inner|) + (inner + ([OP_KET] + Two(3 + |inner|)))
            == pre + Nested(g, n + 1, lazy)
  {
    ClosedIsNested(g, n, lazy);
  }

  /** `k` copies still open around `d` finished ones. */
  function Partial(base: seq<byte>, g: seq<byte>, k: nat, d: nat, lazy: bool): seq<byte> {
    base + Opens(g, k, lazy) + Nested(g, d, lazy)
  }

  lemma AllClosed(base: seq<byte>, g: seq<byte>, n: nat, lazy: bool)
    ensures Partial(base, g, 0, n, lazy) == base + Nested(g, n, lazy)
  {
  }

  lemma {:induction false} CopiesSnoc(g: seq<byte>, n: nat)
    ensures Copies(g, n + 1) == Copies(g, n) + g
  {
    if n > 0 {
      CopiesSnoc(g, n - 1);
      assert Copies(g, n + 1) == g + (Copies(g, n - 1) + g);
    } else {
      assert Copies(g, 0) == [];
    }
  }

  lemma {:induction false} CopiesGrow(g: seq<byte>, i: nat, n: nat)
    requires i <= n
    ensures |Copies(g, i)| <= |Copies(g, n)|
    decreases n - i
  {
    if i < n {
      CopiesGrow(g, i, n - 1);
    }
  }

  /** Behind the obligatory copies no bracket is open yet, and the group stands where it stood. */
  lemma CopiesReady(pre: seq<byte>, g: seq<byte>, n: nat, max: nat, lazy: bool)
    requires n > 0
    ensures var base := pre + Copies(g, n);
            base == base + Opens(g, 0, lazy) && |pre| + |g| <= |base| && base[|pre|..|pre| + |g|] == g
    ensures max == 0 ==> pre + Copies(g, n) == (pre + Copies(g, n)) + Nested(g, max, lazy)
    ensures max > 0 ==> |Nested(g, max, lazy)| > |g|
  {
    assert Copies(g, n) == g + Copies(g, n - 1);
    if max > 0 {
      NestedRoom(g, max, lazy);
    }
  }

  /** A chain of nested copies takes its open form plus one KET for each bracket. */
  lemma {:induction false} NestedRoom(g: seq<byte>, n: nat, lazy: bool)
    requires n > 0
    ensures |Nested(g, n, lazy)| == OpenSize(|g|, n - 1) + |g| + 1 + 3 * (n - 1)
  {
    if n > 1 {
      NestedRoom(g, n - 1, lazy);
    }
  }

  /** The emitted code of a quantified group, by the branches of the real pass. */
  lemma GroupShape(pre: seq<byte>, g: seq<byte>, r: Rep)
    requires RepOk(r) && r.max >= 0
    ensures r.min == 0 ==> EmitGroup(g, r) == if r.max == 0 then [OP_SKIPZERO] + g else Nested(g, r.max, r.lazy)
    ensures r.min > 0 ==> pre + EmitGroup(g, r) == (pre + Copies(g, r.min)) + Nested(g, r.max - r.min, r.lazy)
  {
    if r.min == 0 {
      assert Copies(g, 0) + Nested(g, r.max, r.lazy) == Nested(g, r.max, r.lazy);
    }
  }

  /** What is reserved for a quantified group holds the group itself. */
  lemma GroupHolds(len: nat, r: Rep)
    requires RepOk(r) && r.max >= 0 && len >= 6
    ensures len <= GroupBytes(len, r)
  {
    if r.max > 0 {
      MulNat(r.min, len);
      MulNat(r.max - r.min, len + 7);
    }
  }

  /** The branches of a pattern. */
  function Branches(a: Alts): (bs: seq<Branch>)
    requires AltsOk(a)
    ensures bs != [] && forall b :: b in bs ==> BranchOk(b)
  {
    match a
    case One(b) => [b]
    case Or(b, others) => [b] + Branches(others)
  }

  /** One alternative with the number `link` in its head. */
  function Headed(op: byte, link: nat, eb: seq<byte>): seq<byte> {
    [op] + Two(link) + eb
  }

  function HeadOp(k: nat): byte {
    if k == 0 then OP_BRA else OP_ALT
  }

  /** Bytes of alternative `k`, head included. */
  function AltBytes(bs: seq<Branch>, k: nat): nat
    requires k < |bs| && forall b :: b in bs ==> BranchOk(b)
  {
    3 + |EmitBranch(bs[k])|
  }

  /** How far alternative `k` is from the one before it. */
  function Back(bs: seq<Branch>, k: nat): nat
    requires k <= |bs| && forall b :: b in bs ==> BranchOk(b)
  {
    if k == 0 then 0 else AltBytes(bs, k - 1)
  }

  /** The first `k` alternatives while the bracket is open: each head holds the way back to the one before. */
  function BackLinked(bs: seq<Branch>, k: nat): (r: seq<byte>)
    requires k <= |bs| && forall b :: b in bs ==> BranchOk(b)
    ensures |r| >= Back(bs, k)
  {
    if k == 0 then [] else BackLinked(bs, k - 1) + Headed(HeadOp(k - 1), Back(bs, k - 1), EmitBranch(bs[k - 1]))
  }

  /** The alternatives from `k` on as they stand in the end. */
  function Forward(bs: seq<Branch>, k: nat): seq<byte>
    requires k <= |bs| && forall b :: b in bs ==> BranchOk(b)
    decreases |bs| - k
  {
    if k == |bs| then [] else Headed(HeadOp(k), AltBytes(bs, k), EmitBranch(bs[k])) + Forward(bs, k + 1)
  }

  /** The alternatives as they stand in the end, branch by branch. */
  function Chained(op: byte, bs: seq<Branch>): seq<byte>
    requires bs != [] && forall b :: b in bs ==> BranchOk(b)
    decreases |bs|
  {
    var head := Headed(op, 3 + |EmitBranch(bs[0])|, EmitBranch(bs[0]));
    if |bs| == 1 then head else head + Chained(OP_ALT, bs[1..])
  }

  lemma {:induction false} EmitIsChained(op: byte, a: Alts)
    requires AltsOk(a)
    ensures EmitAlts(op, a) == Chained(op, Branches(a))
    decreases a
  {
    if a.Or? {
      EmitIsChained(OP_ALT, a.others);
      assert Branches(a)[1..] == Branches(a.others);
    }
  }

  lemma {:induction false} ForwardIsChained(bs: seq<Branch>, k: nat)
    requires k < |bs| && forall b :: b in bs ==> BranchOk(b)
    ensures Forward(bs, k) == Chained(HeadOp(k), bs[k..])
    decreases |bs| - k
  {
    var cs := bs[k..];
    var head := Headed(HeadOp(k), AltBytes(bs, k), EmitBranch(bs[k]));
    assert cs[0] == bs[k];
    if k + 1 < |bs| {
      ForwardIsChained(bs, k + 1);
      assert cs[1..] == bs[k + 1..];
    } else {
      assert Forward(bs, k + 1) == [];
    }
  }

  /** Forward links are what the specification emits. */
  lemma ForwardIsEmit(a: Alts)
    requires AltsOk(a)
    ensures EmitAlts(OP_BRA, a) == Forward(Branches(a), 0)
  {
    EmitIsChained(OP_BRA, a);
    ForwardIsChained(Branches(a), 0);
    assert Branches(a)[0..] == Branches(a);
  }

  /** The bracket during the chain reversal: heads before `k` still point back, the others point forward. */
  function Mixed(pre: seq<byte>, bs: seq<Branch>, k: nat): seq<byte>
    requires k <= |bs| && forall b :: b in bs ==> BranchOk(b)
  {
    pre + BackLinked(bs, k) + Forward(bs, k)
  }

  lemma MixedSplit(pre: seq<byte>, bs: seq<Branch>, k: nat)
    requires 0 < k <= |bs| && forall b :: b in bs ==> BranchOk(b)
    ensures Mixed(pre, bs, k)
            == (pre + BackLinked(bs, k - 1) + [HeadOp(k - 1)]) + Two(Back(bs, k - 1))
                + (EmitBranch(bs[k - 1]) + Forward(bs, k))
    ensures Mixed(pre, bs, k - 1)
            == (pre + BackLinked(bs, k - 1) + [HeadOp(k - 1)]) + Two(AltBytes(bs, k - 1))
                + (EmitBranch(bs[k - 1]) + Forward(bs, k))
  {
    var e := EmitBranch(bs[k - 1]);
    var op := [HeadOp(k - 1)];
    Regroup(pre, BackLinked(bs, k - 1), op, Two(Back(bs, k - 1)), e, Forward(bs, k));
    Regroup(pre, BackLinked(bs, k - 1), op, Two(AltBytes(bs, k - 1)), e, Forward(bs, k));
  }

  lemma Regroup(a: seq<byte>, b: seq<byte>, op: seq<byte>, x: seq<byte>, e: seq<byte>, f: seq<byte>)
    ensures a + (b + (op + x + e)) + f == (a + b + op) + x + (e + f)
    ensures a + b + ((op + x + e) + f) == (a + b + op) + x + (e + f)
  {
  }

  /** Emitting the next item of a branch. */
  lemma BranchStep(done: seq<byte>, item: Item, rest: Branch, whole: seq<byte>)
    requires ItemOk(item) && BranchOk(rest) && done + EmitBranch(Then(item, rest)) == whole
    ensures (done + EmitItem(item)) + EmitBranch(rest) == whole
    ensures |EmitItem(item)| <= PreItem(item)
  {
    ItemSize(item);
  }

  /** The last item of a branch is behind. */
  lemma BranchEnd(done: seq<byte>, whole: seq<byte>)
    requires done + EmitBranch(Empty) == whole
    ensures done == whole
  {
  }

  /** A finished bracket. */
  lemma BracketShape(pre: seq<byte>, a: Alts)
    requires AltsOk(a)
    ensures pre + EmitBracket(a) == (pre + Forward(Branches(a), 0)) + [OP_KET] + Two(|Forward(Branches(a), 0)|)
    ensures |pre + Forward(Branches(a), 0)| + 3 <= |pre| + PreBracket(a)
  {
    ForwardIsEmit(a);
    BracketSize(a);
  }

  /** The alternatives from `k` on are the ones of `rest`. */
  lemma BranchesTail(bs: seq<Branch>, k: nat, rest: Alts)
    requires AltsOk(rest) && k < |bs| && Branches(rest) == bs[k..]
    ensures rest.branch == bs[k] && BranchOk(rest.branch)
    ensures rest.One? ==> k + 1 == |bs|
    ensures rest.Or? ==> k + 1 < |bs| && Branches(rest.others) == bs[k + 1..]
  {
    assert bs[k..][0] == bs[k];
    assert bs[k..][1..] == bs[k + 1..];
    if rest.Or? {
      assert Branches(rest)[1..] == Branches(rest.others);
    }
  }

  /** The bracket when the head of alternative `k` has just been written. */
  function OpenAt(pre: seq<byte>, bs: seq<Branch>, k: nat): seq<byte>
    requires k < |bs| && forall b :: b in bs ==> BranchOk(b)
  {
    pre + BackLinked(bs, k) + Headed(HeadOp(k), Back(bs, k), [])
  }

  lemma FirstOpen(pre: seq<byte>, bs: seq<Branch>)
    requires bs != [] && forall b :: b in bs ==> BranchOk(b)
    ensures bs[0..] == bs && OpenAt(pre, bs, 0) == pre + Headed(OP_BRA, 0, []) && |BackLinked(bs, 0)| == 0
  {
    assert pre + BackLinked(bs, 0) == pre;
  }

  /** A written head with its branch behind it. */
  lemma AltWritten(pre: seq<byte>, bs: seq<Branch>, k: nat)
    requires k < |bs| && forall b :: b in bs ==> BranchOk(b)
    ensures OpenAt(pre, bs, k) + EmitBranch(bs[k]) == pre + BackLinked(bs, k + 1)
    ensures |BackLinked(bs, k + 1)| == |BackLinked(bs, k)| + AltBytes(bs, k)
  {
    var h, b, e := HeadOp(k), Back(bs, k), EmitBranch(bs[k]);
    assert Headed(h, b, []) + e == Headed(h, b, e);
    Rejoined(pre, BackLinked(bs, k), Headed(h, b, []), e);
  }

  lemma Rejoined(a: seq<byte>, b: seq<byte>, c: seq<byte>, d: seq<byte>)
    ensures a + b + c + d == a + (b + (c + d))
  {
  }

  lemma ThreeParts(d: seq<byte>, pre: seq<byte>, head: seq<byte>, g: seq<byte>)
    requires |pre| + |head| <= |d| && d[..|pre|] == pre && d[|pre|..|pre| + |head|] == head && d[|pre| + |head|..] == g
    ensures d == pre + (head + g)
  {
    assert d == d[..|pre|] + d[|pre|..|pre| + |head|] + d[|pre| + |head|..];
  }

  /** GET reads what PUT wrote. */
  lemma ReadBack(front: seq<byte>, n: nat, rest: seq<byte>)
    requires n < 65536
    ensures var d := front + Two(n) + rest; d[|front|] as int * 256 + d[|front| + 1] as int == n
  {
    var d := front + Two(n) + rest;
    assert d[|front|] == Two(n)[0] && d[|front| + 1] == Two(n)[1];
  }

  class Emitter {
    const buf: array<byte>
    var code: nat

    constructor (size: nat)
      ensures fresh(buf) && buf.Length == size && code == 0
    {
      buf := new byte[size](_ => OP_END);
      code := 0;
    }

    ghost function Done(): seq<byte>
      reads this, buf
      requires code <= buf.Length
    {
      buf[..code]
    }

    /** *code++ = b */
    method Byte(b: byte)
      requires code < buf.Length
      modifies this`code, buf
      ensures code == old(code) + 1 <= buf.Length && Done() == old(Done()) + [b]
    {
      buf[code] := b;
      code := code + 1;
    }

    /** PUTINC and PUT2INC */
    method Short(n: nat)
      requires code + 2 <= buf.Length
      modifies this`code, buf
      ensures code == old(code) + 2 <= buf.Length && Done() == old(Done()) + Two(n)
    {
      buf[code] := n / 256 % 256;
      buf[code + 1] := n % 256;
      code := code + 2;
    }

    /** PUT at a place already written */
    method Patch(at: nat, n: nat)
      requires at + 2 <= code <= buf.Length
      modifies buf
      ensures Done() == old(Done())[..at] + Two(n) + old(Done())[at + 2..]
    {
      buf[at] := n / 256 % 256;
      buf[at + 1] := n % 256;
    }

    /** GET */
    method Fetch(at: nat) returns (n: nat)
      requires at + 2 <= code <= buf.Length
      ensures n == Done()[at] as int * 256 + Done()[at + 1] as int
    {
      n := buf[at] as int * 256 + buf[at + 1] as int;
    }

    /** memcpy(code, previous, len); code += len */
    method Duplicate(previous: nat, len: nat)
      requires previous + len <= code && code + len <= buf.Length
      modifies this`code, buf
      ensures code == old(code) + len <= buf.Length && Done() == old(Done()) + old(Done())[previous..previous + len]
    {
      ghost var was := Done();
      forall k | code <= k < code + len {
        buf[k] := buf[previous + k - code];
      }
      assert buf[..code] == was;
      assert forall k :: code <= k < code + len ==> buf[k] == was[previous + k - code];
      assert buf[code..code + len] == was[previous..previous + len];
      code := code + len;
      assert Done() == buf[..code - len] + buf[code - len..code];
    }

    /** memmove(previous + n, previous, code - previous); code += n */
    method MoveUp(previous: nat, n: nat)
      requires previous <= code && code + n <= buf.Length
      modifies this`code, buf
      ensures code == old(code) + n <= buf.Length
      ensures Done()[..previous] == old(Done())[..previous] && Done()[previous + n..] == old(Done())[previous..]
    {
      var len := code - previous;
      forall k | 0 <= k < len {
        buf[previous + n + k] := buf[previous + k];
      }
      code := code + n;
      assert forall k :: 0 <= k < len ==> buf[..code][previous + n..][k] == old(buf[..code])[previous..][k];
    }

    // -------------------------------------------------------------- literals

    /** UPTO or its lazy twin, with its count, then the character. */
    method EmitUpTo(c: byte, n: nat, lazy: bool)
      requires code + 4 <= buf.Length
      modifies this`code, buf
      ensures code == old(code) + 4 <= buf.Length && Done() == old(Done()) + UpTo(c, n, lazy)
    {
      Byte(Twin(OP_UPTO, lazy));
      Short(n);
      Byte(c);
    }

    /** A short repeat opcode with its character. */
    method EmitShort(op: byte, c: byte, lazy: bool)
      requires op < 255 && code + 2 <= buf.Length
      modifies this`code, buf
      ensures code == old(code) + 2 <= buf.Length && Done() == old(Done()) + [Twin(op, lazy), c]
    {
      Byte(Twin(op, lazy));
      Byte(c);
    }

    /** A minimum above one: EXACT, then what the maximum asks for. */
    method EmitExact(c: byte, r: Rep)
      requires RepOk(r) && r.min > 1 && code + |EmitLit(c, r)| <= buf.Length
      modifies this`code, buf
      ensures code == old(code) + |EmitLit(c, r)| && Done() == old(Done()) + EmitLit(c, r)
    {
      Byte(OP_EXACT);
      Short(r.min);
      Byte(c);
      EmitBehindExact(c, r);
    }

    /** What the maximum asks for behind EXACT. */
    method EmitBehindExact(c: byte, r: Rep)
      requires RepOk(r) && r.min > 1 && code + |EmitLit(c, r)| - 4 <= buf.Length && code <= buf.Length
      modifies this`code, buf
      ensures code == old(code) + |EmitLit(c, r)| - 4 && code <= buf.Length
              && Done() == old(Done()) + EmitLit(c, r)[4..]
    {
      if r.max == -1 {
        EmitShort(OP_STAR, c, r.lazy);
      } else if r.max != r.min {
        if r.max - r.min == 1 {
          EmitShort(OP_QUERY, c, r.lazy);
        } else {
          EmitUpTo(c, r.max - r.min, r.lazy);
        }
      }
    }

    /** The item is written plain first; its quantifier then overwrites it or follows it. */
    method EmitLiteral(c: byte, r: Rep)
      requires RepOk(r) && code + (if r.max == 0 then 2 else |EmitLit(c, r)|) <= buf.Length
      modifies this`code, buf
      ensures code == old(code) + |EmitLit(c, r)| <= buf.Length && Done() == old(Done()) + EmitLit(c, r)
    {
      var previous := code;
      Byte(OP_CHAR);
      Byte(c);
      var oldCode := code;
      code := previous;
      assert Done() == old(Done());
      if r.max == 0 {
        return;
      }
      if r.min == 0 {
        if r.max == -1 {
          EmitShort(OP_STAR, c, r.lazy);
        } else if r.max == 1 {
          EmitShort(OP_QUERY, c, r.lazy);
        } else {
          EmitUpTo(c, r.max, r.lazy);
        }
      } else if r.min == 1 {
        if r.max == -1 {
          EmitShort(OP_PLUS, c, r.lazy);
        } else {
          code := oldCode;
          if r.max > 1 {
            EmitUpTo(c, r.max - 1, r.lazy);
          }
        }
      } else {
        EmitExact(c, r);
      }
    }
  
    // -------------------------------------------------------------- repeated groups

    /** Further optional copies of the group at `previous`; all but the last open a bracket and chain it. */
    method OpenCopies(previous: nat, len: nat, m: nat, lazy: bool, bralink0: int, ghost base: seq<byte>,
                      ghost g: seq<byte>, ghost k: nat, ghost top: nat)
      returns (bralink: int)
      requires m >= 1 && top == k + m - 1 && |g| == len && |base| + OpenSize(len, top) + len + 1 <= buf.Length
      requires code <= buf.Length && Done() == base + Opens(g, k, lazy)
      requires previous + len <= code && Done()[previous..previous + len] == g
      requires bralink0 == LastLink(|base|, len, k)
      modifies this`code, buf
      ensures code <= buf.Length && Done() == base + Opens(g, top, lazy) + Nested(g, 1, lazy)
      ensures bralink == LastLink(|base|, len, top)
    {
      bralink := bralink0;
      var i := m - 1;
      ghost var j := k;
      while i > 0
        invariant 0 <= i && j + i == top && code <= buf.Length
        invariant Done() == base + Opens(g, j, lazy)
        invariant previous + len <= code && Done()[previous..previous + len] == g
        invariant bralink == LastLink(|base|, len, j)
      {
        bralink := OpenOne(previous, len, lazy, bralink, base, g, j, top);
        i, j := i - 1, j + 1;
      }
      LastCopy(previous, len, lazy, g);
    }

    method OpenOne(previous: nat, len: nat, lazy: bool, bralink0: int, ghost base: seq<byte>, ghost g: seq<byte>,
                   ghost j: nat, ghost top: nat)
      returns (bralink: int)
      requires j < top && |g| == len && |base| + OpenSize(len, top) + len + 1 <= buf.Length
      requires code <= buf.Length && Done() == base + Opens(g, j, lazy)
      requires previous + len <= code && Done()[previous..previous + len] == g
      requires bralink0 == LastLink(|base|, len, j)
      modifies this`code, buf
      ensures old(code) <= code <= buf.Length && Done() == base + Opens(g, j + 1, lazy)
      ensures Done()[previous..previous + len] == g && bralink == LastLink(|base|, len, j + 1)
    {
      OpenSizeGrows(len, j + 1, top);
      OpensStep(base, g, j, lazy);
      assert code == |base| + OpenSize(len, j);
      bralink := OpenCopy(previous, len, lazy, bralink0, g, if j == 0 then 0 else len + 4);
    }

    /** The last optional copy opens no bracket. */
    method LastCopy(previous: nat, len: nat, lazy: bool, ghost g: seq<byte>)
      requires code + len + 1 <= buf.Length && previous + len <= code && Done()[previous..previous + len] == g
      modifies this`code, buf
      ensures code == old(code) + len + 1 <= buf.Length && Done() == old(Done()) + Nested(g, 1, lazy)
    {
      ghost var was := Done();
      Byte(Twin(OP_BRAZERO, lazy));
      SliceKept(was, [Twin(OP_BRAZERO, lazy)], previous, len);
      Duplicate(previous, len);
      assert Done() == was + ([Twin(OP_BRAZERO, lazy)] + g);
    }

    /** The head of an open copy. */
    method OpenHead(lazy: bool, bralink0: int) returns (bralink: int)
      requires code + 4 <= buf.Length && -1 <= bralink0 <= code
      modifies this`code, buf
      ensures code == old(code) + 4 <= buf.Length && bralink == old(code) + 2
      ensures Done() == old(Done()) + ([Twin(OP_BRAZERO, lazy), OP_BRA]
              + Two(if bralink0 == -1 then 0 else old(code) + 2 - bralink0))
    {
      Byte(Twin(OP_BRAZERO, lazy));
      Byte(OP_BRA);
      var offset := if bralink0 == -1 then 0 else code - bralink0;
      bralink := code;
      Short(offset);
    }

    /** One optional copy that opens a bracket. */
    method OpenCopy(previous: nat, len: nat, lazy: bool, bralink0: int, ghost g: seq<byte>, ghost link: nat)
      returns (bralink: int)
      requires |g| == len && code + len + 4 <= buf.Length && -1 <= bralink0 <= code
      requires previous + len <= code && Done()[previous..previous + len] == g
      requires link == if bralink0 == -1 then 0 else code + 2 - bralink0
      modifies this`code, buf
      ensures code == old(code) + len + 4 <= buf.Length && Done() == old(Done()) + Open(g, link, lazy)
      ensures Done()[previous..previous + len] == g && bralink == old(code) + 2
    {
      ghost var was := Done();
      bralink := OpenHead(lazy, bralink0);
      ghost var head := [Twin(OP_BRAZERO, lazy), OP_BRA] + Two(link);
      SliceKept(was, head, previous, len);
      Duplicate(previous, len);
      assert Done() == was + (head + g);
      SliceKept(was, head + g, previous, len);
    }

    /** Chain through the open brackets, innermost first, and close each with a KET. */
    method CloseCopies(bralink0: int, lazy: bool, ghost base: seq<byte>, ghost g: seq<byte>, ghost open: nat,
                       ghost d0: nat, ghost n: nat)
      requires |g| + 4 < 65536 && code + 3 * open <= buf.Length
      requires d0 > 0 && n == open + d0 && Done() == Partial(base, g, open, d0, lazy)
      requires bralink0 == LastLink(|base|, |g|, open)
      modifies this`code, buf
      ensures code <= buf.Length && Done() == base + Nested(g, n, lazy)
    {
      var bralink := bralink0;
      ghost var k: nat, d: nat := open, d0;
      while bralink != -1
        invariant code <= code + 3 * k <= buf.Length && k + d == n && d > 0
        invariant Done() == Partial(base, g, k, d, lazy)
        invariant bralink == LastLink(|base|, |g|, k)
        decreases k
      {
        bralink := CloseCopy(bralink, lazy, base, g, k, d);
        k, d := k - 1, d + 1;
      }
      AllClosed(base, g, n, lazy);
    }

    /** Close the bracket whose link field is `bralink`; the chain in it leads to the next one out. */
    method CloseCopy(bralink0: int, lazy: bool, ghost base: seq<byte>, ghost g: seq<byte>, ghost k: nat, ghost n: nat)
      returns (bralink: int)
      requires k > 0 && n > 0 && |g| + 4 < 65536 && code + 3 <= buf.Length
      requires Done() == Partial(base, g, k, n, lazy)
      requires bralink0 == LastLink(|base|, |g|, k)
      modifies this`code, buf
      ensures code == old(code) + 3 <= buf.Length
      ensures Done() == Partial(base, g, k - 1, n + 1, lazy)
      ensures bralink == LastLink(|base|, |g|, k - 1)
    {
      ghost var chain := if k == 1 then 0 else |g| + 4;
      ghost var pre := base + Opens(g, k - 1, lazy);
      ghost var inner := g + Nested(g, n, lazy);
      LastOpen(base, g, k, n, lazy, chain);
      bralink := CloseBracket(bralink0, pre + [Twin(OP_BRAZERO, lazy), OP_BRA], chain, inner);
      ClosedBracket(pre, g, n, lazy);
    }

    /** Write the KET of an open bracket and patch its link; return the next link in the chain. */
    method CloseBracket(bralink0: int, ghost front: seq<byte>, ghost chain: nat, ghost inner: seq<byte>)
      returns (bralink: int)
      requires code + 3 <= buf.Length && chain < 65536 && Done() == front + Two(chain) + inner
               && bralink0 == |front| >= 1
      modifies this`code, buf
      ensures code == old(code) + 3 <= buf.Length
      ensures Done() == front + Two(3 + |inner|) + (inner + ([OP_KET] + Two(3 + |inner|)))
      ensures bralink == if chain == 0 then -1 else bralink0 - chain
    {
      var offset := code - bralink0 + 1;
      var link := ReadLink(bralink0, front, chain, inner);
      bralink := if link == 0 then -1 else bralink0 - link;
      Byte(OP_KET);
      Short(offset);
      assert Done() == front + Two(chain) + (inner + ([OP_KET] + Two(offset)));
      WriteLink(bralink0, offset, front, Two(chain), inner + ([OP_KET] + Two(offset)));
    }
  
    /** Repeat the group at `previous` `min` times in all. */
    method CopyMinimum(previous: nat, len: nat, min: nat, ghost pre: seq<byte>, ghost g: seq<byte>)
      requires min >= 1 && code <= buf.Length && Done() == pre + g && previous == |pre| && len == |g|
      requires |pre| + |Copies(g, min)| <= buf.Length
      modifies this`code, buf
      ensures code <= buf.Length && Done() == pre + Copies(g, min)
    {
      var i := 1;
      assert Copies(g, 1) == g + Copies(g, 0) == g;
      while i < min
        invariant 1 <= i <= min && code <= buf.Length && Done() == pre + Copies(g, i)
      {
        CopiesSnoc(g, i);
        CopiesGrow(g, i + 1, min);
        assert Copies(g, i) == g + Copies(g, i - 1);
        assert Done()[previous..previous + len] == g;
        Duplicate(previous, len);
        assert Done() == pre + (Copies(g, i) + g);
        i := i + 1;
      }
    }

    /** {0,0} and {0,1}: the group moves up behind one opcode. */
    method PrefixGroup(previous: nat, op: byte, ghost pre: seq<byte>, ghost g: seq<byte>)
      requires code + 1 <= buf.Length && Done() == pre + g && previous == |pre|
      modifies this`code, buf
      ensures code == old(code) + 1 <= buf.Length && Done() == pre + ([op] + g)
    {
      MoveUp(previous, 1);
      buf[previous] := op;
      assert Done()[..previous] == pre && Done()[previous + 1..] == g;
      assert Done() == Done()[..previous] + [Done()[previous]] + Done()[previous + 1..];
    }

    /** {0,m}, m > 1: the group moves up behind an open bracket. */
    method PrefixOpen(previous: nat, lazy: bool, ghost pre: seq<byte>, ghost g: seq<byte>)
      requires code + 4 <= buf.Length && Done() == pre + g && previous == |pre|
      modifies this`code, buf
      ensures code == old(code) + 4 <= buf.Length && Done() == pre + Open(g, 0, lazy)
    {
      MoveUp(previous, 4);
      buf[previous] := Twin(OP_BRAZERO, lazy);
      buf[previous + 1] := OP_BRA;
      buf[previous + 2] := 0;
      buf[previous + 3] := 0;
      assert Done()[previous..previous + 4] == [Twin(OP_BRAZERO, lazy), OP_BRA] + Two(0);
      ThreeParts(Done(), pre, [Twin(OP_BRAZERO, lazy), OP_BRA] + Two(0), g);
    }

    /** The optional copies that are still missing: open them all, then close them all. */
    method AddOptional(previous: nat, len: nat, m: nat, lazy: bool, bralink: int, ghost base: seq<byte>,
                       ghost g: seq<byte>, ghost k: nat)
      requires m >= 1 && |g| == len && len + 4 < 65536 && code <= buf.Length && Done() == base + Opens(g, k, lazy)
      requires previous + len <= code && Done()[previous..previous + len] == g && bralink == LastLink(|base|, len, k)
      requires |base| + |Nested(g, k + m, lazy)| <= buf.Length
      modifies this`code, buf
      ensures code <= buf.Length && Done() == base + Nested(g, k + m, lazy)
    {
      ghost var top := k + m - 1;
      NestedRoom(g, k + m, lazy);
      var last := OpenCopies(previous, len, m, lazy, bralink, base, g, k, top);
      assert |Nested(g, 1, lazy)| == len + 1;
      CloseCopies(last, lazy, base, g, top, 1, k + m);
    }

    /** A quantifier with minimum zero. */
    method QuantifyOptional(previous: nat, r: Rep, ghost pre: seq<byte>, ghost g: seq<byte>)
      requires RepOk(r) && r.min == 0 && r.max >= 0 && code <= buf.Length <= MAX_PATTERN_SIZE
      requires Done() == pre + g && previous == |pre| && |g| >= 6
      requires |pre| + (if r.max == 0 then 1 + |g| else |Nested(g, r.max, r.lazy)|) <= buf.Length
      modifies this`code, buf
      ensures code <= buf.Length
      ensures Done() == pre + (if r.max == 0 then [OP_SKIPZERO] + g else Nested(g, r.max, r.lazy))
    {
      var len := code - previous;
      if r.max == 0 {
        PrefixGroup(previous, OP_SKIPZERO, pre, g);
      } else if r.max == 1 {
        PrefixGroup(previous, Twin(OP_BRAZERO, r.lazy), pre, g);
      } else {
        NestedRoom(g, r.max, r.lazy);
        OpenSizeGrows(len, 1, r.max - 1);
        PrefixOpen(previous, r.lazy, pre, g);
        assert Opens(g, 1, r.lazy) == Open(g, 0, r.lazy);
        assert OpenSize(len, 0) == 0;
        AddOptional(previous + 4, len, r.max - 1, r.lazy, previous + 2, pre, g, 1);
      }
    }

    /** A quantifier with a minimum above zero: `min` copies and `opt` optional ones. */
    method QuantifyRepeated(previous: nat, min: nat, opt: nat, lazy: bool, ghost pre: seq<byte>, ghost g: seq<byte>,
                            ghost base: seq<byte>)
      requires min > 0 && code <= buf.Length <= MAX_PATTERN_SIZE && base == pre + Copies(g, min)
      requires Done() == pre + g && previous == |pre| && |g| >= 6
      requires |base| + |Nested(g, opt, lazy)| <= buf.Length
      modifies this`code, buf
      ensures code <= buf.Length && Done() == base + Nested(g, opt, lazy)
    {
      var len := code - previous;
      CopyMinimum(previous, len, min, pre, g);
      CopiesReady(pre, g, min, opt, lazy);
      if opt > 0 {
        AddOptional(previous, len, opt, lazy, -1, base, g, 0);
      }
    }

    /** A quantifier behind the group that starts at `previous`. */
    method QuantifyGroup(previous: nat, r: Rep, ghost pre: seq<byte>, ghost g: seq<byte>)
      requires RepOk(r) && r.max >= 0 && code <= buf.Length <= MAX_PATTERN_SIZE
      requires Done() == pre + g && previous == |pre| && |g| >= 6
      requires |pre| + |EmitGroup(g, r)| <= buf.Length
      modifies this`code, buf
      ensures code <= buf.Length && Done() == pre + EmitGroup(g, r)
    {
      GroupShape(pre, g, r);
      if r.min == 0 {
        QuantifyOptional(previous, r, pre, g);
      } else {
        QuantifyRepeated(previous, r.min, r.max - r.min, r.lazy, pre, g, pre + Copies(g, r.min));
      }
    }

    // -------------------------------------------------------------- items, branches, brackets

    /** One item with its quantifier. */
    method CompileItem(it: Item)
      requires ItemOk(it) && code + PreItem(it) <= buf.Length <= MAX_PATTERN_SIZE
      modifies this`code, buf
      ensures code <= buf.Length && Done() == old(Done()) + EmitItem(it)
      decreases it, 2
    {
      match it {
        case Lit(c, rep) => EmitLiteral(c, rep);
        case Group(alts, rep) =>
          var previous := code;
          ghost var pre, g := Done(), EmitBracket(alts);
          BracketSize(alts);
          GroupSize(g, PreBracket(alts), rep);
          GroupHolds(PreBracket(alts), rep);
          CompileBracket(alts);
          QuantifyGroup(previous, rep, pre, g);
      }
    }

    /** The items of one alternative. */
    method CompileBranch(b: Branch)
      requires BranchOk(b) && code + PreBranch(b) <= buf.Length <= MAX_PATTERN_SIZE
      modifies this`code, buf
      ensures code <= buf.Length && Done() == old(Done()) + EmitBranch(b)
      decreases b, 3
    {
      var rest := b;
      ghost var whole := Done() + EmitBranch(b);
      while rest.Then?
        invariant BranchOk(rest) && code + PreBranch(rest) <= buf.Length
        invariant Done() + EmitBranch(rest) == whole
        invariant rest == b || rest < b
        decreases rest
      {
        BranchStep(Done(), rest.item, rest.rest, whole);
        CompileItem(rest.item);
        rest := rest.rest;
      }
      BranchEnd(Done(), whole);
    }

    /** A bracket: heads that point back while it is open, then the reversal of their chain, then the KET. */
    method CompileBracket(a: Alts)
      requires AltsOk(a) && code + PreBracket(a) <= buf.Length <= MAX_PATTERN_SIZE
      modifies this`code, buf
      ensures code <= buf.Length && Done() == old(Done()) + EmitBracket(a)
      decreases a, 5
    {
      ghost var pre, bs := Done(), Branches(a);
      var start := code;
      BracketShape(pre, a);
      CompileHeads(a, pre, bs);
      EmitKet(start);
    }

    /** All alternatives, linked forward. */
    method CompileHeads(a: Alts, ghost pre: seq<byte>, ghost bs: seq<Branch>)
      requires AltsOk(a) && code + PreAlts(a) + 3 <= buf.Length <= MAX_PATTERN_SIZE
      requires bs == Branches(a) && pre == Done()
      modifies this`code, buf
      ensures code + 3 <= buf.Length && Done() == pre + Forward(bs, 0)
      decreases a, 4
    {
      var lastBranch := CompileAlts(a, pre, bs);
      ReverseChain(lastBranch, pre, bs);
    }

    /** The KET of the bracket that starts at `start`. */
    method EmitKet(start: nat)
      requires start <= code && code + 3 <= buf.Length
      modifies this`code, buf
      ensures code == old(code) + 3 <= buf.Length && Done() == old(Done()) + [OP_KET] + Two(old(code) - start)
    {
      var offset := code - start;
      Byte(OP_KET);
      Short(offset);
    }

    /** The head of an alternative. */
    method OpenAlt(op: byte, link: nat)
      requires code + 3 <= buf.Length
      modifies this`code, buf
      ensures code == old(code) + 3 <= buf.Length && Done() == old(Done()) + Headed(op, link, [])
    {
      Byte(op);
      Short(link);
    }

    /** The branch behind the head just written. */
    method CompileAlt(b: Branch, ghost pre: seq<byte>, ghost bs: seq<Branch>, ghost k: nat)
      requires k < |bs| && b == bs[k] && (forall x :: x in bs ==> BranchOk(x))
      requires code + PreBranch(b) <= buf.Length <= MAX_PATTERN_SIZE
      requires Done() == OpenAt(pre, bs, k)
      modifies this`code, buf
      ensures code <= old(code) + PreBranch(b) && code <= buf.Length && Done() == pre + BackLinked(bs, k + 1)
      decreases b, 4
    {
      BranchSize(b);
      AltWritten(pre, bs, k);
      CompileBranch(b);
    }

    /** The head of the next alternative, holding the way back. */
    method NextHead(lastBranch: nat, ghost pre: seq<byte>, ghost bs: seq<Branch>, ghost k: nat) returns (here: nat)
      requires 0 < k < |bs| && forall x :: x in bs ==> BranchOk(x)
      requires code + 3 <= buf.Length && Done() == pre + BackLinked(bs, k)
      requires lastBranch == |pre| + |BackLinked(bs, k - 1)|
      modifies this`code, buf
      ensures code == old(code) + 3 <= buf.Length && Done() == OpenAt(pre, bs, k) && here == old(code)
    {
      AltWritten(pre, bs, k - 1);
      here := code;
      OpenAlt(OP_ALT, code - lastBranch);
    }

    method CompileAlts(a: Alts, ghost pre: seq<byte>, ghost bs: seq<Branch>) returns (lastBranch: nat)
      requires AltsOk(a) && code + PreAlts(a) + 3 <= buf.Length <= MAX_PATTERN_SIZE
      requires bs == Branches(a) && pre == Done()
      modifies this`code, buf
      ensures code + 3 <= buf.Length && Done() == pre + BackLinked(bs, |bs|)
      ensures lastBranch == |pre| + |BackLinked(bs, |bs| - 1)|
      decreases a, 3
    {
      ghost var k: nat := 0;
      lastBranch := code;
      var rest := a;
      OpenAlt(OP_BRA, 0);
      FirstOpen(pre, bs);
      while true
        invariant AltsOk(rest) && code + PreAlts(rest) <= buf.Length
        invariant k < |bs| && Branches(rest) == bs[k..] && lastBranch == |pre| + |BackLinked(bs, k)|
        invariant Done() == OpenAt(pre, bs, k)
        invariant rest == a || rest < a
        decreases rest
      {
        BranchesTail(bs, k, rest);
        CompileAlt(rest.branch, pre, bs, k);
        k := k + 1;
        if rest.One? {
          return;
        }
        lastBranch := NextHead(lastBranch, pre, bs, k);
        rest := rest.others;
      }
    }

    /** Turn the links of all heads of a bracket around. */
    method ReverseChain(lastBranch0: nat, ghost pre: seq<byte>, ghost bs: seq<Branch>)
      requires bs != [] && forall b :: b in bs ==> BranchOk(b)
      requires code <= buf.Length <= MAX_PATTERN_SIZE && Done() == pre + BackLinked(bs, |bs|)
      requires lastBranch0 == |pre| + |BackLinked(bs, |bs| - 1)|
      modifies buf
      ensures Done() == pre + Forward(bs, 0)
    {
      var lastBranch := lastBranch0;
      var branchLength := code - lastBranch;
      ghost var k: nat := |bs|;
      assert Forward(bs, |bs|) == [];
      assert branchLength == AltBytes(bs, k - 1);
      while branchLength > 0
        invariant k <= |bs| && Done() == Mixed(pre, bs, k) && branchLength == Back(bs, k)
        invariant k > 0 ==> lastBranch == |pre| + |BackLinked(bs, k - 1)|
        decreases k
      {
        var prevLength := FlipHead(lastBranch, branchLength, pre, bs, k);
        branchLength := prevLength;
        lastBranch := lastBranch - branchLength;
        k := k - 1;
      }
      assert BackLinked(bs, 0) == [];
      assert pre + BackLinked(bs, 0) == pre;
    }

    /** Read the way back out of a head and put the way forward in its place. */
    method FlipHead(lastBranch: nat, branchLength: nat, ghost pre: seq<byte>, ghost bs: seq<Branch>, ghost k: nat)
      returns (prevLength: nat)
      requires 0 < k <= |bs| && forall b :: b in bs ==> BranchOk(b)
      requires code <= buf.Length <= MAX_PATTERN_SIZE && Done() == Mixed(pre, bs, k)
      requires lastBranch == |pre| + |BackLinked(bs, k - 1)| && branchLength == AltBytes(bs, k - 1)
      modifies buf
      ensures Done() == Mixed(pre, bs, k - 1) && prevLength == Back(bs, k - 1) <= lastBranch
    {
      ghost var front, rest := pre + BackLinked(bs, k - 1) + [HeadOp(k - 1)], EmitBranch(bs[k - 1]) + Forward(bs, k);
      ghost var back := Back(bs, k - 1);
      MixedSplit(pre, bs, k);
      assert back <= |BackLinked(bs, k - 1)|;
      prevLength := ReadLink(lastBranch + 1, front, back, rest);
      WriteLink(lastBranch + 1, branchLength, front, Two(back), rest);
    }

    /** GET of a link whose surroundings are known. */
    method ReadLink(at: nat, ghost front: seq<byte>, ghost n: nat, ghost rest: seq<byte>) returns (v: nat)
      requires code <= buf.Length && Done() == front + Two(n) + rest && at == |front| && n < 65536
      ensures v == n
    {
      ReadBack(front, n, rest);
      v := Fetch(at);
    }

    /** PUT of a link whose surroundings are known. */
    method WriteLink(at: nat, n: nat, ghost front: seq<byte>, ghost was: seq<byte>, ghost rest: seq<byte>)
      requires code <= buf.Length && Done() == front + was + rest && at == |front| && |was| == 2
      modifies buf
      ensures Done() == front + Two(n) + rest
    {
      Replaced(front, was, Two(n), rest);
      Patch(at, n);
    }
  }

  datatype Compiled = Code(code: seq<byte>) | TooLarge

  /** `pcre_compile2`: size the pattern, refuse it or get a block of that size, then emit into the block. */
  method CompilePattern(a: Alts) returns (r: Compiled)
    requires AltsOk(a)
    ensures r == if PrePattern(a) > MAX_PATTERN_SIZE then TooLarge else Code(EmitPattern(a))
  {
    var length := PreBracketPass(a);
    length := length + 1;
    if length > MAX_PATTERN_SIZE {
      return TooLarge;
    }
    var e := new Emitter(length);
    e.CompileBracket(a);
    BracketSize(a);
    assert e.Done() == EmitBracket(a);
    e.Byte(OP_END);
    return Code(e.buf[..e.code]);
  }
}
