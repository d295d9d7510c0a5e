/** Reference meaning of a pattern: the end positions a backtracking match tries, in order. */
module PcreTries {
  import opened PcreSyntax

  /** Direct repetition of a literal: at least `min`, at most `max` times (-1: no bound), one byte at a time. */
  function TriesLit(c: byte, min: int, max: int, lazy: bool, s: seq<byte>, i: nat): seq<nat>
    requires max == -1 || min <= max
    decreases |s| - i
  {
    var more := if max != 0 && i < |s| && s[i] == c
                then TriesLit(c, min - 1, if max == -1 then -1 else max - 1, lazy, s, i + 1)
                else [];
    if min > 0 then more
    else if lazy then [i] + more
    else more + [i]
  }

  function TriesItem(it: Item, s: seq<byte>, i: nat): seq<nat>
    requires ItemOk(it)
    decreases it, 0, 0, 0
  {
    match it
    case Lit(c, rep) => TriesLit(c, rep.min, rep.max, rep.lazy, s, i)
    case Group(alts, rep) => TriesGroup(alts, rep.min, rep.max, rep.lazy, s, i)
  }

  /** Direct repetition of a group. */
  function TriesGroup(a: Alts, min: nat, max: nat, lazy: bool, s: seq<byte>, i: nat): seq<nat>
    requires AltsOk(a)
    decreases a, 1, max, 0
  {
    var more :=
      if max > 0 then TriesGroupAll(a, if min > 0 then min - 1 else 0, max - 1, lazy, s, TriesAlts(a, s, i)) else [];
    if min > 0 then more
    else if lazy then [i] + more
    else more + [i]
  }

  function TriesGroupAll(a: Alts, min: nat, max: nat, lazy: bool, s: seq<byte>, xs: seq<nat>): seq<nat>
    requires AltsOk(a)
    decreases a, 1, max, 1 + |xs|
  {
    if xs == [] then []
    else TriesGroup(a, min, max, lazy, s, xs[0]) + TriesGroupAll(a, min, max, lazy, s, xs[1..])
  }

  function TriesBranch(b: Branch, s: seq<byte>, i: nat): seq<nat>
    requires BranchOk(b)
    decreases b, 0, 0, 0
  {
    match b
    case Empty => [i]
    case Then(item, rest) => TriesBranchAll(rest, s, TriesItem(item, s, i))
  }

  function TriesBranchAll(b: Branch, s: seq<byte>, xs: seq<nat>): seq<nat>
    requires BranchOk(b)
    decreases b, 1, 0, |xs|
  {
    if xs == [] then [] else TriesBranch(b, s, xs[0]) + TriesBranchAll(b, s, xs[1..])
  }

  function TriesAlts(a: Alts, s: seq<byte>, i: nat): seq<nat>
    requires AltsOk(a)
    decreases a, 0, 0, 0
  {
    match a
    case One(b) => TriesBranch(b, s, i)
    case Or(b, others) => TriesBranch(b, s, i) + TriesAlts(others, s, i)
  }
}
