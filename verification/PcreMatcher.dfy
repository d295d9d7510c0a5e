/** `match` on compiled code: backtracking by recursion, returning at the first end position that is accepted. */
module PcreMatcher {
  import opened PcreSyntax
  import opened PcreCode
  import opened PcreRun
  import opened PcreProofs
  import opened PcreStays
  import opened PcreTries

  /** What the caller of the matcher fixes: where this attempt starts, and the options about empty matches. */
  datatype Attempt = Attempt(mstart: nat, notEmpty: bool, notEmptyAtStart: bool, startOffset: nat)

  const NO_MATCH: int := -1

  /** Whether an end position is refused because the match would be empty. */
  predicate Refused(t: Attempt, e: nat) {
    e == t.mstart && (t.notEmpty || (t.notEmptyAtStart && t.mstart == t.startOffset))
  }

  /** The first end position that is not refused. */
  function First(xs: seq<nat>, t: Attempt): int {
    if xs == [] then NO_MATCH else if Refused(t, xs[0]) then First(xs[1..], t) else xs[0]
  }

  lemma {:induction false} FirstOfBoth(xs: seq<nat>, ys: seq<nat>, t: Attempt)
    ensures First(xs + ys, t) == if First(xs, t) != NO_MATCH then First(xs, t) else First(ys, t)
  {
    if xs == [] {
      assert xs + ys == ys;
    } else {
      assert (xs + ys)[1..] == xs[1..] + ys;
      FirstOfBoth(xs[1..], ys, t);
    }
  }

  /**
   * `end` is what an attempt that begins at `start` must answer when it tries the end positions `xs` in this order:
   * the first of them, or, with empty matches barred, the first one that is not `start`.
   */
  predicate Answers(xs: seq<nat>, start: nat, barred: bool, end: int) {
    if barred
    then exists k :: 0 <= k < |xs| && xs[k] == end && end != start && forall j :: 0 <= j < k ==> xs[j] == start
    else xs != [] && end == xs[0]
  }

  /** The attempt fails: nothing was tried, or, with empty matches barred, nothing but the empty match. */
  predicate Fails(xs: seq<nat>, start: nat, barred: bool) {
    if barred then forall k :: 0 <= k < |xs| ==> xs[k] == start else xs == []
  }

  /** An attempt fails iff nothing it tries is allowed; else it answers the first that is. */
  lemma {:induction false} FirstMeans(xs: seq<nat>, t: Attempt)
    ensures var barred := t.notEmpty || (t.notEmptyAtStart && t.mstart == t.startOffset);
            if First(xs, t) == -1 then Fails(xs, t.mstart, barred) else Answers(xs, t.mstart, barred, First(xs, t))
  {
    if xs != [] && Refused(t, xs[0]) {
      FirstMeans(xs[1..], t);
      if First(xs[1..], t) != -1 {
        var k :| 0 <= k < |xs[1..]| && xs[1..][k] == First(xs, t) && forall j :: 0 <= j < k ==> xs[1..][j] == t.mstart;
        assert xs[k + 1] == xs[1..][k];
        assert forall j :: 0 < j < k + 1 ==> xs[j] == xs[1..][j - 1];
      } else {
        assert forall k :: 0 < k < |xs| ==> xs[k] == xs[1..][k - 1];
      }
    }
  }

  // ---------------------------------------------------------------- runs of one byte

  /** `k` bytes into a run, it ends exactly when the next byte may not or does not match. */
  lemma {:induction false} RunEndsAt(c: byte, max: int, s: seq<byte>, i: nat, k: nat)
    requires k <= RunLength(c, max, s, i) && max >= -1
    ensures k == RunLength(c, max, s, i) <==> !((max == -1 || k < max) && i + k < |s| && s[i + k] == c)
    decreases k
  {
    if k > 0 {
      RunEndsAt(c, if max == -1 then -1 else max - 1, s, i + 1, k - 1);
    }
  }

  lemma {:induction false} DownwardAll(code: seq<byte>, s: seq<byte>, pc: nat, lo: nat, hi: nat, t: Attempt)
    requires lo <= hi
    ensures Downward(lo, hi) == [hi] + Downward(lo, hi - 1)
    ensures EndsAll(code, s, pc, Downward(lo, hi)) == Ends(code, s, pc, hi) + EndsAll(code, s, pc, Downward(lo, hi - 1))
  {
    assert ([hi] + Downward(lo, hi - 1))[1..] == Downward(lo, hi - 1);
  }

  lemma UpwardAll(code: seq<byte>, s: seq<byte>, pc: nat, lo: nat, hi: nat, t: Attempt)
    requires lo <= hi
    ensures EndsAll(code, s, pc, Upward(lo, hi)) == Ends(code, s, pc, lo) + EndsAll(code, s, pc, Upward(lo + 1, hi))
  {
    assert Upward(lo, hi)[1..] == Upward(lo + 1, hi);
  }

  /** The first of the positions from `lo` up, by trying `lo` and then the others. */
  lemma FirstOfRest(code: seq<byte>, s: seq<byte>, pc: nat, lo: nat, hi: nat, t: Attempt, want: int)
    requires lo <= hi && First(EndsAll(code, s, pc, Upward(lo, hi)), t) == want
    ensures var f := First(Ends(code, s, pc, lo), t);
            && (f != NO_MATCH ==> want == f) && (f == NO_MATCH && lo == hi ==> want == NO_MATCH)
            && (f == NO_MATCH && lo < hi ==> First(EndsAll(code, s, pc, Upward(lo + 1, hi)), t) == want)
  {
    UpwardAll(code, s, pc, lo, hi, t);
    FirstOfBoth(Ends(code, s, pc, lo), EndsAll(code, s, pc, Upward(lo + 1, hi)), t);
  }

  /** The first of the positions from `hi` down, by trying `hi` and then the others. */
  lemma FirstOfFewer(code: seq<byte>, s: seq<byte>, pc: nat, lo: nat, hi: nat, t: Attempt, want: int)
    requires lo <= hi && First(EndsAll(code, s, pc, Downward(lo, hi)), t) == want
    ensures var f := First(Ends(code, s, pc, hi), t);
            && (f != NO_MATCH ==> want == f)
            && (f == NO_MATCH ==> First(EndsAll(code, s, pc, Downward(lo, hi - 1)), t) == want)
  {
    DownwardAll(code, s, pc, lo, hi, t);
    FirstOfBoth(Ends(code, s, pc, hi), EndsAll(code, s, pc, Downward(lo, hi - 1)), t);
  }

  /** The obligatory part of a repeat: true and `min` bytes further on, or false. */
  method MatchMinimum(c: byte, min: nat, max: int, s: seq<byte>, i: nat) returns (ok: bool)
    requires max == -1 || min <= max
    ensures ok <==> min <= RunLength(c, max, s, i)
  {
    var n := 0;
    while n < min
      invariant 0 <= n <= min && n <= RunLength(c, max, s, i)
    {
      RunEndsAt(c, max, s, i, n);
      if i + n >= |s| || s[i + n] != c {
        return false;
      }
      n := n + 1;
    }
    return true;
  }

  /** Whether the byte behind the first `n` belongs to the run as well. */
  method TakeOne(c: byte, max: int, s: seq<byte>, i: nat, n: nat) returns (more: bool)
    requires max >= -1 && n <= RunLength(c, max, s, i)
    ensures more <==> n < RunLength(c, max, s, i)
  {
    RunEndsAt(c, max, s, i, n);
    return !((max != -1 && n >= max) || i + n >= |s| || s[i + n] != c);
  }

  /** The rest from `lo`; if it fails, the positions from `lo + 1` up to `hi` decide. */
  method TryUpward(code: seq<byte>, s: seq<byte>, pc: nat, lo: nat, ghost hi: nat, t: Attempt, ghost want: int)
    returns (end: int)
    requires lo <= hi && First(EndsAll(code, s, pc, Upward(lo, hi)), t) == want && Stays(code, pc)
    ensures (end != NO_MATCH ==> want == end) && (end == NO_MATCH && lo == hi ==> want == NO_MATCH)
    ensures end == NO_MATCH && lo < hi ==> First(EndsAll(code, s, pc, Upward(lo + 1, hi)), t) == want
    decreases |code| - pc, 2
  {
    FirstOfRest(code, s, pc, lo, hi, t, want);
    end := Match(code, s, pc, lo, t);
  }

  /** Try the rest behind `fi` bytes; if it fails and there is one more byte, the positions from that on decide. */
  method LazyStep(code: seq<byte>, s: seq<byte>, pc: nat, c: byte, max: int, i: nat, fi: nat, t: Attempt,
                  ghost run: nat, ghost want: int)
    returns (end: int, more: bool)
    requires max >= -1 && run == RunLength(c, max, s, i) && fi <= run && Stays(code, pc)
    requires First(EndsAll(code, s, pc, Upward(i + fi, i + run)), t) == want
    ensures !more ==> end == want
    ensures more ==> fi < run && First(EndsAll(code, s, pc, Upward(i + fi + 1, i + run)), t) == want
    decreases |code| - pc, 3
  {
    end := TryUpward(code, s, pc, i + fi, i + run, t, want);
    if end != NO_MATCH {
      return end, false;
    }
    more := TakeOne(c, max, s, i, fi);
  }

  /** Minimizing: try the rest, and take one byte more each time it fails. */
  method MatchLazily(code: seq<byte>, s: seq<byte>, pc: nat, c: byte, min: nat, max: int, i: nat, t: Attempt)
    returns (end: int)
    requires max >= -1 && min <= RunLength(c, max, s, i) && Stays(code, pc)
    ensures end == First(EndsAll(code, s, pc, Upward(i + min, i + RunLength(c, max, s, i))), t)
    decreases |code| - pc, 4
  {
    ghost var run := RunLength(c, max, s, i);
    ghost var want := First(EndsAll(code, s, pc, Upward(i + min, i + run)), t);
    var fi := min;
    while true
      invariant fi <= run && First(EndsAll(code, s, pc, Upward(i + fi, i + run)), t) == want
      decreases run - fi
    {
      var more: bool;
      end, more := LazyStep(code, s, pc, c, max, i, fi, t, run, want);
      if !more {
        return;
      }
      fi := fi + 1;
    }
  }

  /** As many bytes as there are and `max` allows. */
  method TakeAll(c: byte, min: nat, max: int, s: seq<byte>, i: nat) returns (n: nat)
    requires max >= -1 && min <= RunLength(c, max, s, i)
    ensures n == RunLength(c, max, s, i)
  {
    n := min;
    RunEndsAt(c, max, s, i, n);
    while (max == -1 || n < max) && i + n < |s| && s[i + n] == c
      invariant n <= RunLength(c, max, s, i)
      invariant n == RunLength(c, max, s, i) <==> !((max == -1 || n < max) && i + n < |s| && s[i + n] == c)
      decreases RunLength(c, max, s, i) - n
    {
      n := n + 1;
      RunEndsAt(c, max, s, i, n);
    }
  }

  /** Maximizing: take all the bytes there are, then try the rest and give one back each time it fails. */
  method MatchGreedily(code: seq<byte>, s: seq<byte>, pc: nat, c: byte, min: nat, max: int, i: nat, t: Attempt)
    returns (end: int)
    requires max >= -1 && min <= RunLength(c, max, s, i) && Stays(code, pc)
    ensures end == First(EndsAll(code, s, pc, Downward(i + min, i + RunLength(c, max, s, i))), t)
    decreases |code| - pc, 2
  {
    var n := TakeAll(c, min, max, s, i);
    var e: int := i + n;
    ghost var want := First(EndsAll(code, s, pc, Downward(i + min, e)), t);
    while e >= i + min
      invariant i + min - 1 <= e
      invariant First(EndsAll(code, s, pc, Downward(i + min, e)), t) == want
    {
      FirstOfFewer(code, s, pc, i + min, e, t, want);
      end := Match(code, s, pc, e, t);
      if end != NO_MATCH {
        return;
      }
      e := e - 1;
    }
    assert Downward(i + min, e) == [];
    return NO_MATCH;
  }

  // ---------------------------------------------------------------- groups

  /** do next += GET(next, 1); while (*next == OP_ALT); */
  method FindKet(code: seq<byte>, pc: nat) returns (next: nat)
    requires KetOf(code, pc) < |code|
    ensures next == KetOf(code, pc)
  {
    next := pc + Link(code, pc);
    while code[next] == OP_ALT
      invariant pc < next < |code|
      invariant KetOf(code, pc) == if code[next] == OP_ALT then KetOf(code, next) else next
      decreases |code| - next
    {
      next := next + Link(code, next);
    }
  }

  /** The alternatives of a bracket: all but the last are tried by recursion, the last one is left to the caller. */
  method MatchBracket(code: seq<byte>, s: seq<byte>, pc: nat, i: nat, t: Attempt) returns (end: int, tail: nat)
    requires StaysAlts(code, pc)
    ensures end != NO_MATCH ==> end == First(EndsAlts(code, s, pc, i), t)
    ensures end == NO_MATCH
            ==> tail > pc && Stays(code, tail) && First(EndsAlts(code, s, pc, i), t) == First(Ends(code, s, tail, i), t)
    decreases |code| - pc, 0
  {
    end, tail := NO_MATCH, pc;
    while code[tail + Link(code, tail)] == OP_ALT
      invariant end == NO_MATCH && tail >= pc && StaysAlts(code, tail)
      invariant First(EndsAlts(code, s, pc, i), t) == First(EndsAlts(code, s, tail, i), t)
      decreases |code| - tail
    {
      var next := tail + Link(code, tail);
      FirstOfBoth(Ends(code, s, tail + 3, i), EndsAlts(code, s, next, i), t);
      end := Match(code, s, tail + 3, i, t);
      if end != NO_MATCH {
        return;
      }
      tail := next;
    }
    tail := tail + 3;
  }

  // ---------------------------------------------------------------- the matcher

  /** A repeated literal; `go` when the count is fixed and matching goes on at the same level. */
  method MatchRepeat(code: seq<byte>, s: seq<byte>, pc: nat, i: nat, t: Attempt, ghost was: seq<nat>)
    returns (end: int, go: bool, next: nat)
    requires Stays(code, pc) && IsRepeat(code[pc]) && was == Ends(code, s, pc, i)
    ensures !go ==> end == First(was, t)
    ensures go ==> was == Ends(code, s, pc + BoundsAt(code, pc).skip + 1, next)
    decreases |code| - pc, 0
  {
    var b := BoundsAt(code, pc);
    var c := code[pc + b.skip];
    next, go, end := i, false, NO_MATCH;
    var ok := MatchMinimum(c, b.min, b.max, s, i);
    assert was == EndsAll(code, s, pc + b.skip + 1, Stops(c, b.min, b.max, b.lazy, s, i));
    if !ok {
      return;
    }
    if b.min == b.max {
      RunNoLonger(c, b.max, s, i);
      EndsAllOne(code, s, pc + b.skip + 1, i + b.min);
      RangePoint(i + b.min, b.lazy);
      next, go := i + b.min, true;
    } else if b.lazy {
      end := MatchLazily(code, s, pc + b.skip + 1, c, b.min, b.max, i, t);
    } else {
      end := MatchGreedily(code, s, pc + b.skip + 1, c, b.min, b.max, i, t);
    }
  }

  lemma {:induction false} RunNoLonger(c: byte, max: int, s: seq<byte>, i: nat)
    requires max >= 0
    ensures RunLength(c, max, s, i) <= max
    decreases max
  {
    if max != 0 && i < |s| && s[i] == c {
      RunNoLonger(c, max - 1, s, i + 1);
    }
  }

  /** BRAZERO and BRAMINZERO: the group or the rest first; the other one is left to the caller. */
  method MatchOptional(code: seq<byte>, s: seq<byte>, pc: nat, i: nat, t: Attempt, ghost was: seq<nat>)
    returns (end: int, tail: nat)
    requires Stays(code, pc) && code[pc] in {OP_BRAZERO, OP_BRAMINZERO} && was == Ends(code, s, pc, i)
    ensures end != NO_MATCH ==> end == First(was, t)
    ensures end == NO_MATCH ==> tail > pc && Stays(code, tail) && First(was, t) == First(Ends(code, s, tail, i), t)
    decreases |code| - pc, 0
  {
    if code[pc] == OP_BRAZERO {
      FirstOfBoth(Ends(code, s, pc + 1, i), Ends(code, s, KetOf(code, pc + 1) + 3, i), t);
      end := Match(code, s, pc + 1, i, t);
      var next := FindKet(code, pc + 1);
      tail := next + 3;
    } else {
      FirstOfBoth(Ends(code, s, KetOf(code, pc + 1) + 3, i), Ends(code, s, pc + 1, i), t);
      var next := FindKet(code, pc + 1);
      end := Match(code, s, next + 3, i, t);
      tail := pc + 1;
    }
  }

  /** The first acceptable end position from (pc, i), or NO_MATCH. */
  method Match(code: seq<byte>, s: seq<byte>, pc0: nat, i0: nat, t: Attempt) returns (end: int)
    requires Stays(code, pc0)
    ensures end == First(Ends(code, s, pc0, i0), t)
    decreases |code| - pc0, 1
  {
    var pc: nat, i: nat := pc0, i0;
    ghost var want := First(Ends(code, s, pc0, i0), t);
    while true
      invariant pc >= pc0 && Stays(code, pc) && First(Ends(code, s, pc, i), t) == want
      decreases |code| - pc
    {
      var op := code[pc];
      if op == OP_END {
        return if Refused(t, i) then NO_MATCH else i;
      } else if op == OP_CHAR {
        if i >= |s| || code[pc + 1] != s[i] {
          return NO_MATCH;
        }
        pc, i := pc + 2, i + 1;
      } else if IsRepeat(op) {
        var go: bool, next: nat;
        end, go, next := MatchRepeat(code, s, pc, i, t, Ends(code, s, pc, i));
        if !go {
          return;
        }
        pc, i := pc + BoundsAt(code, pc).skip + 1, next;
      } else if op == OP_BRA {
        end, pc := MatchBracket(code, s, pc, i, t);
        if end != NO_MATCH {
          return;
        }
      } else if op == OP_ALT {
        pc := FindKet(code, pc);
      } else if op == OP_KET {
        pc := pc + 3;
      } else if op == OP_SKIPZERO {
        pc := FindKet(code, pc + 1);
        pc := pc + 3;
      } else {
        end, pc := MatchOptional(code, s, pc, i, t, Ends(code, s, pc, i));
        if end != NO_MATCH {
          return;
        }
      }
    }
  }

  // ---------------------------------------------------------------- whole patterns

  /** Result of an attempt at `m` by the reference meaning of the pattern. */
  function Expected(a: Alts, s: seq<byte>, m: nat, startOffset: nat, notEmpty: bool, notEmptyAtStart: bool): int
    requires AltsOk(a)
  {
    First(TriesAlts(a, s, m), Attempt(m, notEmpty, notEmptyAtStart, startOffset))
  }

  datatype Newline = Cr | Lf | CrLf | AnyCrLf | Any

  /** A newline starts at `m`. */
  predicate IsNewline(nl: Newline, s: seq<byte>, m: nat) {
    m < |s| &&
    match nl
    case Cr => s[m] == 13
    case Lf => s[m] == 10
    case CrLf => s[m] == 13 && m + 1 < |s| && s[m + 1] == 10
    case AnyCrLf => s[m] == 10 || s[m] == 13
    case Any => 10 <= s[m] <= 13 || s[m] == 133
  }

  /** What decides where attempts start; `hasCrLf` says that the pattern itself names CR or LF. */
  datatype Bumpalong = Bumpalong(anchored: bool, firstLine: bool, newline: Newline, hasCrLf: bool)

  /** No attempt starts at this LF: the CR in front of it belongs to the same newline. */
  predicate Skipped(o: Bumpalong, s: seq<byte>, m: nat) {
    0 < m < |s| && s[m - 1] == 13 && s[m] == 10 && !o.hasCrLf && o.newline in {CrLf, AnyCrLf, Any}
  }

  /** The starts of attempts: all places, less those the options rule out. */
  predicate Tried(o: Bumpalong, s: seq<byte>, startOffset: nat, m: nat) {
    startOffset <= m <= |s|
    && (m == startOffset || (!o.anchored && !Skipped(o, s, m)
       && (o.firstLine ==> !NewlineBefore(o, s, startOffset, m))))
  }

  /** A newline stands at a place before `m` where an attempt could start. */
  predicate NewlineBefore(o: Bumpalong, s: seq<byte>, startOffset: nat, m: nat) {
    exists k :: startOffset <= k < m && IsNewline(o.newline, s, k) && (k == startOffset || !Skipped(o, s, k))
  }

  /** Without options every place is tried, and with the anchor only the first one. */
  lemma TriedMeans(o: Bumpalong, s: seq<byte>, startOffset: nat, m: nat)
    requires startOffset <= |s|
    ensures o.anchored ==> (Tried(o, s, startOffset, m) <==> m == startOffset)
    ensures !o.anchored && !o.firstLine && (o.hasCrLf || o.newline in {Cr, Lf})
            ==> (Tried(o, s, startOffset, m) <==> startOffset <= m <= |s|)
    ensures !o.anchored && !o.firstLine && !o.hasCrLf && o.newline in {CrLf, AnyCrLf, Any}
            ==> (Tried(o, s, startOffset, m)
                 <==> startOffset <= m <= |s| && !(startOffset < m < |s| && s[m - 1] == 13 && s[m] == 10))
  {
  }

  /** With the first-line option a start is tried iff no newline begins in front of it. */
  lemma FirstLineMeans(o: Bumpalong, s: seq<byte>, startOffset: nat, m: nat)
    requires startOffset <= m <= |s| && !o.anchored && o.firstLine
    ensures o.newline == Lf ==> (Tried(o, s, startOffset, m) <==> forall k :: startOffset <= k < m ==> s[k] != 10)
    ensures o.newline == Cr ==> (Tried(o, s, startOffset, m) <==> forall k :: startOffset <= k < m ==> s[k] != 13)
    ensures o.newline == CrLf
            ==> (Tried(o, s, startOffset, m)
                 <==> forall k, j :: startOffset <= k < m && j == k + 1 < |s| ==> s[k] != 13 || s[j] != 10)
  {
    if o.newline in {Cr, Lf, CrLf} {
      if k :| startOffset <= k < m && IsNewline(o.newline, s, k) {
        assert !Skipped(o, s, k);
      } else if m > startOffset && Skipped(o, s, m) {
        assert IsNewline(o.newline, s, m - 1);
      }
      assert Tried(o, s, startOffset, m) <==> forall k :: startOffset <= k < m ==> !IsNewline(o.newline, s, k);
      NewlineBytes(o.newline, s, startOffset, m);
    }
  }

  lemma NewlineBytes(nl: Newline, s: seq<byte>, from: nat, m: nat)
    requires m <= |s|
    ensures nl == Lf
            ==> ((forall k :: from <= k < m ==> !IsNewline(nl, s, k)) <==> forall k :: from <= k < m ==> s[k] != 10)
    ensures nl == Cr
            ==> ((forall k :: from <= k < m ==> !IsNewline(nl, s, k)) <==> forall k :: from <= k < m ==> s[k] != 13)
    ensures nl == CrLf
            ==> ((forall k :: from <= k < m ==> !IsNewline(nl, s, k))
                 <==> forall k, j :: from <= k < m && j == k + 1 < |s| ==> s[k] != 13 || s[j] != 10)
  {
    forall k | from <= k < m
      ensures nl == Lf ==> (IsNewline(nl, s, k) <==> s[k] == 10)
      ensures nl == Cr ==> (IsNewline(nl, s, k) <==> s[k] == 13)
      ensures nl == CrLf ==> (IsNewline(nl, s, k) <==> s[k] == 13 && k + 1 < |s| && s[k + 1] == 10)
    {
    }
  }

  /** No start below `n` that is tried has a match. */
  ghost predicate NoneSoFar(a: Alts, s: seq<byte>, startOffset: nat, o: Bumpalong, notEmpty: bool,
                            notEmptyAtStart: bool, n: nat)
    requires AltsOk(a)
  {
    forall m: nat :: m < n && Tried(o, s, startOffset, m)
        ==> Expected(a, s, m, startOffset, notEmpty, notEmptyAtStart) == NO_MATCH
  }

  /** Where the next attempt starts, if there is one. */
  function NextStart(o: Bumpalong, s: seq<byte>, start: nat): (next: nat)
    requires start <= |s|
  {
    if o.anchored || (o.firstLine && IsNewline(o.newline, s, start)) then |s| + 1
    else if Skipped(o, s, start + 1) then start + 2 else start + 1
  }

  /** Between one start and the next none is tried. */
  lemma NextTried(o: Bumpalong, s: seq<byte>, startOffset: nat, start: nat)
    requires Tried(o, s, startOffset, start)
    ensures var next := NextStart(o, s, start);
            start < next <= |s| + 1 && (next <= |s| ==> Tried(o, s, startOffset, next))
    ensures forall m: nat :: start < m < NextStart(o, s, start) ==> !Tried(o, s, startOffset, m)
  {
  }

  /**
   * `pcre_exec` on a compiled pattern: attempts at one start after the other. The match found is the leftmost one
   * among the starts that are tried, and there the first one in the order of direct repetition and alternation.
   */
  method Exec(code: seq<byte>, ghost a: Alts, s: seq<byte>, startOffset: nat, o: Bumpalong, notEmpty: bool,
              notEmptyAtStart: bool)
    returns (start: nat, end: int)
    requires AltsOk(a) && code == EmitPattern(a) && |code| <= MAX_PATTERN_SIZE && startOffset <= |s|
    ensures end != NO_MATCH
            ==> Tried(o, s, startOffset, start) && end == Expected(a, s, start, startOffset, notEmpty, notEmptyAtStart)
    ensures NoneSoFar(a, s, startOffset, o, notEmpty, notEmptyAtStart, if end == NO_MATCH then |s| + 1 else start)
    ensures end != -1 ==>
              Answers(TriesAlts(a, s, start), start, notEmpty || (notEmptyAtStart && start == startOffset), end)
    ensures forall m: nat :: Tried(o, s, startOffset, m) && (end == -1 || m < start) ==>
              Fails(TriesAlts(a, s, m), m, notEmpty || (notEmptyAtStart && m == startOffset))
  {
    PatternStays(a);
    start := startOffset;
    while true
      invariant Tried(o, s, startOffset, start) && NoneSoFar(a, s, startOffset, o, notEmpty, notEmptyAtStart, start)
      decreases |s| - start
    {
      PatternMatches(a, s, start);
      end := Match(code, s, 0, start, Attempt(start, notEmpty, notEmptyAtStart, startOffset));
      if end != NO_MATCH {
        FirstMeans(TriesAlts(a, s, start), Attempt(start, notEmpty, notEmptyAtStart, startOffset));
        NoneFails(a, s, startOffset, o, notEmpty, notEmptyAtStart, start);
        return;
      }
      NoneUpToNext(a, s, startOffset, o, notEmpty, notEmptyAtStart, start);
      start := Advance(o, s, start);
      if start > |s| {
        NoneFails(a, s, startOffset, o, notEmpty, notEmptyAtStart, |s| + 1);
        return;
      }
    }
  }

  /** What it means that no start below `n` has a match. */
  lemma NoneFails(a: Alts, s: seq<byte>, startOffset: nat, o: Bumpalong, notEmpty: bool, notEmptyAtStart: bool, n: nat)
    requires AltsOk(a) && NoneSoFar(a, s, startOffset, o, notEmpty, notEmptyAtStart, n)
    ensures forall m: nat :: Tried(o, s, startOffset, m) && m < n ==>
              Fails(TriesAlts(a, s, m), m, notEmpty || (notEmptyAtStart && m == startOffset))
  {
    forall m: nat | Tried(o, s, startOffset, m) && m < n
      ensures Fails(TriesAlts(a, s, m), m, notEmpty || (notEmptyAtStart && m == startOffset))
    {
      FirstMeans(TriesAlts(a, s, m), Attempt(m, notEmpty, notEmptyAtStart, startOffset));
    }
  }

  lemma NoneUpToNext(a: Alts, s: seq<byte>, startOffset: nat, o: Bumpalong, notEmpty: bool, notEmptyAtStart: bool,
                     start: nat)
    requires AltsOk(a) && Tried(o, s, startOffset, start)
    requires NoneSoFar(a, s, startOffset, o, notEmpty, notEmptyAtStart, start)
    requires Expected(a, s, start, startOffset, notEmpty, notEmptyAtStart) == NO_MATCH
    ensures NoneSoFar(a, s, startOffset, o, notEmpty, notEmptyAtStart, NextStart(o, s, start))
    ensures start < NextStart(o, s, start) <= |s| + 1
    ensures NextStart(o, s, start) <= |s| ==> Tried(o, s, startOffset, NextStart(o, s, start))
  {
    NextTried(o, s, startOffset, start);
  }

  /** The end of the bumpalong loop; a start beyond the subject ends it. */
  method Advance(o: Bumpalong, s: seq<byte>, start: nat) returns (next: nat)
    requires start <= |s|
    ensures next == NextStart(o, s, start)
  {
    if o.firstLine && IsNewline(o.newline, s, start) {
      return |s| + 1;
    }
    next := start + 1;
    if o.anchored || next > |s| {
      return |s| + 1;
    }
    if s[next - 1] == 13 && next < |s| && s[next] == 10 && !o.hasCrLf && o.newline in {CrLf, AnyCrLf, Any} {
      next := next + 1;
    }
  }
}
