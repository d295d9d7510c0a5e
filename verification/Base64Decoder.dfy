/** `base64_decode_block`: a loop that leaves and re-enters in the middle of a group of four letters. */
module Base64Decoder {
  import opened Base64Spec

  lemma DecodeSkip(st: State, code: seq<byte>, i: nat)
    requires Ok(st) && i < |code| && DecodeValue(code[i]) < 0
    ensures Decode(st, code[i..]) == Decode(st, code[i + 1..])
  {
    assert code[i..][1..] == code[i + 1..];
  }

  lemma DecodeTake(st: State, code: seq<byte>, i: nat)
    requires Ok(st) && i < |code| && DecodeValue(code[i]) >= 0
    ensures var n := Next(st, DecodeValue(code[i]));
            Decode(st, code[i..]) == (n.0 + Decode(n.1, code[i + 1..]).0, Decode(n.1, code[i + 1..]).1)
  {
    assert code[i..][1..] == code[i + 1..];
  }

  /** The inner loop: the next letter's value and the place behind it, or -1 at the end of the code. */
  method NextFragment(code: seq<byte>, i0: nat, ghost st: State) returns (fragment: int, i: nat)
    requires i0 <= |code| && Ok(st)
    ensures i0 <= i <= |code| && fragment < 64
    ensures fragment < 0 ==> i == |code| && Decode(st, code[i0..]) == ([], st)
    ensures fragment >= 0 ==> var n := Next(st, fragment);
              i > i0 && Decode(st, code[i0..]) == (n.0 + Decode(n.1, code[i..]).0, Decode(n.1, code[i..]).1)
  {
    i := i0;
    while true
      invariant i0 <= i <= |code| && Decode(st, code[i..]) == Decode(st, code[i0..])
      decreases |code| - i
    {
      if i == |code| {
        assert code[i..] == [];
        return -1, i;
      }
      fragment := DecodeValue(code[i]);
      i := i + 1;
      if fragment >= 0 {
        DecodeTake(st, code, i - 1);
        return;
      }
      DecodeSkip(st, code, i - 1);
    }
  }

  /** The decoder's state with the pending byte where the source keeps it, in the output. */
  ghost function At(step: Step, out: array<byte>, p: nat): State
    reads out
    requires p < out.Length
  {
    State(step, if step == A then 0 else out[p])
  }

  /** What is still to come, in front of what is there. */
  ghost predicate Going(want: (seq<byte>, State), done: seq<byte>, st: State, rest: seq<byte>)
    requires Ok(st)
  {
    want == (done + Decode(st, rest).0, Decode(st, rest).1)
  }

  lemma GoingEmpty(want: (seq<byte>, State), done: seq<byte>, st: State, rest: seq<byte>)
    requires Ok(st) && Going(want, done, st, rest) && Decode(st, rest) == ([], st)
    ensures want == (done, st)
  {
    assert done + [] == done;
  }

  lemma GoingOn(want: (seq<byte>, State), done: seq<byte>, st: State, v: sextet, rest: seq<byte>, more: seq<byte>)
    requires Ok(st) && Going(want, done, st, rest)
    requires var n := Next(st, v); Decode(st, rest) == (n.0 + Decode(n.1, more).0, Decode(n.1, more).1)
    ensures Going(want, done + Next(st, v).0, Next(st, v).1, more)
  {
    var n := Next(st, v);
    assert done + (n.0 + Decode(n.1, more).0) == (done + n.0) + Decode(n.1, more).0;
  }

  /** What one letter does to the output at `p`; the same for every step, by the step's own shifts and masks. */
  method Write(step: Step, fragment: sextet, out: array<byte>, base: nat, p: nat) returns (next: Step, q: nat)
    requires base <= p < out.Length && Ok(At(step, out, p)) && p + |Next(At(step, out, p), fragment).0| < out.Length
    modifies out
    ensures var n := Next(old(At(step, out, p)), fragment);
            q == p + |n.0| && At(next, out, q) == n.1 && out[base..q] == old(out[base..p]) + n.0
    ensures forall k :: 0 <= k < out.Length && k != p && k != q ==> out[k] == old(out[k])
  {
    match step {
      case A =>
        out[p] := fragment % 64 * 4;
        next, q := B, p;
      case B =>
        out[p] := Or(out[p], fragment / 16, 4);
        out[p + 1] := fragment % 16 * 16;
        next, q := C, p + 1;
      case C =>
        out[p] := Or(out[p], fragment / 4, 16);
        out[p + 1] := fragment % 4 * 64;
        next, q := D, p + 1;
      case D =>
        out[p] := Or(out[p], fragment, 64);
        next, q := A, p + 1;
    }
  }

  /**
   * Decode `code` behind the carried state, writing from `base` on. The bytes written are the completed ones and, at
   * index `count`, the begun one; nothing beyond that is touched.
   */
  method DecodeBlock(code: seq<byte>, out: array<byte>, base: nat, step0: Step, plainchar0: byte)
    returns (count: nat, step: Step, plainchar: byte)
    requires Ok(State(step0, if step0 == A then 0 else plainchar0))
    requires base + |Decode(State(step0, if step0 == A then 0 else plainchar0), code).0| < out.Length
    modifies out
    ensures var want := Decode(State(step0, if step0 == A then 0 else plainchar0), code);
            count == |want.0| && out[base..base + count] == want.0
            && State(step, if step == A then 0 else plainchar) == want.1
    ensures forall k :: 0 <= k < out.Length && !(base <= k <= base + count) ==> out[k] == old(out[k])
  {
    ghost var want := Decode(State(step0, if step0 == A then 0 else plainchar0), code);
    var p, i := base, 0;
    step := step0;
    out[p] := plainchar0;
    assert code[0..] == code && out[base..p] == [];
    assert [] + want.0 == want.0;
    while true
      invariant base <= p < out.Length && 0 <= i <= |code| && p <= base + |want.0|
      invariant Ok(At(step, out, p)) && Going(want, out[base..p], At(step, out, p), code[i..])
      invariant forall k :: 0 <= k < out.Length && !(base <= k <= p) ==> out[k] == old(out[k])
      decreases |code| - i
    {
      ghost var st, j := At(step, out, p), i;
      ghost var done := out[base..p];
      var fragment;
      fragment, i := NextFragment(code, i, st);
      if fragment < 0 {
        GoingEmpty(want, done, st, code[j..]);
        plainchar := out[p];
        return p - base, step, plainchar;
      }
      GoingOn(want, done, st, fragment, code[j..], code[i..]);
      RoomLeft(want, done, st, fragment, code[j..], code[i..]);
      step, p := Write(step, fragment, out, base, p);
    }
  }

  lemma RoomLeft(want: (seq<byte>, State), done: seq<byte>, st: State, v: sextet, rest: seq<byte>, more: seq<byte>)
    requires Ok(st) && Going(want, done + Next(st, v).0, Next(st, v).1, more)
    ensures |done| + |Next(st, v).0| <= |want.0|
  {
  }
}
