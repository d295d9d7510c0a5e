/** Base64: the encoding of section 4 of RFC 4648 and the decoder as a function of its carried state. */
module Base64Spec {
  type byte = b: int | 0 <= b < 256
  type sextet = v: int | 0 <= v < 64

  // ---------------------------------------------------------------- the alphabet

  /** Table 1 of RFC 4648. */
  function Alphabet(v: sextet): byte {
    if v < 26 then 65 + v
    else if v < 52 then 97 + (v - 26)
    else if v < 62 then 48 + (v - 52)
    else if v == 62 then 43
    else 47
  }

  // The decoding table, in the runs of its layout.
  const SIGNS: seq<int> := [62, -1, -1, -1, 63, 52, 53, 54, 55, 56, 57, 58, 59, 60, 61, -1, -1, -1, -2, -1, -1, -1]
  const UPPER: seq<int> :=
    [0, 1, 2, 3, 4, 5, 6, 7, 8, 9, 10, 11, 12, 13, 14, 15, 16, 17, 18, 19, 20, 21, 22, 23, 24, 25]
  const BETWEEN: seq<int> := [-1, -1, -1, -1, -1, -1]
  const LOWER: seq<int> :=
    [26, 27, 28, 29, 30, 31, 32, 33, 34, 35, 36, 37, 38, 39, 40, 41, 42, 43, 44, 45, 46, 47, 48, 49, 50, 51]
  const TABLE: seq<int> := SIGNS + UPPER + BETWEEN + LOWER

  /** Conversion of a small int to a signed char. */
  function ToChar(n: int): int
    requires -256 <= n < 256
  {
    if n < -128 then n + 256 else if n > 127 then n - 256 else n
  }

  /** `base64_decode_value` on a byte read as a signed char; the subtraction wraps. */
  function DecodeValue(b: byte): (v: int)
    ensures -2 <= v < 64
  {
    var c := ToChar(ToChar(b) - 43);
    if c < 0 || c >= |TABLE| then -1
    else
      TableRange(c);
      TABLE[c]
  }

  /** The table, run by run. */
  lemma TableRange(c: int)
    requires 0 <= c < 80
    ensures |TABLE| == 80
    ensures TABLE[c] == if c == 0 then 62 else if c == 4 then 63 else if 5 <= c < 15 then c + 47 else if c == 18 then -2
                        else if 22 <= c < 48 then c - 22 else if 54 <= c then c - 28 else -1
  {
    assert TABLE[c] == if c < 22 then SIGNS[c] else if c < 48 then UPPER[c - 22]
                       else if c < 54 then BETWEEN[c - 48] else LOWER[c - 54];
    if 22 <= c < 48 {
      UpperRun(c - 22);
    } else if c >= 54 {
      LowerRun(c - 54);
    }
  }

  lemma UpperRun(k: nat)
    requires k < 26
    ensures UPPER[k] == k
  {
  }

  lemma LowerRun(k: nat)
    requires k < 26
    ensures LOWER[k] == k + 26
  {
  }

  /** A byte decodes to a value iff it is that value's letter. */
  lemma DecodesLetters(b: byte, v: sextet)
    ensures DecodeValue(b) == v <==> Alphabet(v) == b
  {
    var c := ToChar(ToChar(b) - 43);
    if 0 <= c < 80 {
      TableRange(c);
    }
  }

  // ---------------------------------------------------------------- encoding

  const PAD: byte := 61

  /** The values of the letters; the padding is left to `Encode`. */
  function Sextets(bs: seq<byte>): seq<sextet> {
    if bs == [] then []
    else if |bs| == 1 then [bs[0] / 4, bs[0] % 4 * 16]
    else if |bs| == 2 then [bs[0] / 4, bs[0] % 4 * 16 + bs[1] / 16, bs[1] % 16 * 4]
    else [bs[0] / 4, bs[0] % 4 * 16 + bs[1] / 16, bs[1] % 16 * 4 + bs[2] / 64, bs[2] % 64] + Sextets(bs[3..])
  }

  function Letters(vs: seq<sextet>): seq<byte> {
    if vs == [] then [] else [Alphabet(vs[0])] + Letters(vs[1..])
  }

  function Encode(bs: seq<byte>): seq<byte> {
    Letters(Sextets(bs)) + (if |bs| % 3 == 1 then [PAD, PAD] else if |bs| % 3 == 2 then [PAD] else [])
  }

  // ---------------------------------------------------------------- decoding

  datatype Step = A | B | C | D

  /** Where the decoder stopped, and the byte it has begun. */
  datatype State = State(step: Step, pending: byte)

  const INIT: State := State(A, 0)

  /** A begun byte has its low bits still clear; at step A nothing is begun. */
  predicate Ok(st: State) {
    match st.step
    case A => st.pending == 0
    case B => st.pending % 4 == 0
    case C => st.pending % 16 == 0
    case D => st.pending % 64 == 0
  }

  /** Bitwise or, bit by bit from the lowest. */
  function BitOr(a: nat, b: nat): nat {
    if a == 0 && b == 0 then 0
    else 2 * BitOr(a / 2, b / 2) + (if a % 2 == 1 || b % 2 == 1 then 1 else 0)
  }

  lemma {:induction false} OrZero(p: nat)
    ensures BitOr(p, 0) == p
  {
    if p > 0 {
      OrZero(p / 2);
    }
  }

  lemma Halved(p: nat, k: nat)
    requires k in {2, 4, 8, 16, 32, 64} && p % k == 0
    ensures p % 2 == 0 && (p / 2) % (k / 2) == 0
  {
    var q := p / k;
    if k == 2 {
    } else if k == 4 {
      assert p == 4 * q && p / 2 == 2 * q;
    } else if k == 8 {
      assert p == 8 * q && p / 2 == 4 * q;
    } else if k == 16 {
      assert p == 16 * q && p / 2 == 8 * q;
    } else if k == 32 {
      assert p == 32 * q && p / 2 == 16 * q;
    } else {
      assert p == 64 * q && p / 2 == 32 * q;
    }
  }

  /** The set bits are apart, `x` being below a power of two that divides `p`: or is the sum. */
  lemma {:induction false} OrIsSum(p: nat, x: nat, k: nat)
    requires k in {1, 2, 4, 8, 16, 32, 64} && p % k == 0 && x < k
    ensures BitOr(p, x) == p + x
    decreases k
  {
    if k == 1 {
      OrZero(p);
    } else {
      Halved(p, k);
      OrIsSum(p / 2, x / 2, k / 2);
    }
  }

  /** `|=` on bytes whose set bits are apart. */
  function Or(p: byte, x: byte, k: int): (r: byte)
    requires k in {4, 16, 64} && p % k == 0 && x < k
    ensures r == p + x
  {
    OrIsSum(p, x, k);
    assert p + x < 256;
    BitOr(p, x)
  }

  /** One letter: the byte it completes, if any, and the state behind it. */
  function Next(st: State, v: sextet): (r: (seq<byte>, State))
    requires Ok(st)
    ensures Ok(r.1) && |r.0| <= 1
  {
    match st.step
    case A => ([], State(B, v * 4))
    case B => ([Or(st.pending, v / 16, 4)], State(C, v % 16 * 16))
    case C => ([Or(st.pending, v / 4, 16)], State(D, v % 4 * 64))
    case D => ([Or(st.pending, v, 64)], State(A, 0))
  }

  /** All of `s`: the completed bytes and the state behind it. */
  function Decode(st: State, s: seq<byte>): (r: (seq<byte>, State))
    requires Ok(st)
    ensures Ok(r.1)
    decreases |s|
  {
    if s == [] then ([], st)
    else
      var v := DecodeValue(s[0]);
      if v < 0 then Decode(st, s[1..])
      else
        var n := Next(st, v);
        var rest := Decode(n.1, s[1..]);
        (n.0 + rest.0, rest.1)
  }

  /** The letters of `s`, as values. */
  function Values(s: seq<byte>): seq<sextet> {
    if s == [] then []
    else if DecodeValue(s[0]) < 0 then Values(s[1..])
    else [DecodeValue(s[0])] + Values(s[1..])
  }

  /** Decoding letters that are already values. */
  function DecodeAll(st: State, vs: seq<sextet>): (r: (seq<byte>, State))
    requires Ok(st)
    ensures Ok(r.1)
    decreases |vs|
  {
    if vs == [] then ([], st)
    else
      var n := Next(st, vs[0]);
      var rest := DecodeAll(n.1, vs[1..]);
      (n.0 + rest.0, rest.1)
  }

  // ---------------------------------------------------------------- theorems

  lemma {:induction false} DecodeIsDecodeAll(st: State, s: seq<byte>)
    requires Ok(st)
    ensures Decode(st, s) == DecodeAll(st, Values(s))
    decreases |s|
  {
    if s != [] {
      var v := DecodeValue(s[0]);
      if v < 0 {
        DecodeIsDecodeAll(st, s[1..]);
      } else {
        DecodeIsDecodeAll(Next(st, v).1, s[1..]);
        assert Values(s)[1..] == Values(s[1..]);
      }
    }
  }

  /** Stopping between `s` and `t` and going on with the carried state is decoding them at once. */
  lemma {:induction false} Resumable(st: State, s: seq<byte>, t: seq<byte>)
    requires Ok(st)
    ensures var first := Decode(st, s);
            var second := Decode(first.1, t);
            Decode(st, s + t) == (first.0 + second.0, second.1)
    decreases |s|
  {
    if s == [] {
      assert s + t == t && [] + Decode(st, t).0 == Decode(st, t).0;
    } else {
      assert (s + t)[1..] == s[1..] + t;
      var v := DecodeValue(s[0]);
      var n := if v < 0 then st else Next(st, v).1;
      Resumable(n, s[1..], t);
      if v >= 0 {
        var a, b, c := Next(st, v).0, Decode(n, s[1..]).0, Decode(Decode(n, s[1..]).1, t).0;
        assert a + (b + c) == (a + b) + c;
      }
    }
  }

  function Rank(step: Step): nat {
    match step case A => 0 case B => 1 case C => 2 case D => 3
  }

  /** One letter in front of `n` others, at rank `r`. */
  lemma CountStep(r: nat, n: nat)
    requires r < 4
    ensures var next := (r + 1) % 4;
            (r + n + 1) * 3 / 4 - r * 3 / 4 == (if r > 0 then 1 else 0) + (next + n) * 3 / 4 - next * 3 / 4
            && (r + n + 1) % 4 == (next + n) % 4
  {
    if r == 3 {
      assert (3 + n + 1) * 3 == n * 3 + 3 * 4;
    }
  }

  lemma NextRank(st: State, v: sextet)
    requires Ok(st)
    ensures Rank(Next(st, v).1.step) == (Rank(st.step) + 1) % 4 && |Next(st, v).0| == if Rank(st.step) > 0 then 1 else 0
  {
  }

  /** `k` letters complete as many whole bytes as their bits hold. */
  lemma {:induction false} CountAll(st: State, vs: seq<sextet>)
    requires Ok(st)
    ensures |DecodeAll(st, vs).0| == (Rank(st.step) + |vs|) * 3 / 4 - Rank(st.step) * 3 / 4
    ensures Rank(DecodeAll(st, vs).1.step) == (Rank(st.step) + |vs|) % 4
    decreases |vs|
  {
    if vs != [] {
      CountAll(Next(st, vs[0]).1, vs[1..]);
      NextRank(st, vs[0]);
      CountStep(Rank(st.step), |vs| - 1);
    }
  }

  /** From the start, `k` letters give floor(3k/4) bytes, whatever stands between them. */
  lemma DecodedCount(s: seq<byte>)
    ensures |Decode(INIT, s).0| == |Values(s)| * 3 / 4
    ensures Rank(Decode(INIT, s).1.step) == |Values(s)| % 4
  {
    DecodeIsDecodeAll(INIT, s);
    CountAll(INIT, Values(s));
  }

  lemma LetterRead(v: sextet, rest: seq<byte>)
    ensures Values([Alphabet(v)] + rest) == [v] + Values(rest)
  {
    DecodesLetters(Alphabet(v), v);
    assert ([Alphabet(v)] + rest)[1..] == rest;
  }

  lemma {:induction false} LettersRead(vs: seq<sextet>, tail: seq<byte>)
    requires Values(tail) == []
    ensures Values(Letters(vs) + tail) == vs
  {
    if vs == [] {
      assert Letters(vs) + tail == tail;
    } else {
      LettersRead(vs[1..], tail);
      LetterRead(vs[0], Letters(vs[1..]) + tail);
      assert Letters(vs) + tail == [Alphabet(vs[0])] + (Letters(vs[1..]) + tail);
    }
  }

  /** The padding says nothing; the letters of an encoding are its values. */
  lemma EncodedValues(bs: seq<byte>)
    ensures Values(Encode(bs)) == Sextets(bs)
  {
    assert DecodeValue(PAD) < 0 by {
      TableRange(18);
    }
    assert [PAD, PAD][1..] == [PAD] && [PAD][1..] == [];
    assert Values([PAD]) == [] && Values([PAD, PAD]) == [];
    LettersRead(Sextets(bs), if |bs| % 3 == 1 then [PAD, PAD] else if |bs| % 3 == 2 then [PAD] else []);
  }

  /** Four letters make three bytes. */
  lemma GroupDecoded(a: byte, b: byte, c: byte, rest: seq<sextet>)
    ensures DecodeAll(INIT, [a / 4, a % 4 * 16 + b / 16, b % 16 * 4 + c / 64, c % 64] + rest)
            == ([a, b, c] + DecodeAll(INIT, rest).0, DecodeAll(INIT, rest).1)
  {
    var w: sextet, x: sextet, y: sextet, z: sextet := a / 4, a % 4 * 16 + b / 16, b % 16 * 4 + c / 64, c % 64;
    FourFirst(w, x, y, z, rest);
    var s1, s2, s3 := State(B, w * 4), State(C, x % 16 * 16), State(D, y % 4 * 64);
    GroupSteps(a, b, c, w, x, y, z, s1, s2, s3);
    FourSteps(s1, s2, s3, w, x, y, z, a, b, c, rest);
  }

  lemma FourFirst(w: sextet, x: sextet, y: sextet, z: sextet, rest: seq<sextet>)
    ensures [w, x, y, z] + rest == [w] + ([x] + ([y] + ([z] + rest)))
  {
  }

  lemma GroupSteps(a: byte, b: byte, c: byte, w: sextet, x: sextet, y: sextet, z: sextet, s1: State, s2: State,
                   s3: State)
    requires w == a / 4 && x == a % 4 * 16 + b / 16 && y == b % 16 * 4 + c / 64 && z == c % 64
    requires s1 == State(B, w * 4) && s2 == State(C, x % 16 * 16) && s3 == State(D, y % 4 * 64)
    ensures Ok(s1) && Ok(s2) && Ok(s3)
    ensures Next(INIT, w) == ([], s1) && Next(s1, x) == ([a], s2) && Next(s2, y) == ([b], s3)
            && Next(s3, z) == ([c], INIT)
  {
    FirstByte(a, b / 16);
    SecondByte(b, c / 64);
    ThirdByte(c);
  }

  lemma FirstByte(a: byte, low: nat)
    requires low < 16
    ensures a / 4 * 4 + (a % 4 * 16 + low) / 16 == a && (a % 4 * 16 + low) % 16 == low
  {
    assert (a % 4 * 16 + low) / 16 == a % 4;
  }

  lemma SecondByte(b: byte, low: nat)
    requires low < 4
    ensures b / 16 * 16 + (b % 16 * 4 + low) / 4 == b && (b % 16 * 4 + low) % 4 == low
  {
    assert (b % 16 * 4 + low) / 4 == b % 16;
  }

  lemma ThirdByte(c: byte)
    ensures c / 64 * 64 + c % 64 == c
  {
  }

  lemma FourSteps(s1: State, s2: State, s3: State, w: sextet, x: sextet, y: sextet, z: sextet, a: byte, b: byte,
                  c: byte, rest: seq<sextet>)
    requires Ok(s1) && Ok(s2) && Ok(s3)
    requires Next(INIT, w) == ([], s1) && Next(s1, x) == ([a], s2) && Next(s2, y) == ([b], s3)
             && Next(s3, z) == ([c], INIT)
    ensures DecodeAll(INIT, [w] + ([x] + ([y] + ([z] + rest))))
            == ([a, b, c] + DecodeAll(INIT, rest).0, DecodeAll(INIT, rest).1)
  {
    DecodeStep(INIT, w, [x] + ([y] + ([z] + rest)));
    DecodeStep(s1, x, [y] + ([z] + rest));
    DecodeStep(s2, y, [z] + rest);
    DecodeStep(s3, z, rest);
    var t := DecodeAll(INIT, rest).0;
    assert [] + ([a] + ([b] + ([c] + t))) == [a, b, c] + t;
  }

  lemma DecodeStep(st: State, v: sextet, rest: seq<sextet>)
    requires Ok(st)
    ensures var n := Next(st, v); DecodeAll(st, [v] + rest) == (n.0 + DecodeAll(n.1, rest).0, DecodeAll(n.1, rest).1)
  {
    assert ([v] + rest)[1..] == rest;
  }

  lemma ThreeDecoded(a: byte, b: byte, c: byte, vs: seq<sextet>, rest: seq<byte>)
    requires DecodeAll(INIT, vs).0 == rest
    ensures DecodeAll(INIT, [a / 4, a % 4 * 16 + b / 16, b % 16 * 4 + c / 64, c % 64] + vs).0 == [a, b, c] + rest
  {
    GroupDecoded(a, b, c, vs);
  }

  lemma OneDecoded(bs: seq<byte>, a: byte)
    requires bs == [a]
    ensures DecodeAll(INIT, Sextets(bs)).0 == bs
  {
    var w: sextet, x: sextet := a / 4, a % 4 * 16;
    assert Sextets(bs) == [w] + ([x] + []);
    DecodeStep(INIT, w, [x] + []);
    DecodeStep(State(B, w * 4), x, []);
    assert [] + ([a] + []) == [a];
  }

  lemma {:induction false} SextetsDecoded(bs: seq<byte>)
    ensures DecodeAll(INIT, Sextets(bs)).0 == bs
  {
    if |bs| == 0 {
    } else if |bs| == 1 {
      OneDecoded(bs, bs[0]);
    } else if |bs| == 2 {
      TwoDecoded(bs, bs[0], bs[1]);
    } else {
      SextetsDecoded(bs[3..]);
      ThreeDecoded(bs[0], bs[1], bs[2], Sextets(bs[3..]), bs[3..]);
      ThreeFirst(bs);
    }
  }

  lemma ThreeFirst(bs: seq<byte>)
    requires |bs| > 2
    ensures bs == [bs[0], bs[1], bs[2]] + bs[3..]
  {
  }

  lemma TwoDecoded(bs: seq<byte>, a: byte, b: byte)
    requires bs == [a, b]
    ensures DecodeAll(INIT, Sextets(bs)).0 == bs
  {
    var w: sextet, x: sextet, y: sextet := a / 4, a % 4 * 16 + b / 16, b % 16 * 4;
    assert Sextets(bs) == [w] + ([x] + ([y] + []));
    DecodeStep(INIT, w, [x] + ([y] + []));
    DecodeStep(State(B, w * 4), x, [y] + []);
    DecodeStep(State(C, x % 16 * 16), y, []);
    assert [] + ([a] + ([b] + [])) == [a, b];
  }

  /** The decoder inverts the encoding, whatever is strewn between the letters and behind them. */
  lemma DecodeInvertsEncode(bs: seq<byte>, s: seq<byte>)
    requires Values(s) == Values(Encode(bs))
    ensures Decode(INIT, s).0 == bs
  {
    EncodedValues(bs);
    DecodeIsDecodeAll(INIT, s);
    SextetsDecoded(bs);
  }
}
