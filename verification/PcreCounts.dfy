/** The counts of a quantifier {n}, {n,} or {n,m}: recognising them and reading their values in 32-bit arithmetic. */
module PcreCounts {
  import opened PcreSyntax

  const COMMA: byte := 44
  const BRACE: byte := 125
  const LIMIT: int := 0x1_0000_0000

  predicate IsDigit(b: byte) {
    48 <= b <= 57
  }

  /** The byte at `i`; the text ends with a NUL. */
  function At(p: seq<byte>, i: nat): byte {
    if i < |p| then p[i] else 0
  }

  /** Past the digits that start at `i`. */
  function SkipDigits(p: seq<byte>, i: nat): (r: nat)
    ensures r >= i && !IsDigit(At(p, r))
    decreases |p| - i
  {
    if IsDigit(At(p, i)) then SkipDigits(p, i + 1) else i
  }

  /** `is_counted_repeat`, from the byte behind the opening brace. */
  predicate IsCountedRepeat(p: seq<byte>) {
    IsDigit(At(p, 0))
    && var i := SkipDigits(p, 1);
       At(p, i) == BRACE
       || (At(p, i) == COMMA
           && (At(p, i + 1) == BRACE
               || (IsDigit(At(p, i + 1)) && At(p, SkipDigits(p, i + 2)) == BRACE)))
  }

  /** A result of int arithmetic, wrapped to 32 bits. */
  function Wrap(n: int): int {
    var r := n % LIMIT;
    if r >= LIMIT / 2 then r - LIMIT else r
  }

  /** value = value * 10 + digit, over the digits from `i` on. */
  function ReadNumber(p: seq<byte>, i: nat, value: int): int
    decreases |p| - i
  {
    if IsDigit(At(p, i)) then ReadNumber(p, i + 1, Wrap(value * 10 + At(p, i) - 48)) else value
  }

  datatype Counts = Counts(min: int, max: int, end: nat) | Err4 | Err5

  /** `read_repeat_counts` */
  function ReadRepeatCounts(p: seq<byte>): Counts {
    var min := ReadNumber(p, 0, 0);
    var i := SkipDigits(p, 0);
    if min < 0 || min > MAX_REPEAT then Err5
    else if At(p, i) == BRACE then Counts(min, min, i)
    else if At(p, i + 1) == BRACE then Counts(min, -1, i + 1)
    else
      var max := ReadNumber(p, i + 1, 0);
      if max < 0 || max > MAX_REPEAT then Err5
      else if max < min then Err4
      else Counts(min, max, SkipDigits(p, i + 1))
  }

  // ---------------------------------------------------------------- what is read

  /** The number the digits from `i` on stand for, behind digits that stand for `value`. */
  function Decimal(p: seq<byte>, i: nat, value: nat): nat
    decreases |p| - i
  {
    if IsDigit(At(p, i)) then Decimal(p, i + 1, value * 10 + (At(p, i) - 48)) else value
  }

  lemma WrapStep(value: int, d: int)
    ensures Wrap(Wrap(value) * 10 + d) == Wrap(value * 10 + d)
  {
    var k := (value - Wrap(value)) / LIMIT;
    assert value == Wrap(value) + k * LIMIT;
    assert value * 10 + d == Wrap(value) * 10 + d + (k * 10) * LIMIT;
    WrapShift(Wrap(value) * 10 + d, k * 10);
  }

  lemma WrapShift(n: int, k: int)
    ensures Wrap(n + k * LIMIT) == Wrap(n)
  {
    assert (n + k * LIMIT) % LIMIT == n % LIMIT;
  }

  /** Wrapping at every digit is wrapping the number. */
  lemma {:induction false} ReadIsWrapped(p: seq<byte>, i: nat, value: nat)
    ensures ReadNumber(p, i, Wrap(value)) == Wrap(Decimal(p, i, value))
    decreases |p| - i
  {
    if IsDigit(At(p, i)) {
      WrapStep(value, At(p, i) - 48);
      ReadIsWrapped(p, i + 1, value * 10 + (At(p, i) - 48));
    }
  }

  /** Accepted counts are in range and in order. */
  lemma AcceptedCounts(p: seq<byte>)
    ensures match ReadRepeatCounts(p)
            case Counts(min, max, _) => RepOk(Rep(min, max, false))
            case _ => true
  {
  }

  /**
   * The range check is meant to catch overflow by its sign, but a wrapped value need not be negative. A number passes
   * the check iff its low 32 bits are within the limit; what passes is the number itself iff the number is.
   */
  lemma NumberChecked(p: seq<byte>, i: nat)
    ensures var n, r := Decimal(p, i, 0), ReadNumber(p, i, 0);
            && (0 <= r <= MAX_REPEAT <==> n % LIMIT <= MAX_REPEAT)
            && (0 <= r <= MAX_REPEAT ==> (r == n <==> n <= MAX_REPEAT))
  {
    ReadIsWrapped(p, i, 0);
  }

  /** {4294967297} is read as {1}. */
  lemma OverflowAccepted()
    ensures var p := [52, 50, 57, 52, 57, 54, 55, 50, 57, 55, BRACE];
            IsCountedRepeat(p) && Decimal(p, 0, 0) == 4294967297 && ReadRepeatCounts(p) == Counts(1, 1, 10)
  {
    var p := [52, 50, 57, 52, 57, 54, 55, 50, 57, 55, BRACE];
    assert Decimal(p, 5, 42949) == Decimal(p, 10, 4294967297) == 4294967297 by {
      assert Decimal(p, 5, 42949) == Decimal(p, 7, 4294967);
      assert Decimal(p, 7, 4294967) == Decimal(p, 9, 429496729);
    }
    assert Decimal(p, 0, 0) == Decimal(p, 2, 42);
    assert Decimal(p, 2, 42) == Decimal(p, 4, 4294);
    assert Decimal(p, 4, 4294) == Decimal(p, 5, 42949);
    ReadIsWrapped(p, 0, 0);
    SkipTen(p);
  }

  lemma SkipTen(p: seq<byte>)
    requires p == [52, 50, 57, 52, 57, 54, 55, 50, 57, 55, BRACE]
    ensures SkipDigits(p, 0) == SkipDigits(p, 1) == 10
  {
    assert SkipDigits(p, 10) == 10;
    assert SkipDigits(p, 8) == 10;
    assert SkipDigits(p, 6) == 10;
    assert SkipDigits(p, 4) == 10;
    assert SkipDigits(p, 2) == 10;
  }

  // ---------------------------------------------------------------- which texts are counts

  predicate DigitsIn(p: seq<byte>, i: nat, j: nat) {
    j <= |p| && forall k :: i <= k < j ==> 48 <= p[k] <= 57
  }

  /** Skipping ends at the first byte that is not a digit. */
  lemma {:induction false} SkipPasses(p: seq<byte>, i: nat)
    ensures SkipDigits(p, i) > i ==> DigitsIn(p, i, SkipDigits(p, i))
    decreases |p| - i
  {
    if IsDigit(At(p, i)) {
      SkipPasses(p, i + 1);
    }
  }

  lemma {:induction false} SkipEnds(p: seq<byte>, i: nat, j: nat)
    requires i <= j && DigitsIn(p, i, j) && !IsDigit(At(p, j))
    ensures SkipDigits(p, i) == j
    decreases j - i
  {
    if i < j {
      assert IsDigit(At(p, i));
      SkipEnds(p, i + 1, j);
    }
  }

  /** The text from `i` on begins with "}", or with ",}", or with "," and digits and "}". */
  predicate ClosesAt(p: seq<byte>, i: nat) {
    i < |p|
    && (p[i] == 125
        || (p[i] == 44 && i + 1 < |p|
            && (p[i + 1] == 125 || exists j :: i + 1 < j < |p| && DigitsIn(p, i + 1, j) && p[j] == 125)))
  }

  /** A text is a counted repeat iff it begins with digits and is closed behind them in one of the three ways. */
  lemma CountedRepeatIff(p: seq<byte>)
    ensures IsCountedRepeat(p) <==> exists i :: 0 < i < |p| && DigitsIn(p, 0, i) && ClosesAt(p, i)
  {
    if IsCountedRepeat(p) {
      var i := SkipDigits(p, 1);
      SkipPasses(p, 0);
      SecondNumber(p, i);
      assert DigitsIn(p, 0, i) && ClosesAt(p, i);
    }
    if i :| 0 < i < |p| && DigitsIn(p, 0, i) && ClosesAt(p, i) {
      SkipEnds(p, 1, i);
      assert IsDigit(At(p, 0));
      if p[i] == 44 && p[i + 1] != 125 {
        var j :| i + 1 < j < |p| && DigitsIn(p, i + 1, j) && p[j] == 125;
        SkipEnds(p, i + 2, j);
        assert IsDigit(At(p, i + 1));
      }
    }
  }

  lemma SecondNumber(p: seq<byte>, i: nat)
    requires At(p, i) == BRACE
             || (At(p, i) == COMMA
                 && (At(p, i + 1) == BRACE || (IsDigit(At(p, i + 1)) && At(p, SkipDigits(p, i + 2)) == BRACE)))
    ensures ClosesAt(p, i)
  {
    if At(p, i) == COMMA && At(p, i + 1) != BRACE {
      var j := SkipDigits(p, i + 2);
      SkipPasses(p, i + 1);
      assert i + 1 < j < |p| && DigitsIn(p, i + 1, j) && p[j] == 125;
    }
  }

  /** The low 32 bits of a number are within the limit. */
  predicate InRange(n: nat) {
    n % LIMIT <= MAX_REPEAT
  }

  /**
   * What is made of the counts, for every counted repeat: `a` is the number in front of place `i`, `b` the one behind
   * the comma. The range is looked at first and the order only then.
   */
  lemma CountsRead(p: seq<byte>, i: nat, a: nat, b: nat)
    requires 0 < i < |p| && DigitsIn(p, 0, i) && ClosesAt(p, i) && a == Decimal(p, 0, 0) && b == Decimal(p, i + 1, 0)
    ensures var two := p[i] == 44 && p[i + 1] != 125;
            match ReadRepeatCounts(p)
            case Err5 => !InRange(a) || (two && !InRange(b))
            case Err4 => two && InRange(a) && InRange(b) && b % LIMIT < a % LIMIT
            case Counts(min, max, end) =>
              && InRange(a) && min == a % LIMIT && end < |p| && p[end] == 125
              && (p[i] == 125 ==> max == min && end == i)
              && (p[i] == 44 && p[i + 1] == 125 ==> max == -1 && end == i + 1)
              && (two ==> InRange(b) && max == b % LIMIT >= min && DigitsIn(p, i + 1, end))
  {
    SkipEnds(p, 0, i);
    NumberChecked(p, 0);
    NumberChecked(p, i + 1);
    ReadInRange(p, 0);
    ReadInRange(p, i + 1);
    if p[i] == 44 && p[i + 1] != 125 {
      var j :| i + 1 < j < |p| && DigitsIn(p, i + 1, j) && p[j] == 125;
      SkipEnds(p, i + 1, j);
    }
  }

  lemma ReadInRange(p: seq<byte>, i: nat)
    ensures InRange(Decimal(p, i, 0)) ==> ReadNumber(p, i, 0) == Decimal(p, i, 0) % LIMIT
  {
    ReadIsWrapped(p, i, 0);
  }

  // ---------------------------------------------------------------- writing counts

  function Digits(n: nat): seq<byte> {
    if n < 10 then [48 + n] else Digits(n / 10) + [48 + n % 10]
  }

  /** The counts as a pattern spells them, behind the opening brace. */
  function Spelled(min: nat, max: int): seq<byte> {
    if max == min then Digits(min) + [BRACE]
    else if max < 0 then Digits(min) + [COMMA, BRACE]
    else Digits(min) + ([COMMA] + Digits(max) + [BRACE])
  }

  /** Reading the digits of `n` that start at `i`, in front of something else. */
  lemma {:induction false} DigitsRead(n: nat, front: seq<byte>, rest: seq<byte>, i: nat)
    requires i == |front| && |rest| > 0
    ensures var p := front + Digits(n) + rest;
            |Digits(n)| > 0 && IsDigit(p[i])
            && Decimal(p, i, 0) == Decimal(p, i + |Digits(n)|, n)
            && SkipDigits(p, i) == SkipDigits(p, i + |Digits(n)|)
    decreases n
  {
    var p := front + Digits(n) + rest;
    if n >= 10 {
      var last := [48 + n % 10];
      DigitsRead(n / 10, front, last + rest, i);
      assert front + Digits(n / 10) + (last + rest) == p;
      var j := i + |Digits(n / 10)|;
      assert p[j] == 48 + n % 10;
    }
  }

  lemma ReadSmall(p: seq<byte>, i: nat)
    ensures Decimal(p, i, 0) <= MAX_REPEAT ==> ReadNumber(p, i, 0) == Decimal(p, i, 0)
  {
    ReadIsWrapped(p, i, 0);
  }

  lemma NumberRead(n: nat, front: seq<byte>, rest: seq<byte>, i: nat)
    requires i == |front| && |rest| > 0 && !IsDigit(rest[0]) && n <= MAX_REPEAT
    ensures var p := front + Digits(n) + rest;
            |Digits(n)| > 0 && IsDigit(At(p, i)) && ReadNumber(p, i, 0) == n
            && SkipDigits(p, i) == SkipDigits(p, i + 1) == i + |Digits(n)|
  {
    var p := front + Digits(n) + rest;
    DigitsRead(n, front, rest, i);
    assert p[i + |Digits(n)|] == rest[0];
    ReadSmall(p, i);
    assert SkipDigits(p, i) == SkipDigits(p, i + 1);
  }

  /** A number of the counts, where it stands in the text. */
  predicate NumberAt(p: seq<byte>, i: nat, n: int, j: nat) {
    0 <= n <= MAX_REPEAT && IsDigit(At(p, i)) && ReadNumber(p, i, 0) == n
        && SkipDigits(p, i) == SkipDigits(p, i + 1) == j
  }

  lemma OneCountRead(p: seq<byte>, min: nat, i: nat)
    requires NumberAt(p, 0, min, i)
    ensures At(p, i) == BRACE ==> IsCountedRepeat(p) && ReadRepeatCounts(p) == Counts(min, min, i)
    ensures At(p, i) == COMMA && At(p, i + 1) == BRACE
            ==> IsCountedRepeat(p) && ReadRepeatCounts(p) == Counts(min, -1, i + 1)
  {
  }

  lemma TwoCountsRead(p: seq<byte>, min: nat, i: nat, max: nat, j: nat)
    requires NumberAt(p, 0, min, i) && At(p, i) == COMMA && NumberAt(p, i + 1, max, j) && At(p, j) == BRACE
             && min <= max
    ensures IsCountedRepeat(p) && ReadRepeatCounts(p) == Counts(min, max, j)
  {
  }

  lemma TwoCountsSpelled(min: nat, max: nat)
    requires min < max <= MAX_REPEAT
    ensures var p := Spelled(min, max); IsCountedRepeat(p) && ReadRepeatCounts(p) == Counts(min, max, |p| - 1)
  {
    var d, e := Digits(min), Digits(max);
    var p := Spelled(min, max);
    NumberRead(min, [], [COMMA] + e + [BRACE], 0);
    assert p == [] + d + ([COMMA] + e + [BRACE]);
    NumberRead(max, d + [COMMA], [BRACE], |d| + 1);
    assert p == (d + [COMMA]) + e + [BRACE];
    TwoCountsRead(p, min, |d|, max, |p| - 1);
  }

  /** What a pattern spells is recognised as a quantifier and read back as it was meant. */
  lemma SpelledIsRead(min: nat, max: int)
    requires RepOk(Rep(min, max, false))
    ensures IsCountedRepeat(Spelled(min, max))
    ensures ReadRepeatCounts(Spelled(min, max)) == Counts(min, max, |Spelled(min, max)| - 1)
  {
    if max == min || max < 0 {
      var rest := if max == min then [BRACE] else [COMMA, BRACE];
      NumberRead(min, [], rest, 0);
      assert Spelled(min, max) == [] + Digits(min) + rest;
      OneCountRead(Spelled(min, max), min, |Digits(min)|);
    } else {
      TwoCountsSpelled(min, max);
    }
  }
}
