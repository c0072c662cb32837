/** How a decimal is rounded to three places before it is written, in the arithmetic of doubles. */
module DecimalRounding {
  import opened Doubles

  // The constants of the source are the doubles nearest to 0.0005, 0.0015 and 0.002.
  const LOW: real := 1_152_921_504_606_847.0 / 2_305_843_009_213_693_952.0
  const HIGH: real := 3.0 * LOW
  const STEP: real := 4.0 * LOW

  /** What 10^12 less 0.0005 is in doubles. */
  const TOO_LARGE: real := 2_047_999_999_999_999.0 / 2048.0

  /** Twelve digits in front of the point and three behind it stay below this. */
  const LIMIT: nat := 1_000_000_000_000_000

  /** The remainder of a division by `STEP`, which is exact. */
  function Remainder(v: real): real {
    v - STEP * (v / STEP).Floor as real
  }

  /** To an integer, away from zero if in the middle. */
  function RoundAway(y: real): int {
    (y + 0.5).Floor
  }

  function RoundedDecimal(v: real): real {
    if Remainder(v) == LOW then Nearest(v - LOW)
    else if Remainder(v) == HIGH then Nearest(v + LOW)
    else Nearest(RoundAway(Nearest(v * 1000.0)) as real / 1000.0)
  }

  /** The number of thousandths that is written. */
  function Thousandths(v: real): int {
    HalfEven(RoundedDecimal(v) * 1000.0)
  }

  /** The double that is read for a number of thousandths. */
  function Thousandth(m: nat): real {
    Nearest(m as real / 1000.0)
  }

  // ---------------------------------------------------------------------------------------------
  // The two remainders that are looked for

  lemma RoundAwayIs(y: real, n: int)
    requires n as real - 0.5 <= y < n as real + 0.5
    ensures RoundAway(y) == n
  {
  }

  /** An even number of steps of 0.0005, drifted as the constant has. */
  lemma EvenSteps(q: nat)
    requires q as real * (4.0 * LOW) < TOO_LARGE + 1.0
    ensures HalfEven(Nearest(q as real * (4.0 * LOW)) * 1000.0) == 2 * q
  {
    var x := q as real * (4.0 * LOW);
    NearestError(x);
    hide Nearest;
    HalfEvenIs(Nearest(x) * 1000.0, 2 * q);
  }

  /** A remainder of 0.0005 leads down to the even number of thousandths. */
  lemma LowRemainder(v: real) returns (q: nat)
    requires 0.0 <= v < TOO_LARGE && Remainder(v) == LOW
    ensures v == q as real * (4.0 * LOW) + LOW && Thousandths(v) == 2 * q
  {
    hide Nearest, HalfEven;
    q := (v / STEP).Floor;
    EvenSteps(q);
  }

  /** A remainder of 0.0015 leads up to the even number of thousandths. */
  lemma HighRemainder(v: real) returns (q: nat)
    requires 0.0 <= v < TOO_LARGE && Remainder(v) == HIGH
    ensures v == q as real * (4.0 * LOW) + 3.0 * LOW && Thousandths(v) == 2 * q + 2
  {
    hide Nearest, HalfEven;
    q := (v / STEP).Floor;
    assert v + LOW == (q + 1) as real * (4.0 * LOW);
    EvenSteps(q + 1);
  }

  /** The general case: what is written is the product, rounded away from zero. */
  lemma OtherRemainder(v: real)
    requires 0.0 <= v <= TOO_LARGE && Remainder(v) != LOW && Remainder(v) != HIGH
    ensures Thousandths(v) == RoundAway(Nearest(v * 1000.0)) >= 0
  {
    NearestError(v * 1000.0);
    var n := RoundAway(Nearest(v * 1000.0));
    NearestError(n as real / 1000.0);
    hide Nearest, Remainder;
    HalfEvenIs(Nearest(n as real / 1000.0) * 1000.0, n);
  }

  // ---------------------------------------------------------------------------------------------
  // Twelve digits in front of the point

  /** What is written has at most fifteen digits. */
  lemma ThousandthsInRange(v: real)
    requires 0.0 <= v < TOO_LARGE && Nearest(v) == v
    ensures 0 <= Thousandths(v) < LIMIT
  {
    hide Thousandths, Nearest, RoundAway, Remainder;
    if Remainder(v) == LOW {
      var q := LowRemainder(v);
      assert (4 * q) as real < 2.0 * LIMIT as real;
    } else if Remainder(v) == HIGH {
      var q := HighRemainder(v);
      assert (4 * q + 3) as real < 2.0 * LIMIT as real - 1.0;
    } else {
      OtherRemainder(v);
      ProductInRange(v);
    }
  }

  lemma ProductInRange(v: real)
    requires 0.0 <= v < TOO_LARGE && Nearest(v) == v
    ensures RoundAway(Nearest(v * 1000.0)) < LIMIT
  {
    NearestError(v * 1000.0);
    if v >= 549_755_813_888.0 {
      var k := LargeDouble(v);
      assert k < 8_191_999_999_999_996;
      var d := 7_999_999_999_999_995;
      EighthsOf(d as real);
      NearestIsNearest(v * 1000.0, d, 3);
    }
    hide Nearest;
  }

  /** The limit is right: the least double that is not below it would be written with thirteen digits. */
  lemma TooLargeRoundsUp()
    ensures Nearest(TOO_LARGE) == TOO_LARGE && Thousandths(TOO_LARGE) == LIMIT
  {
    var x := TOO_LARGE * 1000.0;
    NearestAgainstTie(x, LIMIT - 1);
    NearestError(x);
    ScaleBy11(2_047_999_999_999_999.0);
    NearestExact(2_047_999_999_999_999, 11);
    assert Remainder(TOO_LARGE) != LOW && Remainder(TOO_LARGE) != HIGH by {
      assert (TOO_LARGE / STEP).Floor == 499_999_999_999_999;
    }
    hide Nearest, Remainder, Thousandths, RoundAway;
    OtherRemainder(TOO_LARGE);
    RoundAwayIs(Nearest(x), LIMIT);
  }

  lemma EighthsOf(x: real)
    ensures x == 8.0 * Down(x, 3)
  {
    hide Up, Down;
    ScaleBy0(x);
    ScaleBy2(x, 0);
    ScaleBy1(x, 2);
  }

  lemma StepsNotNear(q: nat, m: nat, v: real)
    requires 0.0 <= v < TOO_LARGE
    requires v == q as real * (4.0 * LOW) + LOW || v == q as real * (4.0 * LOW) + 3.0 * LOW
    ensures m as real + 0.12 < v * 1000.0 || v * 1000.0 < m as real - 0.12
  {
    assert m <= 2 * q || m == 2 * q + 1 || m >= 2 * q + 2;
  }

  /** Near a number of thousandths the remainder is neither of the two. */
  lemma NotInTheMiddle(v: real, m: nat)
    requires 0.0 <= v < TOO_LARGE
    requires m as real - 0.12 <= v * 1000.0 <= m as real + 0.12
    ensures Remainder(v) != LOW && Remainder(v) != HIGH
  {
    hide Thousandths;
    var q := (v / STEP).Floor;
    assert v == q as real * (4.0 * LOW) + Remainder(v);
    hide Remainder;
    if v == q as real * (4.0 * LOW) + LOW || v == q as real * (4.0 * LOW) + 3.0 * LOW {
      StepsNotNear(q, m, v);
    }
  }

  /** What has three places already is written as it is. */
  lemma ThousandthStays(m: nat)
    requires m < LIMIT
    ensures 0.0 <= Thousandth(m) < TOO_LARGE && Nearest(Thousandth(m)) == Thousandth(m)
    ensures Thousandths(Thousandth(m)) == m
  {
    var v := Thousandth(m);
    NearestIsDouble(m as real / 1000.0);
    NearestError(m as real / 1000.0);
    NearestError(v * 1000.0);
    hide Nearest, Thousandths, RoundAway, Remainder;
    NotInTheMiddle(v, m);
    OtherRemainder(v);
    RoundAwayIs(Nearest(v * 1000.0), m);
  }

  // ---------------------------------------------------------------------------------------------
  // Against rounding to the nearest, and to even in the middle

  /** The product ends up in the middle, without being above it, nor in it below an odd number. */
  predicate MiddleGoesUp(v: real) {
    var y := Nearest(v * 1000.0);
    && y == y.Floor as real + 0.5
    && (v * 1000.0 < y || (v * 1000.0 == y && y.Floor % 2 == 0))
  }

  /** When the number that is written is not the one that rounding half to even gives. */
  predicate Misrounded(v: real) {
    Remainder(v) == LOW || (Remainder(v) != HIGH && MiddleGoesUp(v))
  }

  lemma HalfEvenFrom(x: real, f: int)
    requires f == x.Floor
    ensures HalfEven(x) == if x < f as real + 0.5 || (x == f as real + 0.5 && f % 2 == 0) then f else f + 1
  {
  }

  lemma NotMiddle(y: real, f: int)
    requires f as real - 0.5 < y < f as real + 0.5
    ensures y != y.Floor as real + 0.5
  {
    assert y.Floor <= f - 1 ==> y.Floor as real <= f as real - 1.0;
    assert y.Floor >= f ==> y.Floor as real >= f as real;
  }

  lemma ProductRounding(v: real)
    requires 0.0 <= v < TOO_LARGE
    ensures var n, h := RoundAway(Nearest(v * 1000.0)), HalfEven(v * 1000.0);
            n == if MiddleGoesUp(v) then h + 1 else h
  {
    var x := v * 1000.0;
    var f, y := x.Floor, Nearest(x);
    NearestError(x);
    NearestAgainstTie(x, f);
    hide Nearest, HalfEven, RoundAway;
    HalfEvenFrom(x, f);
    var t := f as real + 0.5;
    assert x - 0.2 <= y <= x + 0.2;
    if x < t && y < t {
      RoundAwayIs(y, f);
      NotMiddle(y, f);
    } else {
      RoundAwayIs(y, f + 1);
      if y == t {
        assert y.Floor == f;
      } else {
        NotMiddle(y, f + 1);
      }
    }
  }

  /** The rounding of the standard is met exactly if the value is none of these. */
  lemma HalfEvenExactly(v: real)
    requires 0.0 <= v < TOO_LARGE
    ensures Thousandths(v) == HalfEven(v * 1000.0) <==> !Misrounded(v)
    ensures -1 <= Thousandths(v) - HalfEven(v * 1000.0) <= 1
  {
    hide Thousandths, Nearest, RoundAway, Remainder, HalfEven, MiddleGoesUp;
    if Remainder(v) == LOW {
      var q := LowRemainder(v);
      HalfEvenIs(v * 1000.0, 2 * q + 1);
    } else if Remainder(v) == HIGH {
      var q := HighRemainder(v);
      HalfEvenIs(v * 1000.0, 2 * q + 2);
    } else {
      OtherRemainder(v);
      ProductRounding(v);
    }
  }

  /** One sixteenth is in the middle of 0.062 and 0.063, and is written as the odd one. */
  lemma SixteenthGoesUp()
    ensures Nearest(0.0625) == 0.0625 && Misrounded(0.0625)
    ensures Thousandths(0.0625) == 63 && HalfEven(62.5) == 62
  {
    NearestExact(1, 4);
    NearestExact(125, 1);
    assert Down(1.0, 2) == 0.25;
    assert Remainder(0.0625) != LOW && Remainder(0.0625) != HIGH by {
      assert (0.0625 / STEP).Floor == 31;
    }
    hide Nearest;
    OtherRemainder(0.0625);
  }

  /** The constant itself is more than 0.0005, and is written as zero. */
  lemma LowGoesDown()
    ensures Remainder(LOW) == LOW && Misrounded(LOW)
    ensures Thousandths(LOW) == 0 && HalfEven(LOW * 1000.0) == 1
  {
    assert (LOW / STEP).Floor == 0;
    hide Nearest;
    var q := LowRemainder(LOW);
    HalfEvenIs(LOW * 1000.0, 1);
  }

  // ---------------------------------------------------------------------------------------------
  // The constants

  lemma ScaleBy0(x: real)
    ensures Up(x, 0) == x == Down(x, 0)
  {
  }

  lemma ScaleBy1(x: real, i: nat)
    ensures Up(x, i + 1) == 2.0 * Up(x, i)
    ensures Down(x, i) == 2.0 * Down(x, i + 1)
  {
  }

  lemma ScaleBy2(x: real, i: nat)
    ensures Up(x, i + 2) == 4.0 * Up(x, i)
    ensures Down(x, i) == 4.0 * Down(x, i + 2)
  {
    hide Up, Down;
    ScaleBy1(x, i);
    ScaleBy1(x, i + 1);
  }

  lemma ScaleBy4(x: real, i: nat)
    ensures Up(x, i + 4) == 16.0 * Up(x, i)
    ensures Down(x, i) == 16.0 * Down(x, i + 4)
  {
    hide Up, Down;
    ScaleBy2(x, i);
    ScaleBy2(x, i + 2);
  }

  lemma ScaleBy8(x: real, i: nat)
    ensures Up(x, i + 8) == 256.0 * Up(x, i)
    ensures Down(x, i) == 256.0 * Down(x, i + 8)
  {
    hide Up, Down;
    ScaleBy4(x, i);
    ScaleBy4(x, i + 4);
  }

  lemma ScaleBy11(x: real)
    ensures x == 2048.0 * Down(x, 11)
  {
    hide Up, Down;
    EighthsOf(x);
    ScaleBy8(x, 3);
  }

  lemma ScaleBy56(x: real, i: nat)
    ensures Up(x, i + 56) == 72_057_594_037_927_936.0 * Up(x, i)
    ensures Down(x, i) == 72_057_594_037_927_936.0 * Down(x, i + 56)
  {
    hide Up, Down;
    ScaleBy8(x, i);
    ScaleBy8(x, i + 8);
    ScaleBy8(x, i + 16);
    ScaleBy8(x, i + 24);
    ScaleBy8(x, i + 32);
    ScaleBy8(x, i + 40);
    ScaleBy8(x, i + 48);
  }

  lemma ScaleBy7(x: real)
    ensures Up(x, 5) == 32.0 * x && Up(x, 6) == 64.0 * x && Up(x, 7) == 128.0 * x
    ensures x == 32.0 * Down(x, 5) == 64.0 * Down(x, 6) == 128.0 * Down(x, 7)
  {
    hide Up, Down;
    ScaleBy0(x);
    ScaleBy4(x, 0);
    ScaleBy1(x, 4);
    ScaleBy1(x, 5);
    ScaleBy1(x, 6);
  }

  /** The constants are what the literals of the source are as doubles. */
  lemma ConstantsAreNearest()
    ensures LOW == Nearest(0.0005) && HIGH == Nearest(0.0015) && STEP == Nearest(0.002)
    ensures TOO_LARGE == Nearest(1_000_000_000_000.0 - LOW)
  {
    hide Nearest, Up, Down;
    var m := 4_611_686_018_427_388;
    ScaleBy7(0.0005);
    ScaleBy56(0.0005, 7);
    ScaleBy7(0.0015);
    ScaleBy56(0.0015, 6);
    ScaleBy7(0.002);
    ScaleBy56(0.002, 5);
    ScaleBy7(m as real);
    ScaleBy56(m as real, 7);
    ScaleBy56(m as real, 5);
    NearestAt(0.0005, 63, m);
    NearestAt(0.002, 61, m);
    var h := 6_917_529_027_641_082;
    ScaleBy7(h as real);
    ScaleBy56(h as real, 6);
    NearestAt(0.0015, 62, h);
    var t := 8_191_999_999_999_996;
    ScaleBy7(t as real);
    ScaleBy8(t as real, 5);
    ScaleBy7(1_000_000_000_000.0 - LOW);
    ScaleBy8(1_000_000_000_000.0 - LOW, 5);
    NearestAt(1_000_000_000_000.0 - LOW, 13, t);
  }
}
