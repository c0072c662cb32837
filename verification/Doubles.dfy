/** Binary floating-point numbers: 53 significant bits, the least exponent -1074, rounded to nearest. */
module Doubles {
  const MIN_EXPONENT: nat := 1074
  /** Two to the power of 53. */
  const PRECISION: real := 9_007_199_254_740_992.0

  /** Times a power of two. */
  function Up(x: real, i: nat): real {
    if i == 0 then x else 2.0 * Up(x, i - 1)
  }

  /** Divided by a power of two. */
  function Down(x: real, i: nat): real {
    if i == 0 then x else Down(x, i - 1) / 2.0
  }

  /** The nearest integer, and the even one of two that are equally near. */
  function HalfEven(y: real): (n: int)
    ensures y - 0.5 <= n as real <= y + 0.5
    ensures n as real == y + 0.5 || n as real == y - 0.5 ==> n % 2 == 0
  {
    var f := y.Floor;
    if y < f as real + 0.5 || (y == f as real + 0.5 && f % 2 == 0) then f else f + 1
  }

  /** The scale at which `x` has at most 53 bits in front of the point. */
  function Exponent(x: real, j: nat): (i: nat)
    ensures i <= j
    ensures i < j ==> Up(x, i + 1) >= PRECISION
    ensures i == 0 || Up(x, i) < PRECISION
  {
    if j == 0 || Up(x, j) < PRECISION then j else Exponent(x, j - 1)
  }

  /** The double nearest to a number below the power of two that `PRECISION` is. */
  function Nearest(x: real): (r: real) {
    var i := Exponent(x, MIN_EXPONENT);
    Down(HalfEven(Up(x, i)) as real, i)
  }

  function Abs(r: real): (a: real)
    ensures 0.0 <= a && (a == r || a == -r)
  {
    if r < 0.0 then -r else r
  }

  predicate IsDouble(r: real) {
    Abs(r) < PRECISION ==> Nearest(Abs(r)) == Abs(r)
  }

  type Double = r: real | IsDouble(r) witness (NearestExact(0, 0); 0.0)

  /** The double nearest to `x`, with a sign in front. */
  function Signed(negative: bool, x: real): (d: Double)
    requires 0.0 <= x < PRECISION
    ensures Abs(d) == Nearest(x)
  {
    NearestIsDouble(x);
    NearestNotNegative(x);
    if negative then -Nearest(x) else Nearest(x)
  }

  // ---------------------------------------------------------------------------------------------
  // Powers of two

  lemma {:induction false} DownTwice(x: real, i: nat)
    ensures Down(2.0 * x, i) == 2.0 * Down(x, i)
  {
    if i > 0 {
      DownTwice(x, i - 1);
    }
  }

  /** Scaling up and down again. */
  lemma {:induction false} DownUp(x: real, i: nat)
    ensures Down(Up(x, i), i) == x
  {
    if i > 0 {
      DownUp(x, i - 1);
      DownTwice(Up(x, i - 1), i - 1);
    }
  }

  /** Scaling down, and up by at least as much. */
  lemma {:induction false} UpDown(x: real, j: nat, i: nat)
    requires j <= i
    ensures Up(Down(x, j), i) == Up(x, i - j)
  {
    if j > 0 {
      UpDown(x, j - 1, i - 1);
      UpHalf(Down(x, j - 1), i);
    }
  }

  lemma {:induction false} UpHalf(x: real, i: nat)
    requires i > 0
    ensures Up(x / 2.0, i) == Up(x, i - 1)
  {
    if i > 1 {
      UpHalf(x, i - 1);
    }
  }

  lemma {:induction false} DownBetween(a: real, x: real, b: real, i: nat)
    requires a <= x <= b
    ensures Down(a, i) <= Down(x, i) <= Down(b, i)
  {
    if i > 0 {
      DownBetween(a, x, b, i - 1);
    }
  }

  lemma {:induction false} DownSum(a: real, b: real, i: nat)
    ensures Down(a + b, i) == Down(a, i) + Down(b, i)
    ensures Down(a - b, i) == Down(a, i) - Down(b, i)
  {
    if i > 0 {
      DownSum(a, b, i - 1);
    }
  }

  lemma {:induction false} DownHalfUnit(i: nat)
    ensures Down(PRECISION / 2.0, i) == PRECISION * Down(0.5, i)
    ensures 0.0 < Down(0.5, i)
  {
    if i > 0 {
      DownHalfUnit(i - 1);
    }
  }

  lemma {:induction false} UpInteger(k: nat, i: nat) returns (n: nat)
    ensures Up(k as real, i) == n as real && n >= k
  {
    n := k;
    if i > 0 {
      n := UpInteger(k, i - 1);
      n := 2 * n;
    }
  }

  lemma {:induction false} UpGrows(x: real, i: nat, j: nat)
    requires 0.0 <= x && i <= j
    ensures 0.0 <= Up(x, i) <= Up(x, j)
  {
    if i < j {
      UpGrows(x, i, j - 1);
    } else if i > 0 {
      UpGrows(x, i - 1, i - 1);
    }
  }

  // ---------------------------------------------------------------------------------------------
  // How near the nearest double is

  /** Half a unit at the scale of the exponent. */
  lemma NearestWithinUnit(x: real)
    ensures var u := Down(0.5, Exponent(x, MIN_EXPONENT)); x - u <= Nearest(x) <= x + u
  {
    hide Exponent;
    var i := Exponent(x, MIN_EXPONENT);
    var y := Up(x, i);
    DownUp(x, i);
    DownBetween(y - 0.5, HalfEven(y) as real, y + 0.5, i);
    DownSum(y, 0.5, i);
  }

  /** An error of one part in two to the power of 53, or a tiny one. */
  lemma NearestError(x: real)
    requires 0.0 <= x < PRECISION
    ensures x - x / PRECISION - 0.000_000_001 <= Nearest(x) <= x + x / PRECISION + 0.000_000_001
    ensures 0.0 <= Nearest(x)
  {
    hide Nearest, Down, Up;
    var i := Exponent(x, MIN_EXPONENT);
    NearestWithinUnit(x);
    NearestNotNegative(x);
    DownHalfUnit(i);
    if i == MIN_EXPONENT {
      TinyUnit();
    } else {
      UpNext(x, i);
      DownUp(x, i);
      DownBetween(PRECISION / 2.0, Up(x, i), Up(x, i), i);
    }
  }

  lemma UpNext(x: real, i: nat)
    ensures Up(x, i + 1) == 2.0 * Up(x, i)
  {
  }

  lemma NearestNotNegative(x: real)
    requires 0.0 <= x
    ensures 0.0 <= Nearest(x)
  {
    var i := Exponent(x, MIN_EXPONENT);
    UpGrows(x, i, i);
    DownBetween(0.0, HalfEven(Up(x, i)) as real, HalfEven(Up(x, i)) as real, i);
    DownZero(i);
  }

  lemma {:induction false} DownZero(i: nat)
    ensures Down(0.0, i) == 0.0
  {
    if i > 0 {
      DownZero(i - 1);
    }
  }

  lemma TinyUnit()
    ensures Down(0.5, MIN_EXPONENT) <= 0.000_000_001
  {
    DownShrinks(32, MIN_EXPONENT);
    DownBy4(0);
    DownBy4(4);
    DownBy4(8);
    DownBy4(12);
    DownBy4(16);
    DownBy4(20);
    DownBy4(24);
    DownBy4(28);
  }

  lemma DownBy4(i: nat)
    ensures Down(0.5, i + 4) == Down(0.5, i) / 16.0
  {
    assert Down(0.5, i + 2) == Down(0.5, i) / 4.0;
  }

  lemma {:induction false} DownShrinks(i: nat, j: nat)
    requires i <= j
    ensures Down(0.5, j) <= Down(0.5, i)
  {
    if i < j {
      DownShrinks(i, j - 1);
      DownHalfUnit(j - 1);
    }
  }

  // ---------------------------------------------------------------------------------------------
  // Doubles stay as they are

  /** Whatever has at most 53 bits is its own nearest double. */
  lemma NearestExact(k: nat, j: nat)
    requires k as real <= PRECISION && j <= MIN_EXPONENT
    ensures Nearest(Down(k as real, j)) == Down(k as real, j)
  {
    var x := Down(k as real, j);
    var i := Exponent(x, MIN_EXPONENT);
    var n := ScaledInteger(k, j, i);
    DownUp(x, i);
    hide Down, Up, Exponent;
    assert HalfEven(n as real) == n;
  }

  /** At the scale of its exponent such a number is an integer. */
  lemma ScaledInteger(k: nat, j: nat, i: nat) returns (n: nat)
    requires k as real <= PRECISION && j <= MIN_EXPONENT
    requires i == Exponent(Down(k as real, j), MIN_EXPONENT)
    ensures Up(Down(k as real, j), i) == n as real
  {
    hide Down, Exponent;
    var x := Down(k as real, j);
    if j <= i {
      n := UpInteger(k, i - j);
      UpDown(k as real, j, i);
    } else {
      UpDown(k as real, j, j);
      DownZero(j);
      DownBetween(0.0, k as real, k as real, j);
      UpNext(x, i);
      UpGrows(x, i + 1, j);
      if i + 1 < j {
        UpNext(x, i + 1);
        UpGrows(x, i + 2, j);
      }
      n := 4_503_599_627_370_496;
    }
  }

  /** Rounding a second time changes nothing. */
  lemma NearestIsDouble(x: real)
    requires 0.0 <= x < PRECISION
    ensures Nearest(Nearest(x)) == Nearest(x)
  {
    var i := Exponent(x, MIN_EXPONENT);
    var y := Up(x, i);
    assert y < PRECISION;
    UpGrows(x, i, i);
    hide Up, Down, Exponent;
    NearestExact(HalfEven(y), i);
  }

  // ---------------------------------------------------------------------------------------------
  // Numbers that rounding does not cross

  /** Below two to the power of 50 at least three bits are left behind the point. */
  lemma ExponentAtLeast3(x: real)
    requires 0.0 <= x < PRECISION / 8.0
    ensures Exponent(x, MIN_EXPONENT) >= 3
  {
    var i := Exponent(x, MIN_EXPONENT);
    UpGrows(x, if i < 3 then i + 1 else 3, 3);
    UpValues(x);
  }

  /** A number halfway between two integers stays on its side of its double. */
  lemma NearestAgainstTie(x: real, h: nat)
    requires 0.0 <= x < PRECISION / 8.0
    ensures var t := h as real + 0.5;
            && (x <= t ==> Nearest(x) <= t) && (x >= t ==> Nearest(x) >= t)
  {
    var i := Exponent(x, MIN_EXPONENT);
    ExponentAtLeast3(x);
    var t := h as real + 0.5;
    var n := UpInteger(2 * h + 1, i - 1);
    UpHalf((2 * h + 1) as real, i);
    assert (2 * h + 1) as real / 2.0 == t;
    assert Up(t, i) == n as real;
    var y := Up(x, i);
    if x <= t {
      UpMonotone(x, t, i);
      HalfEvenBelow(y, n);
      DownBetween(HalfEven(y) as real, HalfEven(y) as real, n as real, i);
    }
    if x >= t {
      UpMonotone(t, x, i);
      HalfEvenBelow(y, n);
      DownBetween(n as real, HalfEven(y) as real, HalfEven(y) as real, i);
    }
    DownUp(t, i);
  }

  lemma HalfEvenBelow(y: real, n: int)
    ensures y <= n as real ==> HalfEven(y) <= n
    ensures y >= n as real ==> HalfEven(y) >= n
  {
  }

  lemma {:induction false} UpMonotone(a: real, b: real, i: nat)
    requires a <= b
    ensures Up(a, i) <= Up(b, i)
  {
    if i > 0 {
      UpMonotone(a, b, i - 1);
    }
  }

  /** Doubles from two to the power of 39 on have at most 13 bits behind the point. */
  lemma LargeDouble(v: real) returns (k: int)
    requires 549_755_813_888.0 <= v < PRECISION && Nearest(v) == v
    ensures v * 8192.0 == k as real
  {
    var i := Exponent(v, MIN_EXPONENT);
    UpGrows(v, 14, if i > 13 then i else 14);
    UpValues(v);
    assert i <= 13;
    var n := HalfEven(Up(v, i));
    UpGrows(v, i, i);
    k := UpInteger(n, 13 - i);
    UpDown(n as real, i, 13);
  }

  lemma UpValues(x: real)
    ensures Up(x, 3) == 8.0 * x && Up(x, 13) == 8192.0 * x && Up(x, 14) == 16384.0 * x
  {
    assert Up(x, 1) == 2.0 * x;
    assert Up(x, 3) == 4.0 * Up(x, 1);
    assert Up(x, 5) == 4.0 * Up(x, 3);
    assert Up(x, 7) == 4.0 * Up(x, 5);
    assert Up(x, 9) == 4.0 * Up(x, 7);
    assert Up(x, 11) == 4.0 * Up(x, 9);
  }

  // ---------------------------------------------------------------------------------------------
  // Nearest means nearest

  lemma HalfEvenNearest(y: real, n: int)
    ensures Abs(HalfEven(y) as real - y) <= Abs(n as real - y)
  {
    var h := HalfEven(y);
    hide HalfEven;
    assert n <= h - 1 ==> n as real <= h as real - 1.0;
    assert n >= h + 1 ==> n as real >= h as real + 1.0;
  }

  lemma {:induction false} DownAbs(a: real, b: real, i: nat)
    requires Abs(a) <= Abs(b)
    ensures Abs(Down(a, i)) <= Abs(Down(b, i))
  {
    if i > 0 {
      DownAbs(a, b, i - 1);
    }
  }

  /** No number with at most 53 bits is nearer to `x`. */
  lemma NearestIsNearest(x: real, k: nat, j: nat)
    requires 0.0 <= x < PRECISION && k as real <= PRECISION && j <= MIN_EXPONENT
    ensures Abs(Nearest(x) - x) <= Abs(Down(k as real, j) - x)
  {
    hide Down, Exponent;
    var i := Exponent(x, MIN_EXPONENT);
    var d, y := Down(k as real, j), Up(x, i);
    var h, e := HalfEven(y) as real, Up(d, i);
    assert Abs(h - y) <= Abs(e - y) by {
      if j <= i {
        var n := UpInteger(k, i - j);
        UpDown(k as real, j, i);
        HalfEvenNearest(y, n);
      } else {
        UpNext(x, i);
        FinerIsSmaller(k, j, i);
        HalfEvenNearest(y, 4_503_599_627_370_496);
      }
    }
    DownAbs(h - y, e - y, i);
    DownSum(h, y, i);
    DownSum(e, y, i);
    DownUp(x, i);
    DownUp(d, i);
  }

  lemma FinerIsSmaller(k: nat, j: nat, i: nat)
    requires k as real <= PRECISION && i < j
    ensures Up(Down(k as real, j), i) <= PRECISION / 2.0
  {
    var d := Down(k as real, j);
    UpDown(k as real, j, j);
    DownZero(j);
    DownBetween(0.0, k as real, k as real, j);
    UpGrows(d, i + 1, j);
    UpNext(d, i);
  }

  lemma HalfEvenIs(y: real, n: int)
    requires n as real - 0.5 < y < n as real + 0.5
    ensures HalfEven(y) == n
  {
    var h := HalfEven(y);
    hide HalfEven;
    assert h <= n - 1 ==> h as real <= n as real - 1.0;
    assert h >= n + 1 ==> h as real >= n as real + 1.0;
  }

  lemma ExponentIs(x: real, i: nat)
    requires 0.0 <= x && i <= MIN_EXPONENT
    requires PRECISION / 2.0 <= Up(x, i) < PRECISION
    ensures Exponent(x, MIN_EXPONENT) == i
  {
    var e := Exponent(x, MIN_EXPONENT);
    hide Exponent, Up;
    UpNext(x, i);
    if e < i {
      UpGrows(x, e + 1, i);
    } else if i < e {
      UpGrows(x, i + 1, e);
    }
  }

  /** The nearest double, found at the scale that gives it 53 bits. */
  lemma NearestAt(x: real, i: nat, n: int)
    requires 0.0 <= x && i <= MIN_EXPONENT
    requires PRECISION / 2.0 <= Up(x, i) < PRECISION
    requires n as real - 0.5 < Up(x, i) < n as real + 0.5
    ensures Nearest(x) == Down(n as real, i)
  {
    hide Exponent, HalfEven, Down, Up;
    ExponentIs(x, i);
    HalfEvenIs(Up(x, i), n);
  }
}
