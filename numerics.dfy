/** Python numeric primitives the light baker relies on, over mathematical reals.
    The transcendental routines of Python's math module are not defined here: they
    are handed in as a `Maths` value, and any property that needs a fact about them
    takes that fact as a hypothesis. */
module Numerics {

  /** The math-module routines the baker calls (pow, sqrt, atan2, acos). */
  datatype Maths = Maths(
    pow: (real, real) -> real,
    sqrt: real -> real,
    atan2: (real, real) -> real,
    acos: real -> real)

  /** math.pi, the double nearest to pi. */
  const Pi: real := 3.141592653589793

  /** sqrt maps zero to zero and a positive number to a positive number. */
  ghost predicate SqrtExact(m: Maths) {
    m.sqrt(0.0) == 0.0 &&
    forall s: real {:trigger m.sqrt(s)} :: 0.0 < s ==> 0.0 < m.sqrt(s)
  }

  /** Python's int() of a float: truncation toward zero. */
  function Trunc(x: real): (r: int)
    ensures 0.0 <= x ==> 0 <= r && r as real <= x < r as real + 1.0
    ensures x < 0.0 ==> r <= 0 && r as real - 1.0 < x <= r as real
  {
    if x >= 0.0 then x.Floor else -((-x).Floor)
  }

  /** `n` is even: half of it has no fractional part. */
  predicate Even(n: int) {
    (n as real / 2.0).Floor * 2 == n
  }

  /** Python 3's round() of a float: the nearest integer, ties to the even one. */
  function RoundHalfEven(x: real): (r: int)
    ensures -0.5 <= x - r as real <= 0.5
    ensures x - r as real == 0.5 || x - r as real == -0.5 ==> Even(r)
  {
    var f := x.Floor;
    var d := x - f as real;
    if d < 0.5 then f
    else if d > 0.5 then f + 1
    else if Even(f) then f
    else f + 1
  }

  /** Rounding never leaves an interval whose ends are integers. */
  lemma RoundWithin(x: real, lo: int, hi: int)
    requires lo as real <= x <= hi as real
    ensures lo <= RoundHalfEven(x) <= hi
  {
  }

  /** Rounding an integer gives it back. */
  lemma RoundInteger(n: int)
    ensures RoundHalfEven(n as real) == n
  {
  }

  /** Python's `n & 0xff` on an int of any sign: the low byte of its two's complement. */
  function LowByte(n: int): (r: int)
    ensures 0 <= r < 256
    ensures (n - r) % 256 == 0
    ensures 0 <= n < 256 ==> r == n
  {
    n % 256
  }

  /** Python's `max(0, min(val, 1))`. */
  function Clamp01(v: real): (r: real)
    ensures 0.0 <= r <= 1.0
    ensures 0.0 <= v <= 1.0 ==> r == v
    ensures v < 0.0 ==> r == 0.0
    ensures 1.0 < v ==> r == 1.0
  {
    var lo := if v < 1.0 then v else 1.0;
    if 0.0 < lo then lo else 0.0
  }
}
