/** The recursive greatest-common-divisor attempt of EuclidAlgorithm.py,
    exactly as written: it answers only when the second argument divides
    the first; otherwise it recurses, drops the recursive answer and
    returns nothing. */
module Euclid {
  import opened Wrappers

  function Abs(x: int): nat
  {
    if x < 0 then -x else x
  }

  /** Python's `m // n` for integers: the quotient rounded toward minus
      infinity. */
  function PyDiv(m: int, n: int): int
    requires n != 0
  {
    if n > 0 then m / n else (-m) / (-n)
  }

  /** Python's `m % n` for integers: the remainder takes the sign of `n`
      (Dafny's own `%` is Euclidean and never negative). */
  function PyMod(m: int, n: int): (r: int)
    requires n != 0
    ensures n > 0 ==> 0 <= r < n
    ensures n < 0 ==> n < r <= 0
    ensures m == n * PyDiv(m, n) + r
  {
    if n > 0 then m % n
    else
      var q := (-m) / (-n);
      assert -m == (-n) * q + (-m) % (-n);
      assert n * q == -((-n) * q);
      -((-m) % (-n))
  }

  /** The remainder of a division by `b` is determined by `x` and `b`. */
  lemma RemainderUnique(x: int, b: int, q1: int, r1: int, q2: int, r2: int)
    requires b != 0
    requires x == b * q1 + r1 && 0 <= r1 < Abs(b)
    requires x == b * q2 + r2 && 0 <= r2 < Abs(b)
    ensures r1 == r2
  {
    var t := q1 - q2;
    assert b * q1 - b * q2 == b * t;
    assert b * t == r2 - r1;
  }

  /** Python's remainder is zero exactly when `n` divides `m`. */
  lemma PyModZero(m: int, n: int)
    requires n != 0
    ensures PyMod(m, n) == 0 <==> m % n == 0
  {
    if n < 0 {
      var a, b := -m, -n;
      assert m == n * (m / n) + m % n;
      assert a == b * (a / b) + a % b;
      if m % n == 0 {
        assert a == b * (m / n) + 0 by {
          assert b * (m / n) == -(n * (m / n));
        }
        RemainderUnique(a, b, a / b, a % b, m / n, 0);
      }
      if a % b == 0 {
        assert m == n * (a / b) + 0 by {
          assert n * (a / b) == -(b * (a / b));
        }
        RemainderUnique(m, n, m / n, m % n, a / b, 0);
      }
    }
  }

  /** `EuclidAlgorithm(m, n)`: `n` when the remainder `r = m % n` is zero;
      otherwise the call `EuclidAlgorithm(n, r)` is made and its value is
      dropped, so the answer is `None`. The remainder is smaller than `n`
      in absolute value, so the recursion ends. */
  function EuclidAlgorithm(m: int, n: int): (r: Option<int>)
    requires n != 0
    ensures r.Some? <==> m % n == 0
    ensures r.Some? ==> r.value == n
    decreases Abs(n)
  {
    PyModZero(m, n);
    var rem := PyMod(m, n);
    if rem == 0 then Some(n)
    else
      var dropped := EuclidAlgorithm(n, rem);
      None
  }

  /** When there is an answer and `n` is positive, it is the greatest
      common divisor: it divides both arguments and every positive common
      divisor is at most it. */
  lemma EuclidAnswerIsGreatest(m: int, n: int, d: int)
    requires n > 0 && EuclidAlgorithm(m, n).Some?
    requires d > 0 && m % d == 0 && n % d == 0
    ensures m % EuclidAlgorithm(m, n).value == 0 && n % EuclidAlgorithm(m, n).value == 0
    ensures d <= EuclidAlgorithm(m, n).value
  {
    var q := n / d;
    assert n == d * q;
    assert d * q >= d * 1;
  }

  /** The greatest common divisor of 49 and 10 is 1, yet the answer is
      `None`: the recursive call's value is lost. */
  lemma EuclidExamples()
    ensures EuclidAlgorithm(50, 5) == Some(5)
    ensures EuclidAlgorithm(49, 7) == Some(7)
    ensures EuclidAlgorithm(49, 10) == None
  {
  }
}
