/** Integer powers, and the truncating division and remainder of Swift's integer types. */
module Powers {

  /** b raised to the power e. */
  function Pow(b: int, e: nat): (r: int)
    ensures b > 0 ==> r > 0
  {
    if e == 0 then 1 else b * Pow(b, e - 1)
  }

  /** Powers of two, the sizes of perfect trees. */
  function Pow2(e: nat): (r: nat)
    ensures r >= 1
    ensures r == Pow(2, e)
  {
    if e == 0 then 1 else 2 * Pow2(e - 1)
  }

  lemma {:induction false} PowAdd(b: int, m: nat, n: nat)
    ensures Pow(b, m + n) == Pow(b, m) * Pow(b, n)
  {
    if n > 0 {
      PowAdd(b, m, n - 1);
      var x, y := Pow(b, m), Pow(b, n - 1);
      assert Pow(b, m + n) == b * (x * y);
      assert b * (x * y) == x * (b * y);
    }
  }

  lemma Pow2Add(m: nat, n: nat)
    ensures Pow2(m + n) == Pow2(m) * Pow2(n)
  {
    PowAdd(2, m, n);
  }

  /** Squaring the base doubles the exponent. */
  lemma {:induction false} PowSquare(b: int, n: nat)
    ensures Pow(b * b, n) == Pow(b, 2 * n)
  {
    if n > 0 {
      PowSquare(b, n - 1);
      PowAdd(b, 2, 2 * (n - 1));
    }
  }

  /** A power of a value of magnitude at least one grows with the exponent. */
  lemma {:induction false} PowMonotone(b: int, m: nat, n: nat)
    requires b >= 1 && m <= n
    ensures 1 <= Pow(b, m) <= Pow(b, n)
  {
    if m < n {
      PowMonotone(b, m, n - 1);
      assert Pow(b, n) == b * Pow(b, n - 1);
    } else {
      PowPositive(b, m);
    }
  }

  lemma {:induction false} PowPositive(b: int, n: nat)
    requires b >= 1
    ensures Pow(b, n) >= 1
  {
    if n > 0 {
      PowPositive(b, n - 1);
      assert b * Pow(b, n - 1) >= Pow(b, n - 1);
    }
  }

  /** The magnitude of a power is the power of the magnitude. */
  lemma {:induction false} PowAbs(b: int, n: nat)
    ensures Abs(Pow(b, n)) == Pow(Abs(b), n)
  {
    if n > 0 {
      PowAbs(b, n - 1);
      AbsMul(b, Pow(b, n - 1));
    }
  }

  function Abs(x: int): (r: nat)
    ensures r == x || r == -x
  {
    if x < 0 then -x else x
  }

  lemma AbsMul(x: int, y: int)
    ensures Abs(x * y) == Abs(x) * Abs(y)
  {
    if x < 0 && y < 0 {
      assert x * y == (-x) * (-y);
    } else if x < 0 {
      assert -(x * y) == (-x) * y;
    } else if y < 0 {
      assert -(x * y) == x * (-y);
    }
  }

  /** Swift's `/` on signed integers: the quotient is truncated toward zero. */
  function TruncDiv(a: int, b: int): int
    requires b != 0
  {
    var m := (Abs(a) as int) / (Abs(b) as int);
    if (a < 0) == (b < 0) then m else -m
  }

  /** Swift's `%` on signed integers: what the truncated quotient leaves. */
  function TruncRem(a: int, b: int): int
    requires b != 0
  {
    a - TruncDiv(a, b) * b
  }

  /** Halving as exp does it: on a non-negative power Swift's `/ 2` and `% 2` are the
      Euclidean ones; a negative power moves toward zero and its remainder is never 1. */
  lemma TruncByTwo(p: int)
    ensures p >= 0 ==> TruncDiv(p, 2) == p / 2 && TruncRem(p, 2) == p % 2
    ensures p < 0 ==> p < TruncDiv(p, 2) <= 0 && TruncRem(p, 2) != 1
  {
  }

  /** Dividing by -1 negates, whatever the rounding. */
  lemma TruncByMinusOne(a: int)
    ensures TruncDiv(a, -1) == -a
  {
  }
}
