/** Divisibility on integers and Euclid's greatest common divisor, the
    arithmetic behind the period of a state. */
module Divisibility {

  /** Product, named so that quantifiers over one factor have a term to match on. */
  function Mul(a: int, b: int): int
  {
    a * b
  }

  /** `d` divides `n`: some integer multiple of `d` is `n`. Zero divides only zero. */
  ghost predicate Divides(d: int, n: int)
  {
    exists c :: Mul(c, d) == n
  }

  function Abs(x: int): (r: nat)
    ensures r == x || r == -x
  {
    if x < 0 then -x else x
  }

  lemma DividesZero(d: int)
    ensures Divides(d, 0)
  {
    assert Mul(0, d) == 0;
  }

  lemma DividesSelf(d: int)
    ensures Divides(d, d)
  {
    assert Mul(1, d) == d;
  }

  /** Common divisors of two numbers divide their sum and their difference. */
  lemma DividesSumDiff(d: int, a: int, b: int)
    requires Divides(d, a) && Divides(d, b)
    ensures Divides(d, a + b) && Divides(d, a - b)
  {
    var x :| Mul(x, d) == a;
    var y :| Mul(y, d) == b;
    assert Mul(x + y, d) == a + b;
    assert Mul(x - y, d) == a - b;
  }

  lemma DividesMultiple(d: int, a: int, m: int)
    requires Divides(d, a)
    ensures Divides(d, m * a)
  {
    var x :| Mul(x, d) == a;
    assert m * a == m * (x * d) == (m * x) * d;
    assert Mul(m * x, d) == m * a;
  }

  lemma DividesTrans(a: int, b: int, c: int)
    requires Divides(a, b) && Divides(b, c)
    ensures Divides(a, c)
  {
    var x :| Mul(x, a) == b;
    var y :| Mul(y, b) == c;
    assert c == y * (x * a) == (y * x) * a;
    assert Mul(y * x, a) == c;
  }

  lemma DividesAbs(d: int, n: int)
    ensures Divides(d, n) <==> Divides(d, Abs(n))
  {
    if Divides(d, n) {
      var x :| Mul(x, d) == n;
      assert Mul(-x, d) == -n;
    }
    if Divides(d, Abs(n)) {
      var x :| Mul(x, d) == Abs(n);
      assert Mul(x, d) == n || Mul(-x, d) == n;
    }
  }

  lemma ZeroDividesOnlyZero(n: int)
    requires Divides(0, n)
    ensures n == 0
  {
    var c :| Mul(c, 0) == n;
  }

  /** A non-negative divisor of a positive number lies between 1 and that number. */
  lemma DivisorBounded(d: nat, n: nat)
    requires Divides(d, n) && n > 0
    ensures 0 < d <= n
  {
    var c :| Mul(c, d) == n;
    if d > 0 && c > 0 {
      assert c * d == (c - 1) * d + d;
      assert (c - 1) * d >= 0;
    }
  }

  /** Two non-negative numbers that divide each other are equal. */
  lemma DividesAntisymmetric(a: nat, b: nat)
    requires Divides(a, b) && Divides(b, a)
    ensures a == b
  {
    if a == 0 {
      var c :| Mul(c, a) == b;
    } else if b == 0 {
      var c :| Mul(c, b) == a;
    } else {
      DivisorBounded(a, b);
      DivisorBounded(b, a);
    }
  }

  /** Euclid's algorithm; `Gcd(0, x) == x`, so a running gcd may start from 0. */
  function Gcd(a: nat, b: nat): (g: nat)
    ensures Divides(g, a) && Divides(g, b)
    decreases b
  {
    if b == 0 then
      DividesSelf(a);
      DividesZero(a);
      a
    else
      var g := Gcd(b, a % b);
      DividesMultiple(g, b, a / b);
      DividesSumDiff(g, (a / b) * b, a % b);
      g
  }

  /** Every common divisor of `a` and `b` divides `Gcd(a, b)`. */
  lemma {:induction false} GcdGreatest(a: nat, b: nat, d: int)
    requires Divides(d, a) && Divides(d, b)
    ensures Divides(d, Gcd(a, b))
    decreases b
  {
    if b != 0 {
      DividesMultiple(d, b, a / b);
      DividesSumDiff(d, a, (a / b) * b);
      assert a - (a / b) * b == a % b;
      GcdGreatest(b, a % b, d);
    }
  }
}
