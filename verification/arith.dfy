/**
 Facts about exact integer division (Euclidean, like Go's `big.Int.Div`) that the
 difficulty rules depend on: the floor characterisation, its uniqueness, and
 how two successive truncating divisions compose.
 */
module Arith {

  function Pow(base: nat, exp: nat): (r: nat)
    ensures base >= 1 ==> r >= 1
  {
    if exp == 0 then 1 else base * Pow(base, exp - 1)
  }

  lemma {:induction false} PowAdd(base: nat, m: nat, n: nat)
    ensures Pow(base, m + n) == Pow(base, m) * Pow(base, n)
  {
    if n > 0 {
      var a, c := Pow(base, m), Pow(base, n - 1);
      PowAdd(base, m, n - 1);
      assert Pow(base, m + n) == base * (a * c);
      assert base * (a * c) == a * (base * c);
    }
  }

  lemma {:induction false} PowMul(base: nat, m: nat, n: nat)
    ensures Pow(Pow(base, m), n) == Pow(base, m * n)
  {
    if n > 0 {
      PowMul(base, m, n - 1);
      assert m * n == m + m * (n - 1);
      PowAdd(base, m, m * (n - 1));
    }
  }

  lemma MulLeMono(a: int, b: int, c: int)
    requires a <= b && 0 <= c
    ensures a * c <= b * c
  {
    assert b * c - a * c == (b - a) * c;
  }

  /** For a positive divisor, `n / d` is the unique `q` with `q*d <= n < (q+1)*d`. */
  lemma DivIsFloor(n: int, d: int)
    requires 0 < d
    ensures (n / d) * d <= n < (n / d + 1) * d
  {
    assert n == d * (n / d) + n % d;
  }

  lemma DivUnique(n: int, d: int, q: int)
    requires 0 < d
    requires q * d <= n < (q + 1) * d
    ensures n / d == q
  {
    DivIsFloor(n, d);
    var q' := n / d;
    if q' < q {
      MulLeMono(q' + 1, q, d);
      assert false;
    } else if q < q' {
      MulLeMono(q + 1, q', d);
      assert false;
    }
  }

  /** Taking the divisor off the numerator takes one off the quotient. */
  lemma DivShift(n: int, d: int)
    requires 0 < d
    ensures (n - d) / d == n / d - 1
  {
    DivIsFloor(n, d);
    DivUnique(n - d, d, n / d - 1);
  }

  /** A numerator of at least |d| divided by a negative `d` gives a negative quotient. */
  lemma DivByNegative(n: int, d: int)
    requires d < 0 && -d <= n
    ensures n / d < 0
  {
    var q := n / d;
    assert n == d * q + n % d;
    if 0 <= q {
      MulLeMono(0, q, -d);
      assert false;
    }
  }

  /** `x` lies at or below the floor quotient exactly when `x*d` does not exceed `n`. */
  lemma BelowFloor(n: int, d: int, x: int)
    requires 0 < d
    ensures x <= n / d <==> x * d <= n
  {
    DivIsFloor(n, d);
    if x <= n / d {
      MulLeMono(x, n / d, d);
    } else {
      MulLeMono(n / d + 1, x, d);
    }
  }

  /** Dividing by a larger positive divisor never gives a larger quotient. */
  lemma DivAntitone(n: int, d1: int, d2: int)
    requires 0 <= n && 0 < d1 <= d2
    ensures n / d2 <= n / d1
  {
    DivIsFloor(n, d2);
    MulLeMono(d1, d2, n / d2);
    BelowFloor(n, d1, n / d2);
  }

  /** Two truncating divisions equal one division by the product. */
  lemma {:induction false} NestedDiv(n: int, a: int, b: int)
    requires 0 < a && 0 < b
    ensures (n / a) / b == n / (a * b)
  {
    var q1 := n / a;
    var q := q1 / b;
    DivIsFloor(n, a);
    DivIsFloor(q1, b);
    // n in [q1*a, q1*a + a) and q1 in [q*b, q*b + b)
    MulLeMono(q * b, q1, a);
    MulLeMono(q1 + 1, (q + 1) * b, a);
    assert q * b * a == q * (a * b);
    assert (q + 1) * b * a == (q + 1) * (a * b);
    DivUnique(n, a * b, q);
  }
}
