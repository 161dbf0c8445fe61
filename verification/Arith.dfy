/** Division, remainder and greatest common divisor: facts the index arithmetic rests on. */
module Arith {

  /** Quotient and remainder are determined by their defining equation. */
  lemma DivModUnique(a: int, m: int, q: int, r: int)
    requires m > 0
    requires a == m * q + r && 0 <= r < m
    ensures a / m == q && a % m == r
  {
    var q', r' := a / m, a % m;
    assert m * (q - q') == r' - r by {
      assert m * (q - q') == m * q - m * q';
    }
    if q - q' >= 1 {
      MulAtLeast(m, q - q');
    } else if q' - q >= 1 {
      MulAtLeast(m, q' - q);
    }
  }

  lemma MulAtLeast(m: int, k: int)
    requires m > 0 && k >= 1
    ensures m * k >= m
  {
  }

  /** Adding a multiple of m does not change the remainder. */
  lemma ModAddMultiple(a: int, m: int, k: int)
    requires m > 0
    ensures (a + m * k) % m == a % m
  {
    assert a + m * k == m * (a / m + k) + a % m by {
      assert m * (a / m + k) == m * (a / m) + m * k;
    }
    DivModUnique(a + m * k, m, a / m + k, a % m);
  }

  lemma MulNonNegative(a: int, b: int)
    requires a >= 0 && b >= 0
    ensures a * b >= 0
  {
  }

  lemma MulDouble(a: int, b: int)
    ensures (2 * a) * b == a * (2 * b)
    ensures (2 * a + 1) * b == a * (2 * b) + b
  {
  }

  lemma MulStrict(a: int, b: int, m: int)
    requires a < b && m > 0
    ensures a * m + m <= b * m
  {
    MulAtLeast(m, b - a);
    assert (b - a) * m == b * m - a * m;
  }

  /** A number below twice the modulus wraps at most once. */
  lemma ModOnce(x: int, m: int)
    requires 0 <= x < 2 * m
    ensures x % m == if x < m then x else x - m
  {
    if x < m {
      DivModUnique(x, m, 0, x);
    } else {
      DivModUnique(x, m, 1, x - m);
    }
  }

  lemma MulAssociates(a: int, b: int, c: int)
    ensures (a * b) * c == a * (b * c)
  {
  }

  lemma MulDistributes(a: int, b: int, c: int)
    ensures a * (b + c) == a * b + a * c
  {
  }

  /** A combination of multiples of d is a multiple of d. */
  lemma CombineMultiples(d: int, p: int, x: int, q: int, y: int)
    ensures (d * p) * x + (d * q) * y == d * (p * x + q * y)
  {
    MulAssociates(d, p, x);
    MulAssociates(d, q, y);
    MulDistributes(d, p * x, q * y);
  }

  // ---- greatest common divisor ----

  function Gcd(a: nat, b: nat): (g: nat)
    ensures a > 0 || b > 0 ==> g > 0
    decreases a + b, b
  {
    if b == 0 then a else if a >= b then Gcd(a - b, b) else Gcd(b, a)
  }

  ghost predicate Divides(d: int, a: int) {
    exists q: int :: a == d * q
  }

  lemma {:induction false} GcdDivides(a: nat, b: nat)
    ensures Divides(Gcd(a, b), a) && Divides(Gcd(a, b), b)
    decreases a + b, b
  {
    var g := Gcd(a, b);
    if b == 0 {
      assert a == a * 1 && b == a * 0;
    } else if a >= b {
      GcdDivides(a - b, b);
      var x: int :| a - b == g * x;
      var y: int :| b == g * y;
      MulDistributes(g, x, y);
      assert a == g * (x + y);
    } else {
      GcdDivides(b, a);
    }
  }

  /** Bezout: the greatest common divisor is an integer combination. */
  lemma {:induction false} Bezout(a: nat, b: nat) returns (x: int, y: int)
    ensures a * x + b * y == Gcd(a, b)
    decreases a + b, b
  {
    if b == 0 {
      x, y := 1, 0;
    } else if a >= b {
      var u, v := Bezout(a - b, b);
      x, y := u, v - u;
      MulDistributes(u, a - b, b);
      MulDistributes(b, v - u, u);
    } else {
      y, x := Bezout(b, a);
    }
  }

  // ---- residue classes ----

  /** The remainder of j modulo g, by repeated subtraction. */
  function Residue(j: nat, g: nat): (r: nat)
    requires g > 0
    ensures r < g
  {
    if j < g then j else Residue(j - g, g)
  }

  lemma {:induction false} ResidueIsMod(j: nat, g: nat)
    requires g > 0
    ensures Residue(j, g) == j % g
  {
    if j < g {
      DivModUnique(j, g, 0, j);
    } else {
      ResidueIsMod(j - g, g);
      ModAddMultiple(j - g, g, 1);
    }
  }
}
