/**
  Orbits of adding s modulo n: the index arithmetic behind the in-place
  rotation of api/util/ringbuffer.hpp.  With g = gcd(n, s) the orbit of an
  offset o < g has n / g positions, namely those congruent to o modulo g.
 */
module Rotation {
  import opened Arith

  /** Where k steps of s from o lead, modulo n. */
  function Hop(n: nat, s: nat, o: nat, k: nat): (j: nat)
    requires n > 0
    ensures j < n
  {
    MulNonNegative(k, s);
    (o + k * s) % n
  }

  lemma HopStep(n: nat, s: nat, o: nat, k: nat)
    requires n > 0
    ensures Hop(n, s, o, k + 1) == (s + Hop(n, s, o, k)) % n
  {
    MulNonNegative(k, s);
    var x := o + k * s;
    assert o + (k + 1) * s == x + s;
    assert x == n * (x / n) + x % n;
    ModAddMultiple(s + x % n, n, x / n);
  }

  lemma HopStart(n: nat, s: nat, o: nat)
    requires o < n
    ensures Hop(n, s, o, 0) == o
  {
    assert 0 * s == 0;
    DivModUnique(o, n, 0, o);
  }

  /** n and s in units of their greatest common divisor, with a Bezout relation between them. */
  ghost predicate Units(n: nat, s: nat, g: nat, len: nat, m: nat, x: int, y: int) {
    g > 0 && len > 0 && n == g * len && s == g * m && len * x + m * y == 1
  }

  lemma GetUnits(n: nat, s: nat) returns (len: nat, m: nat, x: int, y: int)
    requires n > 0
    ensures Units(n, s, Gcd(n, s), len, m, x, y)
  {
    GcdDivides(n, s);
    var g := Gcd(n, s);
    var p: int :| n == g * p;
    var q: int :| s == g * q;
    FactorSign(g, p);
    FactorSign(g, q);
    len, m := p, q;
    x, y := Bezout(n, s);
    CombineMultiples(g, p, x, q, y);
    CancelFactor(g, len * x + m * y, 1);
  }

  lemma FactorSign(g: int, p: int)
    requires g > 0 && g * p >= 0
    ensures p >= 0 && (g * p > 0 ==> p > 0)
  {
    if p < 0 { MulAtLeast(g, -p); }
  }

  lemma CancelFactor(g: int, a: int, b: int)
    requires g > 0 && g * a == g * b
    ensures a == b
  {
    if a < b { MulStrict(a, b, g); }
    if b < a { MulStrict(b, a, g); }
  }

  /** No multiple of s by fewer than len steps is a multiple of n. */
  lemma NoEarlyReturn(n: nat, s: nat, g: nat, len: nat, m: nat, x: int, y: int, k: nat, t: int)
    requires Units(n, s, g, len, m, x, y) && k * s == n * t
    ensures Divides(len, k)
  {
    assert g * (k * m) == g * (len * t) by {
      assert k * (g * m) == g * (k * m);
      assert (g * len) * t == g * (len * t);
    }
    CancelFactor(g, k * m, len * t);
    assert k == len * (k * x + t * y) by {
      assert k == k * (len * x + m * y);
      assert k * (len * x + m * y) == k * (len * x) + k * (m * y);
      assert k * (len * x) == len * (k * x);
      assert k * (m * y) == (k * m) * y;
      assert (len * t) * y == len * (t * y);
      assert len * (k * x + t * y) == len * (k * x) + len * (t * y);
    }
  }

  /** The first len positions of an orbit are distinct. */
  lemma HopsDistinct(n: nat, s: nat, g: nat, len: nat, m: nat, x: int, y: int, o: nat, j: nat, k: nat)
    requires Units(n, s, g, len, m, x, y) && j < k < len && n > 0
    ensures Hop(n, s, o, j) != Hop(n, s, o, k)
  {
    MulNonNegative(j, s);
    MulNonNegative(k, s);
    var a, b := o + j * s, o + k * s;
    if a % n == b % n {
      var t := b / n - a / n;
      assert (k - j) * s == n * t by {
        assert (k - j) * s == b - a;
        assert n * t == n * (b / n) - n * (a / n);
      }
      NoEarlyReturn(n, s, g, len, m, x, y, k - j, t);
      var q: int :| k - j == len * q;
      if q <= 0 { MulNonNegative(len, -q); } else { MulAtLeast(len, q); }
    }
  }

  /** After len steps the orbit closes. */
  lemma HopsClose(n: nat, s: nat, g: nat, len: nat, m: nat, x: int, y: int, o: nat)
    requires Units(n, s, g, len, m, x, y) && o < n
    ensures Hop(n, s, o, len) == o
  {
    MulNonNegative(len, s);
    assert len * s == n * m by {
      assert len * (g * m) == (g * len) * m;
    }
    ModAddMultiple(o, n, m);
    DivModUnique(o, n, 0, o);
  }

  /** An orbit stays in one residue class modulo g. */
  lemma HopResidue(n: nat, s: nat, g: nat, len: nat, m: nat, x: int, y: int, o: nat, k: nat)
    requires Units(n, s, g, len, m, x, y) && o < g && n > 0
    ensures Residue(Hop(n, s, o, k), g) == o
  {
    MulNonNegative(k, s);
    var q := (o + k * s) / n;
    HopValue(n, s, g, len, m, o, k, q);
    ClassShift(g, o, k * m - len * q, Hop(n, s, o, k));
    assert Residue(o, g) == o;
  }

  lemma HopValue(n: int, s: int, g: int, len: int, m: int, o: int, k: int, q: int)
    requires n == g * len && s == g * m
    ensures o + k * s - n * q == o + g * (k * m - len * q)
  {
    Shuffle(k, g, m);
    MulAssociates(g, len, q);
    MulDistributes(g, k * m, -(len * q));
  }

  /** Numbers that differ by a multiple of g are in one residue class. */
  lemma ClassShift(g: nat, j: nat, k: int, x: nat)
    requires g > 0 && x == j + g * k
    ensures Residue(x, g) == Residue(j, g)
  {
    ModAddMultiple(j, g, k);
    ResidueIsMod(j, g);
    ResidueIsMod(x, g);
  }

  /** Every position of the residue class is reached, within len steps. */
  lemma HopReaches(n: nat, s: nat, g: nat, len: nat, m: nat, x: int, y: int, o: nat, j: nat) returns (k: nat)
    requires Units(n, s, g, len, m, x, y) && o < g && j < n && Residue(j, g) == o
    ensures k < len && Hop(n, s, o, k) == j
  {
    ResidueIsMod(j, g);
    var t := j / g;
    var e := t * y;
    k := e % len;
    var q := e / len;
    assert e == len * q + k;
    MulNonNegative(k, s);
    ReachSum(n, s, g, len, m, x, y, t, q, k);
    Wraps(o + k * s, n, -(t * x + m * q), j);
  }

  lemma Wraps(a: int, n: nat, z: int, j: nat)
    requires j < n && a == j + n * z
    ensures a % n == j
  {
    ModAddMultiple(j, n, z);
    DivModUnique(j, n, 0, j);
  }

  lemma ReachSum(n: nat, s: nat, g: nat, len: nat, m: nat, x: int, y: int, t: int, q: int, k: int)
    requires Units(n, s, g, len, m, x, y) && t * y == len * q + k
    ensures k * s == g * t + n * (-(t * x + m * q))
  {
    var z := t * x + m * q;
    ReachUnits(len, m, x, y, t, q, k);
    MulAssociates(g, m, k);
    MulAssociates(g, len, -z);
    MulDistributes(g, t, len * -z);
  }

  lemma ReachUnits(len: int, m: int, x: int, y: int, t: int, q: int, k: int)
    requires len * x + m * y == 1 && t * y == len * q + k
    ensures m * k == t + len * -(t * x + m * q)
  {
    // t = t * (len * x + m * y), and m * (t * y) = m * (len * q) + m * k.
    MulDistributes(t, len * x, m * y);
    MulDistributes(m, len * q, k);
    Shuffle(t, len, x);
    Shuffle(t, m, y);
    Shuffle(m, len, q);
    MulDistributes(len, t * x, m * q);
  }

  lemma Shuffle(a: int, b: int, c: int)
    ensures a * (b * c) == b * (a * c)
  {
    MulAssociates(a, b, c);
    MulAssociates(b, a, c);
  }

  // ---- the same facts in terms of the period ----

  /** Length of the orbits: n divided by the greatest common divisor. */
  ghost function Period(n: nat, s: nat): (len: nat)
    requires n > 0
    ensures Gcd(n, s) * len == n && len > 0
  {
    GcdDivides(n, s);
    var p: int :| n == Gcd(n, s) * p;
    assert p > 0 by {
      if p <= 0 { MulNonNegative(Gcd(n, s), -p); }
    }
    p
  }

  lemma PeriodUnits(n: nat, s: nat) returns (m: nat, x: int, y: int)
    requires n > 0
    ensures Units(n, s, Gcd(n, s), Period(n, s), m, x, y)
  {
    var len;
    len, m, x, y := GetUnits(n, s);
    CancelFactor(Gcd(n, s), len, Period(n, s));
  }

  lemma OrbitDistinct(n: nat, s: nat, o: nat, j: nat, k: nat)
    requires n > 0 && j < k < Period(n, s)
    ensures Hop(n, s, o, j) != Hop(n, s, o, k)
  {
    var m, x, y := PeriodUnits(n, s);
    HopsDistinct(n, s, Gcd(n, s), Period(n, s), m, x, y, o, j, k);
  }

  lemma OrbitCloses(n: nat, s: nat, o: nat)
    requires o < n
    ensures Hop(n, s, o, Period(n, s)) == o
  {
    var m, x, y := PeriodUnits(n, s);
    HopsClose(n, s, Gcd(n, s), Period(n, s), m, x, y, o);
  }

  lemma OrbitInClass(n: nat, s: nat, o: nat, k: nat)
    requires n > 0 && o < Gcd(n, s)
    ensures Residue(Hop(n, s, o, k), Gcd(n, s)) == o
  {
    var m, x, y := PeriodUnits(n, s);
    HopResidue(n, s, Gcd(n, s), Period(n, s), m, x, y, o, k);
  }

  lemma OrbitReaches(n: nat, s: nat, o: nat, j: nat) returns (k: nat)
    requires n > 0 && o < Gcd(n, s) && j < n && Residue(j, Gcd(n, s)) == o
    ensures k < Period(n, s) && Hop(n, s, o, k) == j
  {
    var m, x, y := PeriodUnits(n, s);
    k := HopReaches(n, s, Gcd(n, s), Period(n, s), m, x, y, o, j);
  }

  lemma GcdBelow(n: nat, s: nat)
    requires n > 0
    ensures 0 < Gcd(n, s) <= n
  {
    MulAtLeast(Gcd(n, s), Period(n, s));
  }
}
