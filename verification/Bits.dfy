/**
  Word arithmetic of api/util/bitops.hpp, on 64-bit words.  Values are
  mathematical integers; wrap-around is written out with `Word`.
 */
module Bits {
  import opened Arith

  /** One more than the largest machine word (uintptr_t on a 64-bit target). */
  const WORD: nat := 0x1_0000_0000_0000_0000

  /** The sum of two words, or twice a word, as the machine stores it: at most one wrap. */
  function Word(x: int): (r: int) {
    if x < WORD then x else x - WORD
  }

  /** The difference of two words as the machine stores it. */
  function WordMinus(x: int, y: int): (r: int) {
    if y <= x then x - y else x + WORD - y
  }

  function Pow2(n: nat): (p: nat)
    ensures p >= 1
  {
    if n == 0 then 1 else 2 * Pow2(n - 1)
  }

  ghost predicate IsPow2(x: nat) {
    exists k: nat :: x == Pow2(k)
  }

  /** Position of the last set bit, counted from one; zero for zero. */
  function Fls(n: nat): (r: nat) {
    if n == 0 then 0 else 1 + Fls(n / 2)
  }

  lemma {:induction false} FlsBounds(n: nat)
    requires n > 0
    ensures Fls(n) >= 1
    ensures Pow2(Fls(n) - 1) <= n < Pow2(Fls(n))
  {
    if n > 1 {
      FlsBounds(n / 2);
    }
  }

  lemma {:induction false} Pow2Monotone(a: nat, b: nat)
    requires a <= b
    ensures Pow2(a) <= Pow2(b)
    ensures a < b ==> 2 * Pow2(a) <= Pow2(b)
  {
    if a < b {
      Pow2Monotone(a, b - 1);
    }
  }

  lemma {:induction false} Pow2Add(a: nat, b: nat)
    ensures Pow2(a + b) == Pow2(a) * Pow2(b)
  {
    if b == 0 {
    } else {
      Pow2Add(a, b - 1);
      assert Pow2(a + b) == 2 * Pow2(a + (b - 1));
    }
  }

  /** `Fls` is the only number whose power-of-two bracket holds n. */
  lemma FlsUnique(n: nat, k: nat)
    requires k >= 1 && Pow2(k - 1) <= n < Pow2(k)
    ensures Fls(n) == k
  {
    FlsBounds(n);
    if Fls(n) < k {
      Pow2Monotone(Fls(n), k - 1);
    } else if Fls(n) > k {
      Pow2Monotone(k, Fls(n) - 1);
    }
  }

  /** Keep the last set bit.  Undefined for zero, as in the source. */
  function KeepLast(n: nat): (r: nat)
    requires n > 0
  {
    Pow2(Fls(n) - 1)
  }

  /** The largest power of two not above n. */
  lemma KeepLastIsFloor(n: nat)
    requires n > 0
    ensures IsPow2(KeepLast(n))
    ensures KeepLast(n) <= n < 2 * KeepLast(n)
    ensures forall k: nat :: Pow2(k) <= n ==> Pow2(k) <= KeepLast(n)
  {
    FlsBounds(n);
    forall k: nat | Pow2(k) <= n
      ensures Pow2(k) <= KeepLast(n)
    {
      if k > Fls(n) - 1 {
        Pow2Monotone(Fls(n), k);
      } else {
        Pow2Monotone(k, Fls(n) - 1);
      }
    }
  }

  /** The bracket determines `KeepLast`. */
  lemma KeepLastUnique(n: nat, k: nat)
    requires Pow2(k) <= n < 2 * Pow2(k)
    ensures n > 0 && KeepLast(n) == Pow2(k)
  {
    FlsUnique(n, k + 1);
  }

  /** Next power of two; doubling the top bit of a word wraps to zero. */
  function NextPow2(i: nat): (r: nat)
    requires 0 < i
  {
    var lastbit := KeepLast(i);
    if i == lastbit then i else Word(lastbit * 2)
  }

  lemma Pow2At32()
    ensures Pow2(31) == 0x8000_0000 && Pow2(32) == 0x1_0000_0000
  {
    assert Pow2(8) == 256;
    Pow2Add(8, 8);
    Pow2Add(16, 8);
    Pow2Add(24, 7);
  }

  lemma Pow2At63()
    ensures Pow2(63) == 0x8000_0000_0000_0000
    ensures Pow2(64) == WORD
  {
    Pow2At32();
    Pow2Add(32, 31);
  }

  /**
    Up to half the word range `NextPow2` is the least power of two covering i;
    above it the doubling wraps and the result is zero.
   */
  lemma NextPow2IsCeiling(i: nat)
    requires 0 < i < WORD
    ensures i <= WORD / 2 ==> IsPow2(NextPow2(i)) && i <= NextPow2(i) <= WORD / 2
    ensures i <= WORD / 2 ==> forall k: nat :: i <= Pow2(k) ==> NextPow2(i) <= Pow2(k)
    ensures i > WORD / 2 ==> NextPow2(i) == 0
  {
    var e := Fls(i) - 1;
    FlsBounds(i);
    Pow2At63();
    if i > WORD / 2 {
      FlsUnique(i, 64);
    } else {
      var c := if i == Pow2(e) then e else e + 1;
      NextPow2Exponent(i, c);
      forall k: nat | i <= Pow2(k)
        ensures NextPow2(i) <= Pow2(k)
      {
        if k < c { Pow2Monotone(k, c - 1); }
        else { Pow2Monotone(c, k); }
      }
    }
  }

  lemma NextPow2Exponent(i: nat, c: nat)
    requires 0 < i <= WORD / 2
    requires i <= Pow2(c) && (c > 0 ==> Pow2(c - 1) < i)
    ensures NextPow2(i) == Pow2(c) <= WORD / 2
  {
    Pow2At63();
    if c > 63 { Pow2Monotone(63, c - 1); }
    Pow2Monotone(c, 63);
    if i == Pow2(c) {
      FlsUnique(i, c + 1);
    } else {
      FlsUnique(i, c);
    }
  }

  /** Multiples of m needed to cover x. */
  function Multip(m: nat, x: nat): (r: nat)
    requires m > 0
  {
    (m - 1 + x) / m
  }

  /** Round x up to a multiple of m. */
  function RoundTo(m: nat, x: nat): (r: nat)
    requires m > 0
  {
    Multip(m, x) * m
  }

  /** `RoundTo` gives the least multiple of m that is at least x. */
  lemma RoundToIsCeiling(m: nat, x: nat)
    requires m > 0
    ensures RoundTo(m, x) % m == 0
    ensures x <= RoundTo(m, x) < x + m
  {
    var q := Multip(m, x);
    assert m * q <= m - 1 + x < m * q + m;
    DivModUnique(q * m, m, q, 0);
  }

  /** The same on words, where the sum may wrap. */
  function WordRoundTo(m: nat, x: nat): (r: int)
    requires m > 0
  {
    Word(m - 1 + x) / m * m
  }

  /** On words it is that multiple if and only if the sum does not wrap; else it is zero. */
  lemma WordRoundToExact(m: nat, x: nat)
    requires 0 < m < WORD && 0 < x < WORD
    ensures WordRoundTo(m, x) == if m - 1 + x < WORD then RoundTo(m, x) else 0
    ensures x <= WordRoundTo(m, x) <==> m - 1 + x < WORD
    ensures m - 1 + x < WORD ==> WordRoundTo(m, x) % m == 0 && WordRoundTo(m, x) < x + m
  {
    if m - 1 + x < WORD {
      RoundToIsCeiling(m, x);
    } else {
      var rest := m - 1 + x - WORD;
      DivModUnique(rest, m, 0, rest);
      assert rest / m == 0;
    }
  }
}
