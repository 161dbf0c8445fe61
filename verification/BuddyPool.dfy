/** Sizing the pool of a buddy allocator for a buffer (api/util/alloc_buddy.hpp, pool_size). */
module BuddyPool {
  import opened Arith
  import opened Bits
  import opened BuddyTree

  /** Flag bytes needed for a pool, and the buffer space lost to them and to the allocator itself. */
  function NodesFor(pool: nat): int {
    (pool / MIN_SIZE) * 2 - 1
  }

  function Overhead(sizeofAlloc: nat, pool: nat): nat
    requires sizeofAlloc >= 1
  {
    RoundTo(MIN_SIZE, sizeofAlloc + NodesFor(pool))
  }

  lemma NodesForPow2(pool: nat)
    requires IsPow2(pool) && pool >= MIN_SIZE
    ensures var h := Fls(NodesFor(pool));
            h >= 1 && NodesFor(pool) == NodeCount(h) && pool == MIN_SIZE * Pow2(h - 1)
  {
    var e: nat :| pool == Pow2(e);
    assert Pow2(12) == MIN_SIZE;
    assert Pow2(11) == 2048;
    if e < 12 { Pow2Monotone(e, 11); }
    Pow2Add(12, e - 12);
    DivModUnique(pool, MIN_SIZE, Pow2(e - 12), 0);
    FlsUnique(NodesFor(pool), e - 11);
  }

  datatype Policy = Underbook | Overbook

  const INT_WORD: nat := 0x1_0000_0000

  /** A word stored in a 32-bit signed int. */
  function ToInt(x: nat): int {
    var low := x % INT_WORD;
    if low < INT_WORD / 2 then low else low - INT_WORD
  }

  /** A signed int used as a word. */
  function ToWord(x: int): int {
    if x < 0 then x + WORD else x
  }

  /** Orders the recursion of `PoolSize`: only buffers of at most 2^32 bytes recurse. */
  ghost function Rank(bufsize: nat): nat {
    if bufsize <= INT_WORD / 2 then bufsize
    else if bufsize <= INT_WORD then WORD + 1
    else WORD
  }

  /**
    Pool size for a buffer.  The candidate is held in an int, so buffers above
    2^31 lose it.  Buffers below two pages are excluded: there the source ends
    in an undefined shift.
   */
  function PoolSize(policy: Policy, sizeofAlloc: nat, bufsize: nat): (q: nat)
    requires 2 <= sizeofAlloc < MIN_SIZE && 2 * MIN_SIZE <= bufsize < WORD
    decreases Rank(bufsize), 1
  {
    var pow2 := NextPow2(bufsize);
    if policy == Overbook && pow2 > bufsize then pow2
    else FittedSize(policy, sizeofAlloc, bufsize, FirstGuess(bufsize))
  }

  /** The power of two below the buffer, as it comes back out of the int it is kept in. */
  function FirstGuess(bufsize: nat): int
    requires bufsize >= 2
  {
    ToWord(ToInt(KeepLast(bufsize - 1)))
  }

  /** The candidate pool if its overhead fits beside it, otherwise the same question for the candidate itself. */
  function FittedSize(policy: Policy, sizeofAlloc: nat, bufsize: nat, pool: int): (q: nat)
    requires 2 <= sizeofAlloc < MIN_SIZE && 2 * MIN_SIZE <= bufsize < WORD && pool == FirstGuess(bufsize)
    decreases Rank(bufsize), 0
  {
    GuessRange(sizeofAlloc, bufsize);
    var unalloc := WordMinus(bufsize, pool);
    var overhead := Overhead(sizeofAlloc, pool);
    if unalloc < overhead then PoolSize(policy, sizeofAlloc, pool)
    else KeepLast(bufsize - overhead)
  }

  /**
    The overhead of a pool is whole pages, as few as hold the allocator and a
    flag byte for every node of a tree with the pool's pages as leaves; it is
    never more than the pool.
   */
  lemma OverheadFits(sizeofAlloc: nat, pages: nat)
    requires 2 <= sizeofAlloc < MIN_SIZE && pages >= 1
    ensures var o := Overhead(sizeofAlloc, MIN_SIZE * pages);
            && MIN_SIZE <= o <= MIN_SIZE * pages && o % MIN_SIZE == 0
            && sizeofAlloc + 2 * pages - 1 <= o < sizeofAlloc + 2 * pages - 1 + MIN_SIZE
  {
    assert (MIN_SIZE * pages) / MIN_SIZE == pages;
    RoundToIsCeiling(MIN_SIZE, sizeofAlloc + 2 * pages - 1);
  }

  lemma PagesOfPow2(e: nat)
    requires e >= 12
    ensures Pow2(e) == MIN_SIZE * Pow2(e - 12)
  {
    assert Pow2(12) == MIN_SIZE;
    Pow2Add(12, e - 12);
  }

  /** Exponent of the candidate. */
  lemma GuessExponent(bufsize: nat) returns (e: nat)
    requires 2 * MIN_SIZE <= bufsize < WORD
    ensures e >= 12 && KeepLast(bufsize - 1) == Pow2(e) < bufsize <= 2 * Pow2(e)
    ensures bufsize <= INT_WORD / 2 ==> e <= 30
    ensures INT_WORD / 2 < bufsize <= INT_WORD ==> e == 31
    ensures bufsize > INT_WORD ==> e >= 32
  {
    e := Fls(bufsize - 1) - 1;
    FlsBounds(bufsize - 1);
    KeepLastIsFloor(bufsize - 1);
    Pow2At32();
    assert Pow2(12) == MIN_SIZE;
    if e < 12 { Pow2Monotone(e + 1, 12); }
    if e > 30 { Pow2Monotone(31, e); }
    if e < 31 { Pow2Monotone(e + 1, 31); }
    if e > 31 { Pow2Monotone(32, e); } else { Pow2Monotone(e + 1, 32); }
  }

  /** How the candidate comes out in each range of buffer sizes. */
  lemma GuessRange(sizeofAlloc: nat, bufsize: nat)
    requires 2 <= sizeofAlloc < MIN_SIZE && 2 * MIN_SIZE <= bufsize < WORD
    ensures var k := KeepLast(bufsize - 1);
            var pool := FirstGuess(bufsize);
            && (bufsize <= INT_WORD / 2 ==> SmallGuess(sizeofAlloc, bufsize, pool) && pool == k)
            && (INT_WORD / 2 < bufsize <= INT_WORD ==> pool == WORD - INT_WORD / 2)
            && (bufsize > INT_WORD ==> pool == 0)
    ensures Overhead(sizeofAlloc, 0) == MIN_SIZE
    ensures bufsize <= INT_WORD ==> Overhead(sizeofAlloc, WORD - INT_WORD / 2) > WordMinus(bufsize, WORD - INT_WORD / 2)
  {
    var e := GuessExponent(bufsize);
    GuessAsInt(e);
    if bufsize <= INT_WORD / 2 {
      SmallGuessHolds(sizeofAlloc, bufsize, e);
    }
    HugeOverhead(sizeofAlloc);
  }

  /** A power of two survives in an int below 2^31, turns negative at 2^31, and vanishes above. */
  lemma GuessAsInt(e: nat)
    ensures e <= 30 ==> ToWord(ToInt(Pow2(e))) == Pow2(e)
    ensures e == 31 ==> ToWord(ToInt(Pow2(e))) == WORD - INT_WORD / 2
    ensures e >= 32 ==> ToWord(ToInt(Pow2(e))) == 0
  {
    Pow2At32();
    if e <= 30 {
      Pow2Monotone(e, 30);
    } else if e >= 32 {
      LowBitsOfPow2(e);
    }
  }

  lemma LowBitsOfPow2(e: nat)
    requires e >= 32
    ensures Pow2(e) % INT_WORD == 0
  {
    Pow2At32();
    Pow2Add(32, e - 32);
    DivModUnique(Pow2(e), INT_WORD, Pow2(e - 32), 0);
  }

  lemma HugeOverhead(sizeofAlloc: nat)
    requires 2 <= sizeofAlloc < MIN_SIZE
    ensures Overhead(sizeofAlloc, 0) == MIN_SIZE
    ensures Overhead(sizeofAlloc, WORD - INT_WORD / 2) > 2 * INT_WORD
  {
    RoundToIsCeiling(MIN_SIZE, sizeofAlloc + NodesFor(WORD - INT_WORD / 2));
  }

  lemma SmallGuessHolds(sizeofAlloc: nat, bufsize: nat, e: nat)
    requires 2 <= sizeofAlloc < MIN_SIZE && 2 * MIN_SIZE <= bufsize
    requires e >= 12 && Pow2(e) < bufsize <= 2 * Pow2(e)
    ensures SmallGuess(sizeofAlloc, bufsize, Pow2(e))
  {
    PagesOfPow2(e);
    OverheadFits(sizeofAlloc, Pow2(e - 12));
    if e > 12 { Pow2Monotone(1, e - 12); }
  }

  ghost predicate SmallGuess(sizeofAlloc: nat, bufsize: nat, pool: nat)
    requires 2 <= sizeofAlloc < MIN_SIZE
  {
    && MIN_SIZE <= pool < bufsize <= 2 * pool
    && MIN_SIZE <= Overhead(sizeofAlloc, pool) <= pool
    && (bufsize - pool < Overhead(sizeofAlloc, pool) ==> 2 * MIN_SIZE <= pool)
  }

  /** q is the largest power of two that fits the buffer together with its overhead. */
  ghost predicate LargestFitting(sizeofAlloc: nat, bufsize: nat, q: nat)
    requires sizeofAlloc >= 2
  {
    && IsPow2(q) && q >= MIN_SIZE && q + Overhead(sizeofAlloc, q) <= bufsize
    && forall e: nat :: Pow2(e) + Overhead(sizeofAlloc, Pow2(e)) <= bufsize ==> Pow2(e) <= q
  }

  lemma OverheadMonotone(sizeofAlloc: nat, a: nat, b: nat)
    requires sizeofAlloc >= 2 && a <= b
    ensures Overhead(sizeofAlloc, a) <= Overhead(sizeofAlloc, b)
  {
    assert a / MIN_SIZE <= b / MIN_SIZE;
  }

  lemma LargestByBracket(sizeofAlloc: nat, bufsize: nat, c: nat)
    requires sizeofAlloc >= 2 && c >= 12
    requires Pow2(c) + Overhead(sizeofAlloc, Pow2(c)) <= bufsize
    requires 2 * Pow2(c) + Overhead(sizeofAlloc, 2 * Pow2(c)) > bufsize
    ensures LargestFitting(sizeofAlloc, bufsize, Pow2(c))
  {
    assert Pow2(12) == MIN_SIZE;
    Pow2Monotone(12, c);
    forall e: nat | Pow2(e) + Overhead(sizeofAlloc, Pow2(e)) <= bufsize
      ensures Pow2(e) <= Pow2(c)
    {
      NoLargerFits(sizeofAlloc, bufsize, c, e);
    }
  }

  lemma NoLargerFits(sizeofAlloc: nat, bufsize: nat, c: nat, e: nat)
    requires sizeofAlloc >= 2 && 2 * Pow2(c) + Overhead(sizeofAlloc, 2 * Pow2(c)) > bufsize
    requires Pow2(e) + Overhead(sizeofAlloc, Pow2(e)) <= bufsize
    ensures Pow2(e) <= Pow2(c)
  {
    if e > c {
      Pow2Monotone(c, e);
      OverheadMonotone(sizeofAlloc, 2 * Pow2(c), Pow2(e));
    } else {
      Pow2Monotone(e, c);
    }
  }

  /** A candidate that leaves room for its overhead is the answer. */
  lemma GuessAccepted(policy: Policy, sizeofAlloc: nat, bufsize: nat, e: nat)
    requires 2 <= sizeofAlloc < MIN_SIZE && 2 * MIN_SIZE <= bufsize <= INT_WORD / 2
    requires FirstGuess(bufsize) == Pow2(e) && bufsize - Pow2(e) >= Overhead(sizeofAlloc, Pow2(e))
    ensures FittedSize(policy, sizeofAlloc, bufsize, Pow2(e)) == Pow2(e)
  {
    var overhead := Overhead(sizeofAlloc, Pow2(e));
    assert Pow2(e) < bufsize <= 2 * Pow2(e) && overhead >= MIN_SIZE by {
      GuessRange(sizeofAlloc, bufsize);
    }
    KeepLastUnique(bufsize - overhead, e);
    FittedAsIs(policy, sizeofAlloc, bufsize, Pow2(e));
  }

  lemma FittedAsIs(policy: Policy, sizeofAlloc: nat, bufsize: nat, pool: nat)
    requires 2 <= sizeofAlloc < MIN_SIZE && 2 * MIN_SIZE <= bufsize < WORD && pool == FirstGuess(bufsize)
    requires 0 < Overhead(sizeofAlloc, pool) <= bufsize - pool
    ensures FittedSize(policy, sizeofAlloc, bufsize, pool) == KeepLast(bufsize - Overhead(sizeofAlloc, pool))
  {
  }

  /** Buffers up to 2^31: the largest fitting pool, for either policy once it does not overbook. */
  lemma SmallPoolSize(policy: Policy, sizeofAlloc: nat, bufsize: nat)
    requires 2 <= sizeofAlloc < MIN_SIZE && 2 * MIN_SIZE <= bufsize <= INT_WORD / 2
    requires policy == Underbook || NextPow2(bufsize) <= bufsize
    ensures LargestFitting(sizeofAlloc, bufsize, PoolSize(policy, sizeofAlloc, bufsize))
  {
    var e := GuessExponent(bufsize);
    var k := Pow2(e);
    GuessRange(sizeofAlloc, bufsize);
    if bufsize - k >= Overhead(sizeofAlloc, k) {
      GuessAccepted(policy, sizeofAlloc, bufsize, e);
      assert PoolSize(policy, sizeofAlloc, bufsize) == k;
      OverheadMonotone(sizeofAlloc, k, 2 * k);
      LargestByBracket(sizeofAlloc, bufsize, e);
    } else {
      GuessRejected(policy, sizeofAlloc, bufsize, e);
      assert PoolSize(policy, sizeofAlloc, bufsize) == Pow2(e - 1);
    }
  }

  /** A candidate without room for its overhead gives way to half of it. */
  lemma GuessRejected(policy: Policy, sizeofAlloc: nat, bufsize: nat, e: nat)
    requires 2 <= sizeofAlloc < MIN_SIZE && 2 * MIN_SIZE <= bufsize <= INT_WORD / 2
    requires FirstGuess(bufsize) == Pow2(e) && bufsize - Pow2(e) < Overhead(sizeofAlloc, Pow2(e))
    ensures e >= 13 && FittedSize(policy, sizeofAlloc, bufsize, Pow2(e)) == Pow2(e - 1)
    ensures LargestFitting(sizeofAlloc, bufsize, Pow2(e - 1))
  {
    assert 2 * MIN_SIZE <= Pow2(e) < bufsize by {
      GuessRange(sizeofAlloc, bufsize);
    }
    HalvedPoolSize(policy, sizeofAlloc, e);
    assert Pow2(e) == 2 * Pow2(e - 1);
    LargestByBracket(sizeofAlloc, bufsize, e - 1);
  }

  /** A buffer that is itself a power of two gets half of itself. */
  lemma HalvedPoolSize(policy: Policy, sizeofAlloc: nat, e: nat)
    requires 2 <= sizeofAlloc < MIN_SIZE && 2 * MIN_SIZE <= Pow2(e) <= INT_WORD / 2
    ensures e >= 13 && PoolSize(policy, sizeofAlloc, Pow2(e)) == Pow2(e - 1)
    ensures Pow2(e - 1) + Overhead(sizeofAlloc, Pow2(e - 1)) <= Pow2(e)
  {
    assert Pow2(12) == MIN_SIZE;
    if e < 13 { Pow2Monotone(e, 12); }
    KeepLastUnique(Pow2(e), e);
    KeepLastUnique(Pow2(e) - 1, e - 1);
    GuessRange(sizeofAlloc, Pow2(e));
    GuessAccepted(policy, sizeofAlloc, Pow2(e), e - 1);
  }

  /** 2^e, at least 2^32, fits the buffer together with a page, but not with its overhead. */
  ghost predicate TightAt(sizeofAlloc: nat, bufsize: nat, e: nat)
    requires sizeofAlloc >= 2
  {
    e >= 32 && Pow2(e) + MIN_SIZE <= bufsize < Pow2(e) + Overhead(sizeofAlloc, Pow2(e))
  }

  ghost predicate Tight(sizeofAlloc: nat, bufsize: nat)
    requires sizeofAlloc >= 2
  {
    exists e: nat :: TightAt(sizeofAlloc, bufsize, e)
  }

  /**
    Exactly when `PoolSize` returns the largest power of two that fits with its
    overhead: always up to 2^31 bytes, never from there to 2^32, and above that
    unless the buffer is only just larger than a power of two.  There it is the
    largest power of two that fits together with one page.
   */
  lemma PoolSizeExact(sizeofAlloc: nat, bufsize: nat)
    requires 2 <= sizeofAlloc < MIN_SIZE && 2 * MIN_SIZE <= bufsize < WORD
    ensures LargestFitting(sizeofAlloc, bufsize, PoolSize(Underbook, sizeofAlloc, bufsize)) <==>
            bufsize <= INT_WORD / 2 || (bufsize > INT_WORD && !Tight(sizeofAlloc, bufsize))
    ensures bufsize > INT_WORD ==>
              var q := PoolSize(Underbook, sizeofAlloc, bufsize); IsPow2(q) && q <= bufsize - MIN_SIZE < 2 * q
  {
    GuessRange(sizeofAlloc, bufsize);
    if bufsize <= INT_WORD / 2 {
      SmallPoolSize(Underbook, sizeofAlloc, bufsize);
    } else if bufsize <= INT_WORD {
      WrappedPoolSize(sizeofAlloc, bufsize);
    } else {
      assert FittedSize(Underbook, sizeofAlloc, bufsize, 0) == KeepLast(bufsize - MIN_SIZE);
      LargePoolSize(sizeofAlloc, bufsize);
      TightExactly(sizeofAlloc, bufsize);
      KeepLastIsFloor(bufsize - MIN_SIZE);
    }
  }

  /** The power of two under the buffer less a page is the largest that could fit. */
  lemma LargePoolSize(sizeofAlloc: nat, bufsize: nat)
    requires 2 <= sizeofAlloc < MIN_SIZE && INT_WORD < bufsize < WORD
    ensures var k := KeepLast(bufsize - MIN_SIZE);
            LargestFitting(sizeofAlloc, bufsize, k) <==> bufsize - k >= Overhead(sizeofAlloc, k)
  {
    var k := KeepLast(bufsize - MIN_SIZE);
    KeepLastIsFloor(bufsize - MIN_SIZE);
    if bufsize - k >= Overhead(sizeofAlloc, k) {
      var c := Fls(bufsize - MIN_SIZE) - 1;
      assert Pow2(12) == MIN_SIZE;
      if c < 12 { Pow2Monotone(c, 12); }
      HugeOverhead(sizeofAlloc);
      OverheadMonotone(sizeofAlloc, 0, 2 * k);
      LargestByBracket(sizeofAlloc, bufsize, c);
    }
  }

  /** It does not fit if and only if the buffer is tight. */
  lemma TightExactly(sizeofAlloc: nat, bufsize: nat)
    requires 2 <= sizeofAlloc < MIN_SIZE && INT_WORD < bufsize < WORD
    ensures var k := KeepLast(bufsize - MIN_SIZE);
            bufsize - k < Overhead(sizeofAlloc, k) <==> Tight(sizeofAlloc, bufsize)
  {
    KeepLastIsFloor(bufsize - MIN_SIZE);
    if bufsize - KeepLast(bufsize - MIN_SIZE) < Overhead(sizeofAlloc, KeepLast(bufsize - MIN_SIZE)) {
      UnfitIsTight(sizeofAlloc, bufsize, Fls(bufsize - MIN_SIZE) - 1);
    }
    if e: nat :| TightAt(sizeofAlloc, bufsize, e) {
      PowerOverhead(sizeofAlloc, e);
      KeepLastUnique(bufsize - MIN_SIZE, e);
    }
  }

  lemma PowerOverhead(sizeofAlloc: nat, e: nat)
    requires 2 <= sizeofAlloc < MIN_SIZE && e >= 12
    ensures Overhead(sizeofAlloc, Pow2(e)) <= Pow2(e)
  {
    PagesOfPow2(e);
    OverheadFits(sizeofAlloc, Pow2(e - 12));
  }

  lemma UnfitIsTight(sizeofAlloc: nat, bufsize: nat, c: nat)
    requires 2 <= sizeofAlloc < MIN_SIZE && INT_WORD < bufsize
    requires Pow2(c) <= bufsize - MIN_SIZE < 2 * Pow2(c) && bufsize - Pow2(c) < Overhead(sizeofAlloc, Pow2(c))
    ensures TightAt(sizeofAlloc, bufsize, c)
  {
    Pow2At32();
    if c < 31 { Pow2Monotone(c + 1, 31); }
    PowerOverhead(sizeofAlloc, c);
  }

  /** Two pages more than 2^32 bytes are taken for a pool of 2^32, which does not fit. */
  lemma TightPoolSize(sizeofAlloc: nat, bufsize: nat)
    requires 2 <= sizeofAlloc < MIN_SIZE && bufsize == INT_WORD + 2 * MIN_SIZE
    ensures PoolSize(Underbook, sizeofAlloc, bufsize) == INT_WORD
    ensures !LargestFitting(sizeofAlloc, bufsize, INT_WORD)
  {
    GuessRange(sizeofAlloc, bufsize);
    Pow2At32();
    KeepLastUnique(bufsize - MIN_SIZE, 32);
    assert FittedSize(Underbook, sizeofAlloc, bufsize, 0) == KeepLast(bufsize - MIN_SIZE);
    RoundToIsCeiling(MIN_SIZE, sizeofAlloc + NodesFor(INT_WORD));
  }

  /** Between 2^31 and 2^32 the candidate turns negative and half the address space comes out. */
  lemma WrappedPoolSize(sizeofAlloc: nat, bufsize: nat)
    requires 2 <= sizeofAlloc < MIN_SIZE && INT_WORD / 2 < bufsize <= INT_WORD
    ensures PoolSize(Underbook, sizeofAlloc, bufsize) == WORD / 2
  {
    GuessRange(sizeofAlloc, bufsize);
    var again := WORD - INT_WORD / 2;
    GuessRange(sizeofAlloc, again);
    assert FittedSize(Underbook, sizeofAlloc, bufsize, again) == FittedSize(Underbook, sizeofAlloc, again, 0);
    Pow2At63();
    KeepLastUnique(again - MIN_SIZE, 63);
  }

  /**
    Overbooking takes the next power of two above the buffer, where there is
    one.  A buffer that is a power of two gets half of itself, but one of 2^32
    bytes half the address space; above half of that, it is as underbooking.
   */
  lemma OverbookedPoolSize(sizeofAlloc: nat, bufsize: nat)
    requires 2 <= sizeofAlloc < MIN_SIZE && 2 * MIN_SIZE <= bufsize < WORD
    ensures var q := PoolSize(Overbook, sizeofAlloc, bufsize);
            && (bufsize <= WORD / 2 && !IsPow2(bufsize) ==> IsPow2(q) && q / 2 < bufsize < q)
            && (IsPow2(bufsize) && bufsize != INT_WORD ==> q == bufsize / 2)
            && (bufsize == INT_WORD ==> q == WORD / 2)
            && (bufsize > WORD / 2 ==> q == PoolSize(Underbook, sizeofAlloc, bufsize))
  {
    if IsPow2(bufsize) {
      var e: nat :| bufsize == Pow2(e);
      OverbookedPow2(sizeofAlloc, e);
    }
    if bufsize <= WORD / 2 {
      if !IsPow2(bufsize) { NextAbove(bufsize); }
    } else {
      OverbookedBeyondHalf(sizeofAlloc, bufsize);
    }
    Pow2At32();
  }

  lemma NextAbove(bufsize: nat)
    requires 0 < bufsize <= WORD / 2 && !IsPow2(bufsize)
    ensures var q := NextPow2(bufsize); IsPow2(q) && q / 2 < bufsize < q
  {
    NextPow2IsCeiling(bufsize);
    KeepLastIsFloor(bufsize);
  }

  lemma OverbookedBeyondHalf(sizeofAlloc: nat, bufsize: nat)
    requires 2 <= sizeofAlloc < MIN_SIZE && WORD / 2 < bufsize < WORD
    ensures PoolSize(Overbook, sizeofAlloc, bufsize) == PoolSize(Underbook, sizeofAlloc, bufsize)
  {
    NextPow2IsCeiling(bufsize);
    GuessRange(sizeofAlloc, bufsize);
  }

  lemma OverbookedPow2(sizeofAlloc: nat, e: nat)
    requires 2 <= sizeofAlloc < MIN_SIZE && 2 * MIN_SIZE <= Pow2(e) < WORD
    ensures PoolSize(Overbook, sizeofAlloc, Pow2(e)) == if Pow2(e) == INT_WORD then WORD / 2 else Pow2(e) / 2
  {
    if Pow2(e) <= INT_WORD / 2 {
      HalvedPoolSize(Overbook, sizeofAlloc, e);
    } else {
      KeepLastUnique(Pow2(e), e);
      GuessRange(sizeofAlloc, Pow2(e));
      Pow2At32();
      if e < 32 { Pow2Monotone(e, 31); }
      if e == 32 {
        WrappedGuess(sizeofAlloc);
      } else {
        Pow2Monotone(33, e);
        KeepLastUnique(Pow2(e) - MIN_SIZE, e - 1);
      }
    }
  }

  lemma WrappedGuess(sizeofAlloc: nat)
    requires 2 <= sizeofAlloc < MIN_SIZE
    ensures PoolSize(Overbook, sizeofAlloc, WORD - INT_WORD / 2) == WORD / 2
  {
    var again := WORD - INT_WORD / 2;
    NextPow2IsCeiling(again);
    GuessRange(sizeofAlloc, again);
    Pow2At63();
    KeepLastUnique(again - MIN_SIZE, 63);
  }
}
