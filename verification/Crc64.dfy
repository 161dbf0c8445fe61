/**
  The CRC-64 of api/util/crc64.hpp: its lookup tables, the step that takes
  eight bytes at a time, and what the checksum computes. A 64-bit word is its
  list of bits, the lowest first.
 */
module Crc64 {
  import opened Bytes

  const WIDTH := 64

  type word = w: seq<bool> | |w| == 64 witness seq(64, _ => false)

  // ---- words ----

  function Xor(a: word, b: word): (r: word)
    ensures forall i {:trigger r[i]} :: 0 <= i < WIDTH ==> r[i] == (a[i] != b[i])
  {
    seq(WIDTH, i requires 0 <= i < WIDTH => a[i] != b[i])
  }

  function Not(a: word): (r: word)
    ensures forall i {:trigger r[i]} :: 0 <= i < WIDTH ==> r[i] == !a[i]
  {
    seq(WIDTH, i requires 0 <= i < WIDTH => !a[i])
  }

  function Shr(a: word, n: nat): (r: word)
    ensures forall i {:trigger r[i]} :: 0 <= i < WIDTH ==> r[i] == (i + n < WIDTH && a[i + n])
  {
    seq(WIDTH, i requires 0 <= i < WIDTH => i + n < WIDTH && a[i + n])
  }

  /** The bits from one position to another, others cleared. */
  function Part(a: word, lo: nat, hi: nat): (r: word)
    ensures forall i {:trigger r[i]} :: 0 <= i < WIDTH ==> r[i] == (lo <= i < hi && a[i])
  {
    seq(WIDTH, i requires 0 <= i < WIDTH => lo <= i < hi && a[i])
  }

  /** One bit of polynomial division. */
  function BitStep(poly: word, c: word): (r: word)
    ensures forall i {:trigger r[i]} :: 0 <= i < WIDTH ==> r[i] == ((i + 1 < WIDTH && c[i + 1]) != (c[0] && poly[i]))
  {
    if c[0] then Xor(Shr(c, 1), poly) else Shr(c, 1)
  }

  function Bits(poly: word, c: word, n: nat): word
    decreases poly, n
  {
    if n == 0 then c else BitStep(poly, Bits(poly, c, n - 1))
  }

  /** Division is linear over exclusive or. */
  lemma {:induction false} BitsLinear(poly: word, a: word, b: word, n: nat)
    ensures Bits(poly, Xor(a, b), n) == Xor(Bits(poly, a, n), Bits(poly, b, n))
    decreases n
  {
    if n == 0 {
    } else {
      BitsLinear(poly, a, b, n - 1);
      StepLinear(poly, Bits(poly, a, n - 1), Bits(poly, b, n - 1));
    }
  }

  lemma StepLinear(poly: word, a: word, b: word)
    ensures BitStep(poly, Xor(a, b)) == Xor(BitStep(poly, a), BitStep(poly, b))
  {
  }

  lemma {:induction false} BitsAdd(poly: word, c: word, m: nat, n: nat)
    ensures Bits(poly, Bits(poly, c, m), n) == Bits(poly, c, m + n)
    decreases n
  {
    if n == 0 {
    } else {
      BitsAdd(poly, c, m, n - 1);
    }
  }

  /** Dividing away zero bits only shifts. */
  lemma {:induction false} ZeroBits(poly: word, c: word, n: nat)
    requires forall i :: 0 <= i < n && i < WIDTH ==> !c[i]
    ensures Bits(poly, c, n) == Shr(c, n)
    decreases n
  {
    if n > 0 {
      ZeroBits(poly, c, n - 1);
      assert BitStep(poly, Shr(c, n - 1)) == Shr(c, n);
    } else {
      assert Shr(c, 0) == c;
    }
  }

  /** With the polynomial's top bit set, division forgets nothing. */
  lemma StepInjective(poly: word, a: word, b: word)
    requires poly[63] && BitStep(poly, a) == BitStep(poly, b)
    ensures a == b
  {
    assert BitStep(poly, a)[63] == a[0] && BitStep(poly, b)[63] == b[0];
    forall i | 0 <= i < WIDTH
      ensures a[i] == b[i]
    {
      if i > 0 {
        assert BitStep(poly, a)[i - 1] == BitStep(poly, b)[i - 1];
      }
    }
  }

  lemma {:induction false} BitsInjective(poly: word, a: word, b: word, n: nat)
    requires poly[63] && Bits(poly, a, n) == Bits(poly, b, n)
    ensures a == b
    decreases n
  {
    if n == 0 {
    } else {
      StepInjective(poly, Bits(poly, a, n - 1), Bits(poly, b, n - 1));
      BitsInjective(poly, a, b, n - 1);
    }
  }

  // ---- bytes ----

  function Digits(n: nat, k: nat): (s: seq<bool>)
    ensures |s| == k
    decreases n, k
  {
    if k == 0 then [] else [n % 2 == 1] + Digits(n / 2, k - 1)
  }

  function Value(s: seq<bool>): nat {
    if s == [] then 0 else (if s[0] then 1 else 0) + 2 * Value(s[1..])
  }

  lemma {:induction false} DigitsOfValue(s: seq<bool>)
    ensures Digits(Value(s), |s|) == s
    decreases |s|
  {
    if s == [] {
    } else {
      DigitsOfValue(s[1..]);
      assert Value(s) / 2 == Value(s[1..]);
    }
  }

  lemma ValueBound(s: seq<bool>)
    requires |s| == 8
    ensures Value(s) < 256
  {
    var s1 := s[1..];
    var s2 := s1[1..];
    var s3 := s2[1..];
    var s4 := s3[1..];
    var s5 := s4[1..];
    var s6 := s5[1..];
    var s7 := s6[1..];
    assert Value(s7) == (if s7[0] then 1 else 0) + 2 * Value(s7[1..]) && Value(s7[1..]) == 0;
  }

  function FromByte(b: nat): (w: word)
    ensures w[..8] == Digits(b, 8)
    ensures forall i {:trigger w[i]} :: 8 <= i < WIDTH ==> !w[i]
  {
    Digits(b, 8) + seq(56, _ => false)
  }

  /** The k-th byte of a word, lowest first. */
  function ByteOf(c: word, k: nat): (b: nat)
    requires k < 8
    ensures b < 256
  {
    ValueBound(c[8 * k..8 * k + 8]);
    Value(c[8 * k..8 * k + 8])
  }

  lemma ByteIsPart(c: word, k: nat)
    requires k < 8
    ensures FromByte(ByteOf(c, k)) == Shr(Part(c, 8 * k, 8 * k + 8), 8 * k)
  {
    var s := c[8 * k..8 * k + 8];
    DigitsOfValue(s);
    var a, b := FromByte(ByteOf(c, k)), Shr(Part(c, 8 * k, 8 * k + 8), 8 * k);
    forall i | 0 <= i < WIDTH
      ensures a[i] == b[i]
    {
      if i < 8 {
        assert a[i] == a[..8][i] == s[i] == c[8 * k + i];
      }
    }
  }

  // ---- tables ----

  /** Entry i of table j is the byte i divided by 8 * (j + 1) bits. */
  ghost function Entry(poly: word, j: nat, i: nat): word {
    Bits(poly, FromByte(i), 8 * (j + 1))
  }

  ghost predicate TablesOk(poly: word, t: array2<word>)
    reads t
  {
    t.Length0 == 8 && t.Length1 == 256 && forall j, i :: 0 <= j < 8 && 0 <= i < 256 ==> t[j, i] == Entry(poly, j, i)
  }

  method GetInitTable(poly: word) returns (t: seq<word>)
    ensures |t| == 256 && forall i {:trigger t[i]} :: 0 <= i < 256 ==> t[i] == Entry(poly, 0, i)
  {
    t := [];
    for i := 0 to 256
      invariant |t| == i && forall k {:trigger t[k]} :: 0 <= k < i ==> t[k] == Entry(poly, 0, k)
    {
      var crc := FromByte(i);
      for j := 0 to 8
        invariant crc == Bits(poly, FromByte(i), j)
      {
        crc := BitStep(poly, crc);
      }
      t := t + [crc];
    }
  }

  /** The exclusive or of a low and a high part. */
  lemma SplitWord(c: word)
    ensures Xor(Part(c, 0, 8), Part(c, 8, 64)) == c
  {
  }

  /** Looking up the low byte and shifting divides by eight bits. */
  lemma ByteLookup(poly: word, c: word)
    ensures Xor(Bits(poly, FromByte(ByteOf(c, 0)), 8), Shr(c, 8)) == Bits(poly, c, 8)
  {
    var lo, hi := Part(c, 0, 8), Part(c, 8, 64);
    SplitWord(c);
    BitsLinear(poly, lo, hi, 8);
    ZeroBits(poly, hi, 8);
    ByteIsPart(c, 0);
    assert Shr(hi, 8) == Shr(c, 8) && Shr(lo, 0) == lo;
  }

  lemma NextEntry(poly: word, j: nat, i: nat, acc: word, b: nat)
    requires acc == Entry(poly, j, i) && b == ByteOf(acc, 0)
    ensures Xor(Entry(poly, 0, b), Shr(acc, 8)) == Entry(poly, j + 1, i)
  {
    assert Xor(Bits(poly, FromByte(b), 8), Shr(acc, 8)) == Bits(poly, acc, 8) by {
      ByteLookup(poly, acc);
    }
    assert Bits(poly, acc, 8) == Entry(poly, j + 1, i) by {
      BitsAdd(poly, FromByte(i), 8 * (j + 1), 8);
    }
  }

  method GetTable(poly: word) returns (t: array2<word>)
    ensures fresh(t) && TablesOk(poly, t)
  {
    var itable := GetInitTable(poly);
    t := new word[8, 256];
    forall i | 0 <= i < 256 {
      t[0, i] := itable[i];
    }
    for i := 0 to 256
      invariant forall k :: 0 <= k < 256 ==> t[0, k] == Entry(poly, 0, k)
      invariant forall j, k :: 0 <= j < 8 && 0 <= k < i ==> t[j, k] == Entry(poly, j, k)
    {
      FillColumn(poly, t, itable, i);
    }
  }

  /** The entries for one byte in the tables after the first. */
  method FillColumn(ghost poly: word, t: array2<word>, itable: seq<word>, i: nat)
    requires t.Length0 == 8 && t.Length1 == 256 && i < 256 && t[0, i] == Entry(poly, 0, i)
    requires |itable| == 256 && forall k {:trigger itable[k]} :: 0 <= k < 256 ==> itable[k] == Entry(poly, 0, k)
    modifies t
    ensures forall j :: 0 <= j < 8 ==> t[j, i] == Entry(poly, j, i)
    ensures forall j, k :: 0 <= j < 8 && 0 <= k < 256 && k != i ==> t[j, k] == old(t[j, k])
  {
    var acc := itable[i];
    for j := 1 to 8
      invariant acc == Entry(poly, j - 1, i)
      invariant forall l :: 0 <= l < j ==> t[l, i] == Entry(poly, l, i)
      invariant forall l, k :: 0 <= l < 8 && 0 <= k < 256 && k != i ==> t[l, k] == old(t[l, k])
    {
      NextEntry(poly, j - 1, i, acc, ByteOf(acc, 0));
      acc := Xor(itable[ByteOf(acc, 0)], Shr(acc, 8));
      t[j, i] := acc;
    }
  }

  // ---- eight bytes at a time ----

  /** The tables' entries for the first k bytes of a word, combined. */
  ghost function Combined(poly: word, c: word, k: nat): word
    requires k <= 8
  {
    if k == 0 then Part(c, 0, 0)
      else Xor(Combined(poly, c, k - 1), Bits(poly, FromByte(ByteOf(c, k - 1)), 64 - 8 * (k - 1)))
  }

  lemma PartDivided(poly: word, c: word, k: nat)
    requires k < 8
    ensures Bits(poly, Part(c, 8 * k, 8 * k + 8), 64) == Bits(poly, FromByte(ByteOf(c, k)), 64 - 8 * k)
  {
    var part := Part(c, 8 * k, 8 * k + 8);
    ZeroBits(poly, part, 8 * k);
    ByteIsPart(c, k);
    BitsAdd(poly, part, 8 * k, 64 - 8 * k);
  }

  lemma ZeroDivided(poly: word, n: nat, z: word)
    requires forall i :: 0 <= i < WIDTH ==> !z[i]
    ensures Bits(poly, z, n) == z
  {
    ZeroBits(poly, z, n);
    assert Shr(z, n) == z;
  }

  lemma {:induction false} CombinedIs(poly: word, c: word, k: nat)
    requires k <= 8
    ensures Combined(poly, c, k) == Bits(poly, Part(c, 0, 8 * k), 64)
    decreases k
  {
    if k == 0 {
      ZeroDivided(poly, 64, Part(c, 0, 0));
    } else {
      CombinedIs(poly, c, k - 1);
      PartDivided(poly, c, k - 1);
      var low, part := Part(c, 0, 8 * (k - 1)), Part(c, 8 * (k - 1), 8 * k);
      assert Xor(low, part) == Part(c, 0, 8 * k);
      BitsLinear(poly, low, part, 64);
    }
  }

  /** Looking up the eight bytes of a word in the eight tables divides it by 64 bits. */
  lemma SlicingStep(poly: word, c: word)
    ensures Combined(poly, c, 8) == Bits(poly, c, 64)
  {
    CombinedIs(poly, c, 8);
    assert Part(c, 0, 64) == c;
  }

  // ---- messages ----

  /** The remainder after a message, bit by bit: what every step here has to agree with. */
  function Feed(poly: word, acc: word, data: seq<byte>): word
    decreases |data|
  {
    if data == [] then acc else Feed(poly, Bits(poly, Xor(acc, FromByte(data[0])), 8), data[1..])
  }

  function Crc(poly: word, seed: word, data: seq<byte>): word {
    Not(Feed(poly, Not(seed), data))
  }

  /** Up to eight bytes as a word, the first lowest. */
  ghost function WordOf(data: seq<byte>): (w: word)
    requires |data| <= 8
    ensures forall i {:trigger w[i]} :: 0 <= i < WIDTH ==> w[i] == (i < 8 * |data| && Digits(data[i / 8], 8)[i % 8])
  {
    seq(WIDTH, i requires 0 <= i < WIDTH => i < 8 * |data| && Digits(data[i / 8], 8)[i % 8])
  }

  lemma WordParts(data: seq<byte>)
    requires 0 < |data| <= 8
    ensures Part(WordOf(data), 0, 8) == FromByte(data[0])
    ensures Shr(Part(WordOf(data), 8, 64), 8) == WordOf(data[1..])
  {
    var w, f := WordOf(data), FromByte(data[0]);
    forall i | 0 <= i < WIDTH
      ensures Part(w, 0, 8)[i] == f[i]
    {
      if i < 8 {
        assert f[i] == f[..8][i];
      }
    }
  }

  lemma XorAssociates(a: word, b: word, c: word)
    ensures Xor(a, Xor(b, c)) == Xor(Xor(a, b), c)
  {
  }

  /** Dividing a whole word at once is feeding its bytes one by one. */
  lemma {:induction false} WordFeed(poly: word, acc: word, data: seq<byte>)
    requires |data| <= 8
    ensures Bits(poly, Xor(acc, WordOf(data)), 8 * |data|) == Feed(poly, acc, data)
    decreases |data|
  {
    if data == [] {
      assert Xor(acc, WordOf(data)) == acc;
    } else {
      var n, x, y := 8 * (|data| - 1), Xor(acc, WordOf(data)), Bits(poly, Xor(acc, FromByte(data[0])), 8);
      assert Bits(poly, x, 8 * |data|) == Bits(poly, Bits(poly, x, 8), n) by {
        BitsAdd(poly, x, 8, n);
      }
      assert Bits(poly, x, 8) == Xor(y, WordOf(data[1..])) by {
        FirstByteFed(poly, acc, data);
      }
      WordFeed(poly, y, data[1..]);
      assert Feed(poly, acc, data) == Feed(poly, y, data[1..]);
    }
  }

  /** Dividing by eight bits uses up the first byte and moves the others down. */
  lemma FirstByteFed(poly: word, acc: word, data: seq<byte>)
    requires 1 <= |data| <= 8
    ensures Bits(poly, Xor(acc, WordOf(data)), 8) ==
            Xor(Bits(poly, Xor(acc, FromByte(data[0])), 8), WordOf(data[1..]))
  {
    var w := WordOf(data);
    var first, rest := FromByte(data[0]), Part(w, 8, 64);
    WordParts(data);
    SplitWord(w);
    XorAssociates(acc, first, rest);
    BitsLinear(poly, Xor(acc, first), rest, 8);
    ZeroBits(poly, rest, 8);
  }

  // ---- bytes as the source reads them ----

  /** A char widened to 64 bits: its sign bit fills the upper bytes. */
  function Widened(b: byte): (w: word)
    ensures forall i {:trigger w[i]} :: 0 <= i < WIDTH ==> w[i] == if i < 8 then Digits(b, 8)[i] else b >= 0x80
  {
    Digits(b, 8) + seq(56, _ => b >= 0x80)
  }

  function ShiftedOr(a: word, b: word, n: nat): (r: word)
    ensures forall i {:trigger r[i]} :: 0 <= i < WIDTH ==> r[i] == (a[i] || (i >= n && b[i - n]))
  {
    seq(WIDTH, i requires 0 <= i < WIDTH => a[i] || (i >= n && b[i - n]))
  }

  /** The first k widened chars, each shifted to its place, or-ed together. */
  function Gathered(data: seq<byte>, k: nat): word
    requires k <= |data| && k <= 8
  {
    if k == 0 then seq(WIDTH, _ => false) else ShiftedOr(Gathered(data, k - 1), Widened(data[k - 1]), 8 * (k - 1))
  }

  /** Some char before the k-th has its sign bit set and lies below bit i. */
  ghost predicate SignBelow(data: seq<byte>, k: nat, i: nat)
    requires k <= |data|
  {
    exists j :: 0 <= j < k && 8 * j + 8 <= i && data[j] >= 0x80
  }

  lemma SignStep(data: seq<byte>, k: nat, i: nat)
    requires 0 < k <= |data|
    ensures SignBelow(data, k, i) <==> SignBelow(data, k - 1, i) || (8 * (k - 1) + 8 <= i && data[k - 1] >= 0x80)
  {
  }

  /** A char with its sign bit set sets every bit above its own byte. */
  lemma {:induction false} GatheredAt(data: seq<byte>, k: nat, i: nat)
    requires k <= |data| && k <= 8 && i < WIDTH
    ensures Gathered(data, k)[i] <==> (i < 8 * k && Digits(data[i / 8], 8)[i % 8]) || SignBelow(data, k, i)
    decreases k
  {
    if k == 0 {
    } else {
      GatheredAt(data, k - 1, i);
      SignStep(data, k, i);
      var n := 8 * (k - 1);
      assert n <= i < n + 8 ==> i / 8 == k - 1 && i % 8 == i - n;
    }
  }

  /** After a char with its sign bit set, every further one is all ones. */
  ghost predicate SignsHarmless(data: seq<byte>) {
    forall j, k :: 0 <= j < k < |data| && data[j] >= 0x80 ==> data[k] == 0xFF
  }

  ghost function Ones(k: nat): nat {
    if k == 0 then 0 else 2 * Ones(k - 1) + 1
  }

  ghost predicate AllSet(s: seq<bool>) {
    forall t :: 0 <= t < |s| ==> s[t]
  }

  lemma {:induction false} AllOnes(n: nat, k: nat)
    requires n <= Ones(k)
    ensures AllSet(Digits(n, k)) <==> n == Ones(k)
    decreases k
  {
    if k == 0 {
    } else {
      AllOnes(n / 2, k - 1);
      var d, rest := Digits(n, k), Digits(n / 2, k - 1);
      assert d == [n % 2 == 1] + rest;
      if AllSet(d) {
        assert d[0];
        assert forall t :: 0 <= t < |rest| ==> rest[t] == d[t + 1];
      }
    }
  }

  lemma ByteOnes(b: byte)
    ensures AllSet(Digits(b, 8)) <==> b == 0xFF
  {
    assert Ones(4) == 15 && Ones(8) == 255;
    AllOnes(b, 8);
  }

  lemma HarmlessGathered(data: seq<byte>)
    requires |data| == 8 && SignsHarmless(data)
    ensures Gathered(data, 8) == WordOf(data)
  {
    var g, w := Gathered(data, 8), WordOf(data);
    forall i | 0 <= i < WIDTH
      ensures g[i] == w[i]
    {
      GatheredAt(data, 8, i);
      ByteOnes(data[i / 8]);
    }
  }

  lemma HarmlessBit(data: seq<byte>, j: nat, k: nat, t: nat)
    requires |data| == 8 && Gathered(data, 8) == WordOf(data) && j < k < 8 && data[j] >= 0x80 && t < 8
    ensures Digits(data[k], 8)[t]
  {
    var i := 8 * k + t;
    assert i / 8 == k && i % 8 == t && 8 * j + 8 <= i;
    GatheredAt(data, 8, i);
    assert WordOf(data)[i];
  }

  lemma GatheredHarmless(data: seq<byte>, j: nat, k: nat)
    requires |data| == 8 && Gathered(data, 8) == WordOf(data) && j < k < 8 && data[j] >= 0x80
    ensures data[k] == 0xFF
  {
    forall t | 0 <= t < 8
      ensures Digits(data[k], 8)[t]
    {
      HarmlessBit(data, j, k, t);
    }
    ByteOnes(data[k]);
  }

  /** The eight chars make the word of their bytes if and only if no sign bit spoils it. */
  lemma GatheredIsWord(data: seq<byte>)
    requires |data| == 8
    ensures Gathered(data, 8) == WordOf(data) <==> SignsHarmless(data)
  {
    if SignsHarmless(data) {
      HarmlessGathered(data);
    } else if Gathered(data, 8) == WordOf(data) {
      forall j: nat, k: nat | j < k < 8 && data[j] >= 0x80
        ensures data[k] == 0xFF
      {
        GatheredHarmless(data, j, k);
      }
    }
  }

  lemma XorInjective(a: word, b: word, c: word)
    requires Xor(a, b) == Xor(a, c)
    ensures b == c
  {
    forall i | 0 <= i < WIDTH
      ensures b[i] == c[i]
    {
      assert Xor(a, b)[i] == Xor(a, c)[i];
    }
  }

  /**
    One turn of the block loop is eight byte steps, and so 64 single-bit
    steps, if and only if no char's sign bit spoils the word.
   */
  lemma BlockExact(poly: word, acc: word, data: seq<byte>)
    requires |data| == 8 && poly[63]
    ensures Bits(poly, Xor(acc, Gathered(data, 8)), 64) == Feed(poly, acc, data) <==> SignsHarmless(data)
  {
    WordFeed(poly, acc, data);
    GatheredIsWord(data);
    var c, c' := Xor(acc, Gathered(data, 8)), Xor(acc, WordOf(data));
    if Bits(poly, c, 64) == Bits(poly, c', 64) {
      BitsInjective(poly, c, c', 64);
      XorInjective(acc, Gathered(data, 8), WordOf(data));
    }
  }

  /** One char of 0x80 before zeros makes the block step wrong. */
  lemma SignSpoilsBlock(poly: word, acc: word, data: seq<byte>)
    requires poly[63] && data == [0x80, 0, 0, 0, 0, 0, 0, 0]
    ensures Bits(poly, Xor(acc, Gathered(data, 8)), 64) != Feed(poly, acc, data)
  {
    BlockExact(poly, acc, data);
    assert data[0] >= 0x80 && data[1] != 0xFF;
  }

  ghost predicate SignBefore(data: seq<byte>, k: nat)
    requires k <= |data|
  {
    exists j :: 0 <= j < k && data[j] >= 0x80
  }

  /** The bytes as the source takes them: after one of at least 0x80 every further one counts as 0xFF. */
  ghost function Spread(data: seq<byte>): (r: seq<byte>)
    ensures |r| == |data|
    ensures forall k {:trigger r[k]} :: 0 <= k < |data| ==> r[k] == if SignBefore(data, k) then 0xFF else data[k]
  {
    seq(|data|, k requires 0 <= k < |data| => if SignBefore(data, k) then 0xFF else data[k])
  }

  lemma SpreadWord(data: seq<byte>)
    requires |data| == 8
    ensures Gathered(data, 8) == WordOf(Spread(data))
  {
    var g, w := Gathered(data, 8), WordOf(Spread(data));
    forall i | 0 <= i < WIDTH
      ensures g[i] == w[i]
    {
      SpreadBit(data, i / 8, i);
    }
  }

  lemma SpreadBit(data: seq<byte>, k: nat, i: nat)
    requires |data| == 8 && i < WIDTH && k == i / 8
    ensures Gathered(data, 8)[i] == WordOf(Spread(data))[i]
  {
    GatheredAt(data, 8, i);
    ByteOnes(0xFF);
    assert SignBelow(data, 8, i) <==> SignBefore(data, k);
  }

  /** A block step is eight byte steps over the bytes as the source takes them, whatever the polynomial. */
  lemma BlockIs(poly: word, acc: word, data: seq<byte>)
    requires |data| == 8
    ensures Bits(poly, Xor(acc, Gathered(data, 8)), 64) == Feed(poly, acc, Spread(data))
  {
    SpreadWord(data);
    WordFeed(poly, acc, Spread(data));
  }

  /** So for bytes below 0x80 it is right. */
  lemma PlainBlock(poly: word, acc: word, data: seq<byte>)
    requires |data| == 8 && forall i :: 0 <= i < 8 ==> data[i] < 0x80
    ensures Bits(poly, Xor(acc, Gathered(data, 8)), 64) == Feed(poly, acc, data)
  {
    BlockIs(poly, acc, data);
    assert Spread(data) == data;
  }

  // ---- the checksum ----

  method Block(ghost poly: word, t: array2<word>, acc: word, data: seq<byte>) returns (r: word)
    requires TablesOk(poly, t) && |data| == 8
    ensures r == Bits(poly, Xor(acc, Gathered(data, 8)), 64)
  {
    var c := Xor(acc, Gathered(data, 8));
    r := t[7, ByteOf(c, 0)];
    assert r == Combined(poly, c, 1);
    r := Xor(r, t[6, ByteOf(c, 1)]);
    assert r == Combined(poly, c, 2);
    r := Xor(r, t[5, ByteOf(c, 2)]);
    assert r == Combined(poly, c, 3);
    r := Xor(r, t[4, ByteOf(c, 3)]);
    assert r == Combined(poly, c, 4);
    r := Xor(r, t[3, ByteOf(c, 4)]);
    assert r == Combined(poly, c, 5);
    r := Xor(r, t[2, ByteOf(c, 5)]);
    assert r == Combined(poly, c, 6);
    r := Xor(r, t[1, ByteOf(c, 6)]);
    assert r == Combined(poly, c, 7);
    r := Xor(r, t[0, ByteOf(c, 7)]);
    assert r == Combined(poly, c, 8);
    SlicingStep(poly, c);
  }

  method ByteStep(ghost poly: word, t: array2<word>, acc: word, b: byte) returns (r: word)
    requires TablesOk(poly, t) && b < 0x80
    ensures r == Bits(poly, Xor(acc, FromByte(b)), 8)
  {
    var c := Xor(acc, FromByte(b));
    r := Xor(t[0, ByteOf(c, 0)], Shr(acc, 8));
    ByteLookup(poly, c);
    assert Shr(acc, 8) == Shr(c, 8);
  }

  /** What is left for the byte loop once the block loop has counted a length down. */
  function TailLen(n: nat): (r: nat)
    ensures r <= 8 && r <= n
  {
    if n > 8 then TailLen(n - 8) else n
  }

  /** The remainder the source computes: each turn of its block loop reads the same first eight chars. */
  function Digest(poly: word, acc: word, data: seq<byte>, n: nat): word
    requires n <= |data|
    decreases n
  {
    if n > 8 then Digest(poly, Bits(poly, Xor(acc, Gathered(data[..8], 8)), 64), data, n - 8)
    else Feed(poly, acc, data[..n])
  }

  lemma {:induction false} FeedSnoc(poly: word, acc: word, data: seq<byte>, k: nat)
    requires k < |data|
    ensures Feed(poly, acc, data[..k + 1]) == Bits(poly, Xor(Feed(poly, acc, data[..k]), FromByte(data[k])), 8)
  {
    FeedConcat(poly, acc, data[..k], [data[k]]);
    assert data[..k + 1] == data[..k] + [data[k]];
  }

  lemma {:induction false} FeedConcat(poly: word, acc: word, a: seq<byte>, b: seq<byte>)
    ensures Feed(poly, acc, a + b) == Feed(poly, Feed(poly, acc, a), b)
    decreases |a|
  {
    if a == [] {
      assert a + b == b;
    } else {
      FeedConcat(poly, Bits(poly, Xor(acc, FromByte(a[0])), 8), a[1..], b);
      assert (a + b)[1..] == a[1..] + b;
    }
  }

  /** The byte loop indexes its table with a signed char, so its chars must be below 0x80. */
  method Checksum(poly: word, seed: word, data: seq<byte>) returns (r: word)
    requires forall i :: 0 <= i < TailLen(|data|) ==> data[i] < 0x80
    ensures r == Not(Digest(poly, Not(seed), data, |data|))
  {
    var t := GetTable(poly);
    var acc, len := Not(seed), |data|;
    while len > 8
      invariant 0 <= len <= |data| && TailLen(len) == TailLen(|data|) && TablesOk(poly, t)
      invariant Digest(poly, acc, data, len) == Digest(poly, Not(seed), data, |data|)
    {
      acc := Block(poly, t, acc, data[..8]);
      len := len - 8;
    }
    ghost var start := acc;
    for i := 0 to len
      invariant acc == Feed(poly, start, data[..i]) && TablesOk(poly, t)
    {
      FeedSnoc(poly, start, data, i);
      acc := ByteStep(poly, t, acc, data[i]);
    }
    r := Not(acc);
  }

  // ---- for which lengths it is the CRC ----

  ghost predicate Plain(data: seq<byte>) {
    forall i :: 0 <= i < |data| ==> data[i] < 0x80
  }

  lemma {:induction false} FeedInjective(poly: word, a: word, b: word, data: seq<byte>)
    requires poly[63] && Feed(poly, a, data) == Feed(poly, b, data)
    ensures a == b
    decreases |data|
  {
    if data == [] {
    } else {
      var f := FromByte(data[0]);
      FeedInjective(poly, Bits(poly, Xor(a, f), 8), Bits(poly, Xor(b, f), 8), data[1..]);
      BitsInjective(poly, Xor(a, f), Xor(b, f), 8);
      assert Xor(f, a) == Xor(a, f) && Xor(f, b) == Xor(b, f);
      XorInjective(f, a, b);
    }
  }

  /** Messages that differ in one byte have different remainders. */
  lemma OneByteTells(poly: word, acc: word, a: seq<byte>, x: byte, y: byte, b: seq<byte>)
    requires poly[63] && FromByte(x) != FromByte(y)
    ensures Feed(poly, acc, a + [x] + b) != Feed(poly, acc, a + [y] + b)
  {
    var mid := Feed(poly, acc, a);
    FeedConcat(poly, acc, a + [x], b);
    FeedConcat(poly, acc, a + [y], b);
    FeedConcat(poly, acc, a, [x]);
    FeedConcat(poly, acc, a, [y]);
    var u, v := Feed(poly, mid, [x]), Feed(poly, mid, [y]);
    if Feed(poly, u, b) == Feed(poly, v, b) {
      FeedInjective(poly, u, v, b);
      BitsInjective(poly, Xor(mid, FromByte(x)), Xor(mid, FromByte(y)), 8);
      XorInjective(mid, FromByte(x), FromByte(y));
    }
  }

  function Zeros(n: nat): (z: seq<byte>)
    ensures |z| == n && forall i :: 0 <= i < n ==> z[i] == 0
  {
    seq(n, _ => 0)
  }

  lemma {:induction false} ZerosDigest(poly: word, acc: word, data: seq<byte>, n: nat)
    requires 8 <= |data| && n <= |data| && data[..8] == Zeros(8)
    ensures Digest(poly, acc, data, n) == Feed(poly, acc, Zeros(n))
    decreases n
  {
    if n > 8 {
      PlainBlock(poly, acc, Zeros(8));
      ZerosDigest(poly, Feed(poly, acc, Zeros(8)), data, n - 8);
      FeedConcat(poly, acc, Zeros(8), Zeros(n - 8));
      assert Zeros(8) + Zeros(n - 8) == Zeros(n);
    } else {
      assert data[..n] == data[..8][..n] == Zeros(n);
    }
  }

  // ---- what it is the CRC of ----

  /** Turns of the block loop for a length. */
  function Turns(n: nat): nat {
    if n == 0 then 0 else (n - 1) / 8
  }

  function Repeated(block: seq<byte>, k: nat): (r: seq<byte>)
    ensures |r| == |block| * k
  {
    if k == 0 then [] else block + Repeated(block, k - 1)
  }

  lemma TurnsCount(n: nat)
    ensures n > 8 ==> Turns(n) == Turns(n - 8) + 1
    ensures n <= 8 ==> Turns(n) == 0
    ensures TailLen(n) == n - 8 * Turns(n)
    decreases n
  {
    if n > 8 {
      TurnsCount(n - 8);
    }
  }

  /** The source reads the first eight bytes over and over, and then the first few once more. */
  lemma {:induction false} DigestRepeats(poly: word, acc: word, data: seq<byte>, block: seq<byte>, n: nat)
    requires n <= |data| && (n > 8 ==> block == Spread(data[..8]))
    ensures Digest(poly, acc, data, n) == Feed(poly, acc, Repeated(block, Turns(n)) + data[..TailLen(n)])
    decreases n
  {
    TurnsCount(n);
    if n <= 8 {
      assert Repeated(block, 0) + data[..n] == data[..n];
    } else {
      BlockIs(poly, acc, data[..8]);
      DigestRepeats(poly, Feed(poly, acc, block), data, block, n - 8);
      RepeatedStep(poly, acc, block, Turns(n - 8), data[..TailLen(n)]);
    }
  }

  lemma RepeatedStep(poly: word, acc: word, block: seq<byte>, k: nat, tail: seq<byte>)
    ensures Feed(poly, acc, Repeated(block, k + 1) + tail) ==
            Feed(poly, Feed(poly, acc, block), Repeated(block, k) + tail)
  {
    FeedConcat(poly, acc, block, Repeated(block, k) + tail);
    assert Repeated(block, k + 1) + tail == block + (Repeated(block, k) + tail);
  }

  /**
    Of every message, the checksum is the CRC of its first eight bytes, as the
    source takes them, repeated for every eight bytes but the last, and then
    its first bytes up to its length.
   */
  lemma ChecksumIsOf(poly: word, seed: word, data: seq<byte>)
    requires |data| > 8
    ensures var k := (|data| - 1) / 8;
            Not(Digest(poly, Not(seed), data, |data|)) ==
            Crc(poly, seed, Repeated(Spread(data[..8]), k) + data[..|data| - 8 * k])
  {
    TurnsCount(|data|);
    DigestRepeats(poly, Not(seed), data, Spread(data[..8]), |data|);
  }

  /** Zeros but for one byte past the first eight, which the block loop never reads. */
  function Unread(n: nat): seq<byte>
    requires n > 8
  {
    Zeros(8) + [1] + Zeros(n - 9)
  }

  lemma UnreadLost(poly: word, acc: word, n: nat)
    requires n > 8 && poly[63]
    ensures Digest(poly, acc, Unread(n), n) != Feed(poly, acc, Unread(n))
  {
    assert Unread(n)[..8] == Zeros(8);
    ZerosDigest(poly, acc, Unread(n), n);
    assert Zeros(n) == Zeros(8) + [0] + Zeros(n - 9);
    assert FromByte(0)[..8][0] != FromByte(1)[..8][0];
    OneByteTells(poly, acc, Zeros(8), 0, 1, Zeros(n - 9));
  }

  lemma NotInjective(a: word, b: word)
    requires Not(a) == Not(b)
    ensures a == b
  {
    forall i | 0 <= i < WIDTH
      ensures a[i] == b[i]
    {
      assert Not(a)[i] == Not(b)[i];
    }
  }

  /** The checksum of plain messages of one length is their CRC if and only if the length is at most eight. */
  lemma ChecksumExact(poly: word, seed: word, n: nat)
    requires poly[63]
    ensures (forall data {:trigger Crc(poly, seed, data)} :: |data| == n && Plain(data) ==>
               Not(Digest(poly, Not(seed), data, n)) == Crc(poly, seed, data)) <==> n <= 8
  {
    if n <= 8 {
      forall data | |data| == n && Plain(data)
        ensures Not(Digest(poly, Not(seed), data, n)) == Crc(poly, seed, data)
      {
        assert data[..n] == data;
      }
    } else {
      var data := Unread(n);
      UnreadLost(poly, Not(seed), n);
      if Not(Digest(poly, Not(seed), data, n)) == Crc(poly, seed, data) {
        NotInjective(Digest(poly, Not(seed), data, n), Feed(poly, Not(seed), data));
      }
      assert |data| == n && Plain(data);
    }
  }
}
