/**
  The lazy stack allocator of api/util/alloc_lstack.hpp as a state machine: a
  list of free blocks, the bytes handed out and the bytes donated.
 */
module LstackSpec {
  import opened Arith
  import opened Intervals

  datatype State = State(min: nat, free: seq<Block>, live: set<nat>, donated: set<nat>, used: int, total: int, end: nat)

  /** The addresses of n bytes from a on. */
  ghost function Range(a: nat, n: nat): (s: set<nat>)
    ensures forall x :: x in s <==> a <= x < a + n
    ensures |s| == n
    decreases n
  {
    if n == 0 then {} else Range(a, n - 1) + {a + n - 1}
  }

  predicate BlockOk(min: nat, b: Block) {
    min > 0 && b.addr > 0 && b.addr % min == 0 && b.size >= min && b.size % min == 0
  }

  ghost predicate BlocksOk(min: nat, free: seq<Block>) {
    forall i {:trigger free[i]} :: 0 <= i < |free| ==> BlockOk(min, free[i])
  }

  ghost function In(x: nat, s: set<nat>): nat {
    if x in s then 1 else 0
  }

  /** Every donated byte is either live or in one free block, and only one; no other byte is in any. */
  ghost predicate Partition(free: seq<Block>, live: set<nat>, donated: set<nat>) {
    forall x: nat {:trigger Count(free, x)} :: Count(free, x) + In(x, live) == In(x, donated)
  }

  /** The counters count live and donated bytes, and nothing live lies at or above the allocation end. */
  ghost predicate Inv(s: State) {
    && s.min > 0 && BlocksOk(s.min, s.free) && Partition(s.free, s.live, s.donated)
    && s.used == |s.live| && s.total == |s.donated| && s.total - s.used == Sum(s.free)
    && forall x :: x in s.live ==> x < s.end
  }

  // ---- operations ----

  /** Index of the first block of at least this size; the list's length if there is none. */
  function FirstFit(free: seq<Block>, size: nat): (k: nat)
    ensures k <= |free| && (forall i :: 0 <= i < k ==> free[i].size < size) && (k < |free| ==> free[k].size >= size)
  {
    if free == [] || free[0].size >= size then 0 else FirstFit(free[1..], size) + 1
  }

  /** The list after a block has been taken out whole or clipped at its front. */
  function Taken(free: seq<Block>, k: nat, size: nat): seq<Block>
    requires k < |free| && free[k].size >= size
  {
    if free[k].size == size then free[..k] + free[k + 1..]
    else free[..k] + [Block(free[k].addr + size, free[k].size - size)] + free[k + 1..]
  }

  ghost function Allocate(s: State, size: nat): (r: (State, nat)) {
    var k := FirstFit(s.free, size);
    if k == |s.free| then (s, 0)
    else
      var a := s.free[k].addr;
      (s.(free := Taken(s.free, k, size), live := s.live + Range(a, size), used := s.used + size,
          end := if a + size > s.end then a + size else s.end), a)
  }

  ghost function Deallocate(s: State, a: nat, size: nat): State {
    s.(free := [Block(a, size)] + s.free, live := s.live - Range(a, size), used := s.used - size,
       end := if a + size >= s.end then a else s.end)
  }

  ghost function Donate(s: State, a: nat, size: nat): State {
    s.(free := [Block(a, size)] + s.free, donated := s.donated + Range(a, size), total := s.total + size,
       end := if a > s.end then a else s.end)
  }

  // ---- what they do to the list ----

  lemma TakenCount(free: seq<Block>, k: nat, size: nat, x: nat)
    requires k < |free| && size <= free[k].size
    ensures Count(Taken(free, k, size), x) + Has(Block(free[k].addr, size), x) == Count(free, x)
  {
    Around(free, k);
    if free[k].size == size {
      CountLess(free, Taken(free, k, size), free[..k], free[k], free[k + 1..], x);
    } else {
      CountClipped(free, Taken(free, k, size), free[..k], free[k], free[k + 1..], size, x);
    }
  }

  lemma CountLess(free: seq<Block>, free': seq<Block>, l: seq<Block>, b: Block, r: seq<Block>, x: nat)
    requires free == l + [b] + r && free' == l + r
    ensures Count(free', x) + Has(b, x) == Count(free, x)
  {
    CountAround(l, b, r, x);
    CountConcat(l, r, x);
  }

  lemma CountClipped(free: seq<Block>, free': seq<Block>, l: seq<Block>, b: Block, r: seq<Block>, size: nat, x: nat)
    requires size <= b.size && free == l + [b] + r && free' == l + [Block(b.addr + size, b.size - size)] + r
    ensures Count(free', x) + Has(Block(b.addr, size), x) == Count(free, x)
  {
    CountAround(l, b, r, x);
    CountAround(l, Block(b.addr + size, b.size - size), r, x);
  }

  lemma TakenSum(free: seq<Block>, k: nat, size: nat)
    requires k < |free| && size <= free[k].size
    ensures Sum(Taken(free, k, size)) == Sum(free) - size
  {
    Around(free, k);
    if free[k].size == size {
      SumLess(free, Taken(free, k, size), free[..k], free[k], free[k + 1..]);
    } else {
      SumClipped(free, Taken(free, k, size), free[..k], free[k], free[k + 1..], size);
    }
  }

  lemma SumLess(free: seq<Block>, free': seq<Block>, l: seq<Block>, b: Block, r: seq<Block>)
    requires free == l + [b] + r && free' == l + r
    ensures Sum(free') == Sum(free) - b.size
  {
    SumAround(l, b, r);
    SumConcat(l, r);
  }

  lemma SumClipped(free: seq<Block>, free': seq<Block>, l: seq<Block>, b: Block, r: seq<Block>, size: nat)
    requires size <= b.size && free == l + [b] + r && free' == l + [Block(b.addr + size, b.size - size)] + r
    ensures Sum(free') == Sum(free) - size
  {
    SumAround(l, b, r);
    SumAround(l, Block(b.addr + size, b.size - size), r);
  }

  lemma TakenOk(min: nat, free: seq<Block>, k: nat, size: nat)
    requires BlocksOk(min, free) && k < |free| && 0 < size <= free[k].size && size % min == 0
    ensures BlocksOk(min, Taken(free, k, size))
  {
    if size < free[k].size {
      RestOk(min, free[k], size);
    }
  }

  lemma RestOk(min: nat, b: Block, size: nat)
    requires BlockOk(min, b) && 0 < size < b.size && size % min == 0
    ensures BlockOk(min, Block(b.addr + size, b.size - size))
  {
    AlignedSum(b.addr, size, min);
    AlignedDifference(b.size, size, min);
  }

  lemma AlignedSum(a: nat, b: nat, m: nat)
    requires m > 0 && a % m == 0 && b % m == 0
    ensures (a + b) % m == 0
  {
    MulDistributes(m, a / m, b / m);
    DivModUnique(a + b, m, a / m + b / m, 0);
  }

  lemma AlignedDifference(a: nat, b: nat, m: nat)
    requires m > 0 && a % m == 0 && b % m == 0 && a > b
    ensures (a - b) % m == 0 && a - b >= m
  {
    MulDistributes(m, a / m - b / m, b / m);
    DivModUnique(a - b, m, a / m - b / m, 0);
    if a / m - b / m >= 1 {
      MulAtLeast(m, a / m - b / m);
    }
  }

  // ---- every operation keeps the invariant ----

  /** Memory of a free block is donated and not live. */
  lemma FreeIsDonated(s: State, k: nat, size: nat)
    requires Inv(s) && k < |s.free| && size <= s.free[k].size
    ensures Range(s.free[k].addr, size) <= s.donated && Range(s.free[k].addr, size) !! s.live
  {
    forall x | x in Range(s.free[k].addr, size)
      ensures x in s.donated && x !in s.live
    {
      BlockCounted(s.free, k, x);
    }
  }

  lemma AllocatePartition(s: State, k: nat, size: nat)
    requires Inv(s) && k < |s.free| && size <= s.free[k].size
    ensures Partition(Taken(s.free, k, size), s.live + Range(s.free[k].addr, size), s.donated)
  {
    var a, free' := s.free[k].addr, Taken(s.free, k, size);
    forall x: nat
      ensures Count(free', x) + In(x, s.live + Range(a, size)) == In(x, s.donated)
    {
      TakenCount(s.free, k, size, x);
      BlockCounted(s.free, k, x);
    }
  }

  /**
    An allocation gives free, aligned, donated memory outside everything live,
    or fails and changes nothing, which it does only when no block is large enough.
   */
  lemma AllocateKeeps(s: State, size: nat)
    requires Inv(s) && size > 0 && size % s.min == 0
    ensures var (s', a) := Allocate(s, size);
            && Inv(s') && s'.donated == s.donated
            && (a == 0 ==> s' == s && forall i :: 0 <= i < |s.free| ==> s.free[i].size < size)
            && (a != 0 ==> && a % s.min == 0 && Range(a, size) <= s.donated && Range(a, size) !! s.live
                           && s'.live == s.live + Range(a, size) && a + size <= s'.end)
  {
    var k := FirstFit(s.free, size);
    if k < |s.free| {
      assert BlockOk(s.min, s.free[k]);
      TakenOk(s.min, s.free, k, size);
      TakenSum(s.free, k, size);
      FreeIsDonated(s, k, size);
      AllocatePartition(s, k, size);
    }
  }

  lemma ReleasePartition(s: State, a: nat, size: nat)
    requires Inv(s) && Range(a, size) <= s.live
    ensures Partition([Block(a, size)] + s.free, s.live - Range(a, size), s.donated)
  {
    var b := Block(a, size);
    forall x: nat
      ensures Count([b] + s.free, x) + In(x, s.live - Range(a, size)) == In(x, s.donated)
    {
      PushCount(b, s.free, x);
    }
  }

  lemma RemoveRange(s: set<nat>, a: nat, n: nat)
    requires Range(a, n) <= s
    ensures |s - Range(a, n)| == |s| - n
  {
    assert s == (s - Range(a, n)) + Range(a, n);
  }

  lemma AddRange(s: set<nat>, a: nat, n: nat)
    requires Range(a, n) !! s
    ensures |s + Range(a, n)| == |s| + n
  {
  }

  /** Any aligned live range may be given back, whole blocks or not. */
  lemma DeallocateKeeps(s: State, a: nat, size: nat)
    requires Inv(s) && BlockOk(s.min, Block(a, size)) && Range(a, size) <= s.live
    ensures Inv(Deallocate(s, a, size))
  {
    assert Sum([Block(a, size)] + s.free) == size + Sum(s.free) by {
      PushSum(Block(a, size), s.free);
    }
    ReleasePartition(s, a, size);
    RemoveRange(s.live, a, size);
    assert a + size - 1 in Range(a, size);
  }

  lemma DonatePartition(s: State, a: nat, size: nat)
    requires Inv(s) && Range(a, size) !! s.donated
    ensures Partition([Block(a, size)] + s.free, s.live, s.donated + Range(a, size))
  {
    var b := Block(a, size);
    forall x: nat
      ensures Count([b] + s.free, x) + In(x, s.live) == In(x, s.donated + Range(a, size))
    {
      PushCount(b, s.free, x);
    }
  }

  lemma DonateKeeps(s: State, a: nat, size: nat)
    requires Inv(s) && BlockOk(s.min, Block(a, size)) && Range(a, size) !! s.donated
    ensures Inv(Donate(s, a, size))
  {
    PushSum(Block(a, size), s.free);
    DonatePartition(s, a, size);
    AddRange(s.donated, a, size);
  }

  /** Giving memory back and asking for as much again returns it and restores the whole state. */
  lemma LastInFirstOut(s: State, a: nat, size: nat)
    requires Inv(s) && BlockOk(s.min, Block(a, size)) && Range(a, size) <= s.live
    ensures Allocate(Deallocate(s, a, size), size) == (s, a)
  {
    var s' := Deallocate(s, a, size);
    assert s'.free[0] == Block(a, size) && s'.free[..0] + s'.free[1..] == s.free;
    assert s'.live + Range(a, size) == s.live;
    assert a + size - 1 in Range(a, size);
  }

  /**
    A request is answered from the first block large enough, clipped at its
    front; the blocks before and after it stay, and the end moves up to the
    end of what is given.
   */
  lemma AllocateTakesFirst(s: State, size: nat, k: nat)
    requires Inv(s) && size > 0 && size % s.min == 0 && k < |s.free| && s.free[k].size >= size
    requires forall i :: 0 <= i < k ==> s.free[i].size < size
    ensures var (s', a) := Allocate(s, size);
            && a == s.free[k].addr && a != 0 && s'.end == (if a + size >= s.end then a + size else s.end)
            && s'.used == s.used + size && s'.total == s.total && s'.donated == s.donated
            && ClippedAt(s.free, k, size, s'.free)
  {
    assert FirstFit(s.free, size) == k;
    assert BlockOk(s.min, s.free[k]);
    TakenClips(s.free, k, size);
  }

  /** Block k has lost its first bytes, and is gone if these are all it had; the others are as before. */
  ghost predicate ClippedAt(free: seq<Block>, k: nat, size: nat, free': seq<Block>)
    requires k < |free|
  {
    var gone := if free[k].size == size then 1 else 0;
    && |free'| == |free| - gone
    && (forall i {:trigger free[i]} :: 0 <= i < k ==> free'[i] == free[i])
    && (forall i {:trigger free[i]} :: k < i < |free| ==> free'[i - gone] == free[i])
    && (gone == 0 ==> free'[k].addr == free[k].addr + size && free'[k].size == free[k].size - size)
  }

  lemma TakenClips(free: seq<Block>, k: nat, size: nat)
    requires k < |free| && free[k].size >= size
    ensures ClippedAt(free, k, size, Taken(free, k, size))
  {
  }

  /** A release that reaches the end moves it to the address given back; any other leaves it. */
  lemma ReleaseMovesEnd(s: State, a: nat, size: nat)
    requires Inv(s) && BlockOk(s.min, Block(a, size)) && Range(a, size) <= s.live
    ensures var s' := Deallocate(s, a, size);
            && (a + size >= s.end ==> s'.end == a) && (a + size < s.end ==> s'.end == s.end)
            && s'.free == [Block(a, size)] + s.free && s'.total == s.total && s'.donated == s.donated
            && s'.used == s.used - size && forall x :: x in s'.live <==> x in s.live && !(a <= x < a + size)
  {
  }

  /** So giving back memory above the end puts the end where that memory began. */
  lemma ReleaseLowersEnd(s: State, size: nat)
    requires Inv(s) && size > 0 && size % s.min == 0 && Allocate(s, size).1 >= s.end && Allocate(s, size).1 != 0
    ensures var (s', a) := Allocate(s, size); s'.end == a + size && Deallocate(s', a, size).end == a
  {
    var k := FirstFit(s.free, size);
    AllocateTakesFirst(s, size, k);
  }

  /** A donation moves the end up to its own beginning, if that is above it. */
  lemma DonateMovesEnd(s: State, a: nat, size: nat)
    requires Inv(s) && BlockOk(s.min, Block(a, size)) && Range(a, size) !! s.donated
    ensures var s' := Donate(s, a, size);
            && (a >= s.end ==> s'.end == a) && (a < s.end ==> s'.end == s.end)
            && s'.free == [Block(a, size)] + s.free && s'.live == s.live && s'.used == s.used
            && s'.total == s.total + size && forall x :: x in s'.donated <==> x in s.donated || a <= x < a + size
  {
  }

  // ---- runs ----

  datatype Op = Get(size: nat) | Put(addr: nat, bytes: nat) | Give(at: nat, count: nat)

  ghost predicate Legal(s: State, op: Op)
    requires s.min > 0
  {
    match op
    case Get(size) => size > 0 && size % s.min == 0
    case Put(a, n) => BlockOk(s.min, Block(a, n)) && Range(a, n) <= s.live
    case Give(a, n) => BlockOk(s.min, Block(a, n)) && Range(a, n) !! s.donated
  }

  ghost function Step(s: State, op: Op): State {
    match op
    case Get(size) => Allocate(s, size).0
    case Put(a, n) => Deallocate(s, a, n)
    case Give(a, n) => Donate(s, a, n)
  }

  ghost predicate IsRun(s: State, ops: seq<Op>, t: State)
    decreases |ops|
  {
    s.min > 0 && if ops == [] then s == t else Legal(s, ops[0]) && IsRun(Step(s, ops[0]), ops[1..], t)
  }

  ghost function Empty(min: nat): State {
    State(min, [], {}, {}, 0, 0, 0)
  }

  lemma StepKeeps(s: State, op: Op)
    requires Inv(s) && Legal(s, op)
    ensures Inv(Step(s, op))
  {
    match op {
      case Get(size) => AllocateKeeps(s, size);
      case Put(a, n) => DeallocateKeeps(s, a, n);
      case Give(a, n) => DonateKeeps(s, a, n);
    }
  }

  lemma {:induction false} StepsKeep(s: State, ops: seq<Op>, t: State)
    requires Inv(s) && IsRun(s, ops, t)
    ensures Inv(t)
    decreases |ops|
  {
    if ops == [] {
    } else {
      StepKeeps(s, ops[0]);
      StepsKeep(Step(s, ops[0]), ops[1..], t);
    }
  }

  lemma EmptyOk(min: nat)
    requires min > 0
    ensures Inv(Empty(min))
  {
  }

  /**
    Every run from an empty allocator keeps the memory partitioned, the counters
    right and the end above all that is live.
   */
  lemma RunKeeps(min: nat, ops: seq<Op>, t: State)
    requires min > 0 && IsRun(Empty(min), ops, t)
    ensures Inv(t)
  {
    EmptyOk(min);
    StepsKeep(Empty(min), ops, t);
  }
}
