/**
  The buddy allocator as a state machine over the set of blocks it has given
  away, without the node array: what a request does, what a release does, and
  what holds in every state that any run reaches (api/util/alloc_buddy.hpp).
 */
module BuddySpec {
  import opened Bits
  import opened BuddyTree
  import opened BuddyNodes

  /** What is fixed at construction: tree height, first pool address, end of usable memory. */
  datatype Pool = Pool(height: nat, base: nat, limit: nat)

  /**
    `live` maps each handed-out node to the size asked for; `burned` holds the
    nodes marked as taken by requests that were then refused because they run
    past the limit; `used` is the byte counter.
   */
  datatype State = State(live: map<nat, nat>, burned: map<nat, nat>, used: int, overbooked: bool)

  ghost predicate ValidPool(p: Pool) {
    p.height >= 1 && p.base > 0 && p.base + Size(p.height, 0) < WORD && p.limit < WORD
  }

  ghost const Initial: State := State(map[], map[], 0, false)

  ghost function Blocks(st: State): set<nat> {
    st.live.Keys + st.burned.Keys
  }

  function AddrOf(p: Pool, n: nat): nat {
    p.base + Offset(p.height, n)
  }

  function MaxChunk(h: nat): nat
    requires h >= 1
  {
    MIN_SIZE * Pow2(h - 1)
  }

  /** Block size for a request; zero when the pool is too small for it. */
  function ChunkSize(h: nat, wanted: nat): (sz: nat)
    requires h >= 1 && 0 < wanted
  {
    var sz := NextPow2(wanted);
    if sz > MaxChunk(h) then 0 else if sz < MIN_SIZE then MIN_SIZE else sz
  }

  /**
    Up to half the word range the block size is the least power-of-two multiple
    of the page size covering the request, if the pool has one.  Above that the
    rounding wraps and every request is taken for a single page.
   */
  lemma ChunkSizeMeaning(h: nat, wanted: nat)
    requires h >= 1 && 0 < wanted < WORD
    ensures wanted <= WORD / 2 ==> (ChunkSize(h, wanted) == 0 <==> wanted > MaxChunk(h))
    ensures wanted <= WORD / 2 && wanted <= MaxChunk(h) ==>
              wanted <= ChunkSize(h, wanted) && (ChunkSize(h, wanted) == MIN_SIZE || ChunkSize(h, wanted) < 2 * wanted)
    ensures wanted > WORD / 2 ==> ChunkSize(h, wanted) == MIN_SIZE
    ensures ChunkSize(h, wanted) != 0 ==>
              exists e: nat :: e < h && ChunkSize(h, wanted) == MIN_SIZE * Pow2(e)
  {
    NextPow2IsCeiling(wanted);
    MaxChunkExponent(h);
    assert Pow2(0) == 1;
    if wanted <= WORD / 2 {
      NextPow2Tight(wanted);
      var c: nat :| NextPow2(wanted) == Pow2(c);
      if 12 <= c {
        Pow2Add(12, c - 12);
        if c <= h + 11 { Pow2Monotone(c, h + 11); } else { Pow2Monotone(h + 11, c); }
      } else {
        Pow2Monotone(c, 11);
      }
    }
  }

  lemma MaxChunkExponent(h: nat)
    requires h >= 1
    ensures MIN_SIZE == Pow2(12) == 2 * Pow2(11) && MaxChunk(h) == Pow2(h + 11) && MaxChunk(h) >= MIN_SIZE
  {
    assert Pow2(11) == 2048;
    Pow2Add(12, h - 1);
    Pow2Monotone(12, h + 11);
  }

  lemma NextPow2Tight(i: nat)
    requires 0 < i <= WORD / 2
    ensures NextPow2(i) < 2 * i
  {
    KeepLastIsFloor(i);
  }

  /** Nodes of a given size unrelated to every block given away. */
  ghost function FreeNodes(p: Pool, blocks: set<nat>, sz: nat): set<nat> {
    set n: nat | n < NodeCount(p.height) && Size(p.height, n) == sz && forall b :: b in blocks ==> !Comparable(b, n)
  }

  ghost function Least(s: set<nat>): (m: nat)
    requires s != {}
    ensures m in s && forall n :: n in s ==> m <= n
  {
    var x :| x in s;
    var rest := s - {x};
    assert forall n :: n in s ==> n == x || n in rest;
    if rest == {} then x else
      var m := Least(rest);
      if x < m then x else m
  }

  /** Mark node n for a request of `size` bytes; past the limit the mark stays but nothing is handed out. */
  ghost function Place(p: Pool, st: State, size: nat, n: nat): (State, nat) {
    if Word(AddrOf(p, n) + size) > p.limit then
      (st.(burned := st.burned[n := size], overbooked := true), 0)
    else
      (st.(live := st.live[n := size], used := Word(st.used + Size(p.height, n))), AddrOf(p, n))
  }

  /** Serve a request for `size` bytes: new state and address, zero if refused. */
  ghost function Allocate(p: Pool, st: State, size: nat): (State, nat)
    requires p.height >= 1 && 0 < size
  {
    var sz := ChunkSize(p.height, size);
    var free := FreeNodes(p, Blocks(st), sz);
    if sz == 0 then (st, 0)
    else if free == {} then (if size > p.limit then st.(overbooked := true) else st, 0)
    else Place(p, st, size, Least(free))
  }

  /** The block of this address, if any. */
  ghost predicate StartsAt(p: Pool, blocks: set<nat>, addr: nat, n: nat) {
    n in blocks && AddrOf(p, n) == addr
  }

  /** Release the block at `addr`: new state and bytes released, zero if there is none. */
  ghost function Deallocate(p: Pool, st: State, addr: nat): (State, nat) {
    if n :| StartsAt(p, Blocks(st), addr, n) then
      (st.(live := st.live - {n}, burned := st.burned - {n}, used := WordMinus(st.used, Size(p.height, n))),
       Size(p.height, n))
    else (st, 0)
  }

  // ---- the invariant of every run ----

  ghost predicate Apart(blocks: set<nat>) {
    forall a, b :: a in blocks && b in blocks && a != b ==> !Comparable(a, b)
  }

  ghost predicate Placed(p: Pool, n: nat, size: nat) {
    0 < size < WORD && n < NodeCount(p.height) && Size(p.height, n) == ChunkSize(p.height, size)
  }

  ghost predicate Granted(p: Pool, n: nat, size: nat) {
    Placed(p, n, size) && Word(AddrOf(p, n) + size) <= p.limit
  }

  ghost predicate Refused(p: Pool, n: nat, size: nat) {
    Placed(p, n, size) && Word(AddrOf(p, n) + size) > p.limit
  }

  ghost predicate AllGranted(p: Pool, live: map<nat, nat>) {
    forall n :: n in live ==> Granted(p, n, live[n])
  }

  ghost predicate AllRefused(p: Pool, burned: map<nat, nat>) {
    forall n :: n in burned ==> Refused(p, n, burned[n])
  }

  /** Everything but the byte counter. */
  ghost predicate Structure(p: Pool, st: State) {
    && ValidPool(p)
    && st.live.Keys !! st.burned.Keys
    && Apart(Blocks(st))
    && AllGranted(p, st.live)
    && AllRefused(p, st.burned)
    && 0 <= st.used < WORD
  }

  /** The byte counter is the total size of the live blocks. */
  ghost predicate Counted(p: Pool, st: State) {
    st.used == TotalSize(p.height, st.live.Keys)
  }

  /** The byte counter is short of the live blocks by what is owed, in words. */
  ghost predicate Balanced(p: Pool, st: State, owed: nat) {
    owed < WORD && Word(st.used + owed) == TotalSize(p.height, st.live.Keys)
  }

  ghost predicate Inv(p: Pool, st: State) {
    Structure(p, st) && Counted(p, st)
  }

  /** Unrelated blocks under a node never add up to more than its block. */
  lemma {:induction false} ApartBlocksFit(h: nat, blocks: set<nat>, i: nat)
    requires i < NodeCount(h) && Apart(blocks)
    requires forall b :: b in blocks ==> b < NodeCount(h) && Within(i, b)
    ensures TotalSize(h, blocks) <= Size(h, i)
    decreases NodeCount(h) - i
  {
    if i in blocks {
      forall b | b in blocks
        ensures b == i
      {
        assert Comparable(i, b);
      }
      assert blocks == {i};
      TotalSizeRemove(h, blocks, i);
      assert blocks - {i} == {};
    } else if blocks != {} {
      var l := set b | b in blocks && Within(Left(i), b);
      var r := set b | b in blocks && Within(Right(i), b);
      forall b | b in blocks
        ensures (b in l || b in r) && !(b in l && b in r) && Right(i) < NodeCount(h)
      {
        WithinSplit(i, b);
        ParentOfBlock(h, i, b);
      }
      assert blocks == l + r;
      TotalSizeUnion(h, l, r);
      ApartBlocksFit(h, l, Left(i));
      ApartBlocksFit(h, r, Right(i));
      ChildGeometry(h, i);
    }
  }

  lemma ParentOfBlock(h: nat, i: nat, b: nat)
    requires h >= 1 && Within(i, b) && b != i && b < NodeCount(h)
    ensures Right(i) < NodeCount(h)
  {
    WithinSplit(i, b);
    if Within(Left(i), b) { WithinOrder(Left(i), b); } else { WithinOrder(Right(i), b); }
    NodeCountOdd(h);
  }

  lemma TotalFitsPool(p: Pool, blocks: set<nat>)
    requires ValidPool(p) && Apart(blocks)
    requires forall b :: b in blocks ==> b < NodeCount(p.height)
    ensures TotalSize(p.height, blocks) <= Size(p.height, 0) < WORD
  {
    forall b | b in blocks
      ensures Within(0, b)
    {
      WithinRoot(b);
    }
    Pow2Monotone(0, p.height);
    Pow2Monotone(1, p.height);
    ApartBlocksFit(p.height, blocks, 0);
  }

  /** Serving a request keeps the invariant. */
  lemma AllocateKeeps(p: Pool, st: State, size: nat)
    requires Structure(p, st) && 0 < size < WORD
    ensures Structure(p, Allocate(p, st, size).0)
    ensures Counted(p, st) ==> Counted(p, Allocate(p, st, size).0)
  {
    var sz := ChunkSize(p.height, size);
    var free := FreeNodes(p, Blocks(st), sz);
    if sz != 0 && free != {} {
      PlaceKeeps(p, st, size, Least(free));
    }
  }

  lemma PlaceKeeps(p: Pool, st: State, size: nat, n: nat)
    requires Structure(p, st) && Placed(p, n, size)
    requires forall b :: b in Blocks(st) ==> !Comparable(b, n)
    ensures Structure(p, Place(p, st, size, n).0)
    ensures Counted(p, st) ==> Counted(p, Place(p, st, size, n).0)
    ensures Blocks(Place(p, st, size, n).0) == Blocks(st) + {n} && n !in Blocks(st)
  {
    assert Comparable(n, n);
    AddApart(Blocks(st), n);
    var st' := Place(p, st, size, n).0;
    assert Blocks(st') == Blocks(st) + {n};
    BlockPlacement(p.height, n);
    if Word(AddrOf(p, n) + size) <= p.limit {
      assert Granted(p, n, size) && AllGranted(p, st'.live);
      assert Counted(p, st) ==> Counted(p, st') by {
        PlaceBalances(p, st, st', n, 0);
      }
    } else {
      assert Refused(p, n, size) && AllRefused(p, st'.burned);
    }
  }

  lemma PlaceBalances(p: Pool, st: State, st': State, n: nat, owed: nat)
    requires Structure(p, st) && Structure(p, st') && n !in st.live && n in st'.live
    requires st'.live.Keys - {n} == st.live.Keys
    requires st'.used == Word(st.used + Size(p.height, n))
    ensures Balanced(p, st, owed) ==> Balanced(p, st', owed)
  {
    TotalSizeRemove(p.height, st'.live.Keys, n);
    TotalFitsPool(p, st'.live.Keys);
  }

  lemma AddApart(blocks: set<nat>, n: nat)
    requires Apart(blocks) && forall b :: b in blocks ==> !Comparable(b, n)
    ensures Apart(blocks + {n})
  {
  }

  /** At most one block starts at an address. */
  lemma BlockAtUnique(p: Pool, st: State, addr: nat, m: nat, n: nat)
    requires Structure(p, st)
    requires StartsAt(p, Blocks(st), addr, m) && StartsAt(p, Blocks(st), addr, n)
    ensures m == n
  {
    if m != n {
      BlockPlacement(p.height, m);
      BlockPlacement(p.height, n);
      RangesLaminar(p.height, m, n);
    }
  }

  /** What releasing the block n does. */
  lemma DeallocateAt(p: Pool, st: State, addr: nat, n: nat)
    requires Structure(p, st) && StartsAt(p, Blocks(st), addr, n)
    ensures Deallocate(p, st, addr) ==
            (Without(p, st, n), Size(p.height, n))
  {
    forall m | StartsAt(p, Blocks(st), addr, m)
      ensures m == n
    {
      BlockAtUnique(p, st, addr, m, n);
    }
  }

  /**
    Releasing an address keeps everything but possibly the byte counter, and
    the counter exactly when the address is not that of a burned block: those
    were never handed out, and releasing one subtracts what was never added.
   */
  lemma DeallocateKeeps(p: Pool, st: State, addr: nat)
    requires Structure(p, st)
    ensures Structure(p, Deallocate(p, st, addr).0)
    ensures Counted(p, st) ==>
              (Counted(p, Deallocate(p, st, addr).0) <==> !exists n :: StartsAt(p, st.burned.Keys, addr, n))
  {
    if n :| StartsAt(p, Blocks(st), addr, n) {
      DeallocateAt(p, st, addr, n);
      RemoveBlock(p, st, n);
      if n in st.live {
        forall m | StartsAt(p, st.burned.Keys, addr, m)
          ensures false
        {
          BlockAtUnique(p, st, addr, m, n);
        }
      } else {
        assert StartsAt(p, st.burned.Keys, addr, n);
      }
    } else {
      assert forall n :: StartsAt(p, st.burned.Keys, addr, n) ==> StartsAt(p, Blocks(st), addr, n);
    }
  }

  ghost function Without(p: Pool, st: State, n: nat): State {
    State(st.live - {n}, st.burned - {n}, WordMinus(st.used, Size(p.height, n)), st.overbooked)
  }

  lemma RemoveBlock(p: Pool, st: State, n: nat)
    requires Structure(p, st) && n in Blocks(st)
    ensures Structure(p, Without(p, st, n))
    ensures Blocks(Without(p, st, n)) == Blocks(st) - {n}
    ensures Counted(p, st) ==> (Counted(p, Without(p, st, n)) <==> n in st.live)
  {
    var st' := Without(p, st, n);
    assert Blocks(st') == Blocks(st) - {n};
    assert Apart(Blocks(st')) && AllGranted(p, st'.live) && AllRefused(p, st'.burned) by {
      FewerGranted(p, st, n);
    }
    assert 0 <= st'.used < WORD by {
      BlockPlacement(p.height, n);
    }
    RemoveCounts(p, st, n);
  }

  lemma FewerGranted(p: Pool, st: State, n: nat)
    requires Apart(Blocks(st)) && AllGranted(p, st.live) && AllRefused(p, st.burned)
    ensures Apart(Blocks(st) - {n}) && AllGranted(p, st.live - {n}) && AllRefused(p, st.burned - {n})
  {
  }

  lemma RemoveCounts(p: Pool, st: State, n: nat)
    requires Structure(p, st) && n in Blocks(st)
    ensures Counted(p, st) ==> (Counted(p, Without(p, st, n)) <==> n in st.live)
  {
    BlockPlacement(p.height, n);
    TotalFitsPool(p, st.live.Keys);
    RemoveBalances(p, st, n, 0);
  }

  /** Releasing a live block owes nothing more; releasing a burned one owes its size. */
  lemma RemoveBalances(p: Pool, st: State, n: nat, owed: nat)
    requires Structure(p, st) && n in Blocks(st)
    ensures 0 < Size(p.height, n) < WORD
    ensures Balanced(p, st, owed) ==>
              Balanced(p, Without(p, st, n), if n in st.live then owed else Word(owed + Size(p.height, n)))
  {
    BlockIsWord(p, st, n);
    if Balanced(p, st, owed) {
      if n in st.live { LiveBalances(p, st, n, owed); } else { BurnedBalances(p, st, n, owed); }
    }
  }

  lemma BlockIsWord(p: Pool, st: State, n: nat)
    requires Structure(p, st) && n in Blocks(st)
    ensures 0 < Size(p.height, n) < WORD && TotalSize(p.height, st.live.Keys) < WORD
  {
    BlockPlacement(p.height, n);
    TotalFitsPool(p, st.live.Keys);
  }

  lemma LiveBalances(p: Pool, st: State, n: nat, owed: nat)
    requires Structure(p, st) && n in st.live && Balanced(p, st, owed)
    ensures Balanced(p, Without(p, st, n), owed)
  {
    assert (st.live - {n}).Keys == st.live.Keys - {n};
    BlockIsWord(p, st, n);
    TotalSizeRemove(p.height, st.live.Keys, n);
    LessUsed(st.used, owed, TotalSize(p.height, st.live.Keys), Size(p.height, n));
  }

  lemma BurnedBalances(p: Pool, st: State, n: nat, owed: nat)
    requires Structure(p, st) && n in st.burned && Balanced(p, st, owed)
    ensures Balanced(p, Without(p, st, n), Word(owed + Size(p.height, n)))
  {
    assert n !in st.live && st.live - {n} == st.live;
    BlockIsWord(p, st, n);
    LessUsed(st.used, owed, TotalSize(p.height, st.live.Keys), Size(p.height, n));
  }

  /** Taking a size off the counter of words: it is missing from the total, or owed. */
  lemma LessUsed(used: int, owed: nat, total: nat, sz: nat)
    requires 0 <= used < WORD && owed < WORD && total < WORD && 0 < sz < WORD && Word(used + owed) == total
    ensures sz <= total ==> Word(WordMinus(used, sz) + owed) == total - sz
    ensures 0 <= Word(owed + sz) < WORD && Word(WordMinus(used, sz) + Word(owed + sz)) == total
  {
  }

  datatype Op = Request(size: nat) | Release(addr: nat)

  ghost function Step(p: Pool, st: State, op: Op): State
    requires p.height >= 1 && (op.Request? ==> 0 < op.size)
  {
    match op
    case Request(size) => Allocate(p, st, size).0
    case Release(addr) => Deallocate(p, st, addr).0
  }

  /** Requests are non-zero words, and while the whole pool is one block none may be made that the pool could hold. */
  ghost predicate RequestAllowed(p: Pool, st: State, size: nat) {
    p.height >= 1 && 0 < size < WORD && (ChunkSize(p.height, size) != 0 ==> 0 !in Blocks(st))
  }

  /**
    By its size: while the whole pool is one block only what is larger than the
    pool, up to half the word range, may be asked.
   */
  lemma AllowedExactly(p: Pool, st: State, size: nat)
    requires ValidPool(p)
    ensures RequestAllowed(p, st, size) <==>
            0 < size < WORD && (0 in Blocks(st) ==> MaxChunk(p.height) < size <= WORD / 2)
  {
    if 0 < size < WORD {
      ChunkSizeMeaning(p.height, size);
    }
  }

  /** The end of what is given back lies below the limit, and the size, if given, is that of a block there. */
  ghost predicate ReleaseAllowed(p: Pool, st: State, addr: nat, size: nat) {
    && p.height >= 1 && addr < WORD && size < WORD && Word(addr + size) < p.limit
    && (size != 0 ==> Deallocate(p, st, addr).1 == ChunkSize(p.height, size))
  }

  /** Any address may be released, also one that was never handed out. */
  ghost predicate Legal(p: Pool, st: State, op: Op) {
    op.Request? ==> RequestAllowed(p, st, op.size)
  }

  /** The states of a run of operations, none of which is illegal where it happens. */
  ghost predicate IsRun(p: Pool, ops: seq<Op>, states: seq<State>) {
    && ValidPool(p)
    && |states| == |ops| + 1 && states[0] == Initial
    && forall k :: 0 <= k < |ops| ==> Legal(p, states[k], ops[k]) && states[k + 1] == Step(p, states[k], ops[k])
  }

  /** In every state of every run everything but possibly the byte counter is right. */
  lemma {:induction false} RunKeepsStructure(p: Pool, ops: seq<Op>, states: seq<State>, k: nat)
    requires IsRun(p, ops, states) && k < |states|
    ensures Structure(p, states[k])
  {
    if k == 0 {
      FreshInv(p);
    } else {
      RunKeepsStructure(p, ops, states, k - 1);
      assert Legal(p, states[k - 1], ops[k - 1]);
      match ops[k - 1]
      case Request(size) => AllocateKeeps(p, states[k - 1], size);
      case Release(addr) => DeallocateKeeps(p, states[k - 1], addr);
    }
  }

  /** What an operation takes off the counter that was never added to it: the size of a burned block it releases. */
  ghost function OwedBy(p: Pool, st: State, op: Op): nat {
    if op.Release? && exists n :: StartsAt(p, st.burned.Keys, op.addr, n) then Deallocate(p, st, op.addr).1 else 0
  }

  /** The sum of these over the first operations of a run, in words. */
  ghost function Owed(p: Pool, ops: seq<Op>, states: seq<State>, k: nat): int
    requires k <= |ops| < |states|
  {
    if k == 0 then 0 else Word(Owed(p, ops, states, k - 1) + OwedBy(p, states[k - 1], ops[k - 1]))
  }

  lemma RequestBalances(p: Pool, st: State, size: nat, owed: nat, st': State)
    requires Structure(p, st) && 0 < size < WORD && Balanced(p, st, owed) && st' == Allocate(p, st, size).0
    ensures Balanced(p, st', owed)
  {
    var placed, n := Served(p, st, size, st');
    if placed {
      MarkBalances(p, st, size, n, owed, st');
    } else {
      SameBalances(p, st, owed, st');
    }
  }

  lemma SameBalances(p: Pool, st: State, owed: nat, st': State)
    requires Balanced(p, st, owed) && st'.live == st.live && st'.used == st.used
    ensures Balanced(p, st', owed)
  {
  }

  /** A request marks a node that is free, or changes at most the overbooked mark. */
  lemma Served(p: Pool, st: State, size: nat, st': State) returns (placed: bool, n: nat)
    requires p.height >= 1 && 0 < size < WORD && st' == Allocate(p, st, size).0
    ensures if placed then
              ChunkSize(p.height, size) != 0 && n in FreeNodes(p, Blocks(st), ChunkSize(p.height, size)) &&
              st' == Place(p, st, size, n).0
            else st'.live == st.live && st'.burned == st.burned && st'.used == st.used
  {
    var sz := ChunkSize(p.height, size);
    var free := FreeNodes(p, Blocks(st), sz);
    placed, n := sz != 0 && free != {}, 0;
    if placed {
      n := Least(free);
    }
  }

  lemma MarkBalances(p: Pool, st: State, size: nat, n: nat, owed: nat, st': State)
    requires Structure(p, st) && 0 < size < WORD && Balanced(p, st, owed)
    requires n in FreeNodes(p, Blocks(st), ChunkSize(p.height, size)) && st' == Place(p, st, size, n).0
    ensures Balanced(p, st', owed)
  {
    PlaceKeeps(p, st, size, n);
    if Word(AddrOf(p, n) + size) <= p.limit {
      assert st'.live.Keys - {n} == st.live.Keys;
      PlaceBalances(p, st, st', n, owed);
    }
  }

  lemma ReleaseBalances(p: Pool, st: State, addr: nat, owed: nat)
    requires Structure(p, st) && Balanced(p, st, owed)
    ensures Balanced(p, Deallocate(p, st, addr).0, Word(owed + OwedBy(p, st, Release(addr))))
  {
    if n :| StartsAt(p, Blocks(st), addr, n) {
      DeallocateAt(p, st, addr, n);
      RemoveBalances(p, st, n, owed);
      assert n in st.burned ==> StartsAt(p, st.burned.Keys, addr, n);
      if m :| StartsAt(p, st.burned.Keys, addr, m) {
        assert StartsAt(p, Blocks(st), addr, m);
        BlockAtUnique(p, st, addr, m, n);
      }
    } else {
      assert forall n :: StartsAt(p, st.burned.Keys, addr, n) ==> StartsAt(p, Blocks(st), addr, n);
    }
  }

  /**
    In every state of every run the byte counter is short of the live blocks
    by what is owed for burned blocks that were released, and so it is right
    if and only if that comes to nothing.
   */
  lemma RunCounter(p: Pool, ops: seq<Op>, states: seq<State>, k: nat)
    requires IsRun(p, ops, states) && k < |states|
    ensures 0 <= Owed(p, ops, states, k) < WORD && Balanced(p, states[k], Owed(p, ops, states, k))
    ensures Counted(p, states[k]) <==> Owed(p, ops, states, k) == 0
  {
    RunBalances(p, ops, states, k);
    RunKeepsStructure(p, ops, states, k);
    BalancedIffCounted(p, states[k], Owed(p, ops, states, k));
  }

  lemma BalancedIffCounted(p: Pool, st: State, owed: nat)
    requires Balanced(p, st, owed) && 0 <= st.used < WORD
    ensures Counted(p, st) <==> owed == 0
  {
  }

  lemma {:induction false} RunBalances(p: Pool, ops: seq<Op>, states: seq<State>, k: nat)
    requires IsRun(p, ops, states) && k < |states|
    ensures 0 <= Owed(p, ops, states, k) < WORD && Balanced(p, states[k], Owed(p, ops, states, k))
  {
    if k == 0 {
      FreshInv(p);
    } else {
      RunBalances(p, ops, states, k - 1);
      RunKeepsStructure(p, ops, states, k - 1);
      StepBalances(p, states[k - 1], ops[k - 1], Owed(p, ops, states, k - 1));
    }
  }

  lemma StepBalances(p: Pool, st: State, op: Op, owed: nat)
    requires Structure(p, st) && Legal(p, st, op) && Balanced(p, st, owed)
    ensures Balanced(p, Step(p, st, op), Word(owed + OwedBy(p, st, op)))
  {
    match op
    case Request(size) => RequestBalances(p, st, size, owed, Allocate(p, st, size).0);
    case Release(addr) => ReleaseBalances(p, st, addr, owed);
  }

  // ---- what the invariant means for callers ----

  /**
    Live blocks: inside the pool, powers of two of at least a page, aligned to
    their own size from the pool start, pairwise disjoint.  A block covers its
    request, and ends the request within the limit, exactly when the request
    did not exceed half the word range.
   */
  lemma LiveBlocksSafe(p: Pool, st: State, n: nat)
    requires Structure(p, st) && n in st.live
    ensures var sz := Size(p.height, n);
            && p.base <= AddrOf(p, n) && AddrOf(p, n) + sz <= p.base + Size(p.height, 0)
            && sz >= MIN_SIZE && IsPow2(sz) && (AddrOf(p, n) - p.base) % sz == 0
    ensures (st.live[n] <= Size(p.height, n) && AddrOf(p, n) + st.live[n] <= p.limit) <==> st.live[n] <= WORD / 2
    ensures forall m :: m in st.live && m != n ==> RangesDisjoint(p.height, m, n)
  {
    BlockPlacement(p.height, n);
    RequestCovered(p, n, st.live[n]);
    forall m | m in st.live && m != n
      ensures RangesDisjoint(p.height, m, n)
    {
      assert !Comparable(m, n);
      RangesLaminar(p.height, m, n);
    }
  }

  lemma RequestCovered(p: Pool, n: nat, size: nat)
    requires ValidPool(p) && Placed(p, n, size)
    ensures size <= WORD / 2 ==> size <= Size(p.height, n) && Word(AddrOf(p, n) + size) == AddrOf(p, n) + size
    ensures size > WORD / 2 ==> Size(p.height, n) == MIN_SIZE < size
  {
    BlockPlacement(p.height, n);
    ChunkSizeMeaning(p.height, size);
  }

  /** A fresh pool serves a request for all of the address space but one byte with its first page. */
  lemma HugeRequestServed(p: Pool, size: nat)
    requires ValidPool(p) && p.base <= p.limit && size == WORD - 1
    ensures var (st, addr) := Allocate(p, Initial, size);
            addr == p.base && exists n :: n in st.live && st.live[n] == size && Size(p.height, n) == MIN_SIZE
  {
    ChunkSizeMeaning(p.height, size);
    var n := FirstLeaf(p);
    var free := FreeNodes(p, Blocks(Initial), MIN_SIZE);
    assert n in free && Least(free) == n;
    assert n in Allocate(p, Initial, size).0.live;
  }

  /** The page that starts the pool comes first among the blocks of its size. */
  lemma FirstLeaf(p: Pool) returns (n: nat)
    requires ValidPool(p)
    ensures n < NodeCount(p.height) && Size(p.height, n) == MIN_SIZE && AddrOf(p, n) == p.base
    ensures forall m: nat :: m < NodeCount(p.height) && Size(p.height, m) == MIN_SIZE ==> n <= m
  {
    n := Pow2(p.height - 1) - 1;
    FlsUnique(n + 1, p.height);
    HeightOfNode(p.height, n);
    assert Pow2(0) == 1;
    OffsetFormula(p.height, n);
    forall m: nat | m < NodeCount(p.height) && Size(p.height, m) == MIN_SIZE
      ensures n <= m
    {
      SameSizeSameHeight(p.height, m, n);
      FlsBounds(m + 1);
    }
  }

  /**
    A request for all of a pool that runs past the limit marks the root, and
    releasing its address breaks the counter.
   */
  lemma BurnedRelease(p: Pool)
    requires ValidPool(p) && p.base < p.limit < p.base + MaxChunk(p.height)
    ensures var (st, addr) := Allocate(p, Initial, MaxChunk(p.height));
            && addr == 0 && Inv(p, st) && ReleaseAllowed(p, st, p.base, 0)
            && !Counted(p, Deallocate(p, st, p.base).0)
  {
    var size := MaxChunk(p.height);
    FirstRequestIsRoot(p, size);
    FreshInv(p);
    AllocateKeeps(p, Initial, size);
    var st := Allocate(p, Initial, size).0;
    assert st.burned == map[0 := size];
    assert StartsAt(p, st.burned.Keys, p.base, 0);
    DeallocateKeeps(p, st, p.base);
  }

  lemma FreshInv(p: Pool)
    requires ValidPool(p)
    ensures Inv(p, Initial)
  {
    assert TotalSize(p.height, {}) == 0;
    assert Initial.live.Keys == {};
  }

  /** The first request for the whole pool is tried on the root. */
  lemma FirstRequestIsRoot(p: Pool, size: nat)
    requires ValidPool(p) && MaxChunk(p.height) / 2 < size <= MaxChunk(p.height)
    ensures 0 < size < WORD && Allocate(p, Initial, size) == Place(p, Initial, size, 0) && AddrOf(p, 0) == p.base
  {
    RootGeometry(p);
    WholePoolChunk(p, size);
    assert Blocks(Initial) == {};
    var free := FreeNodes(p, {}, Size(p.height, 0));
    assert 0 in free;
    assert Least(free) == 0;
  }

  /**
    A live block can be given back by its own size if and only if its request
    does not end at the limit itself, where requests may end but releases not.
   */
  lemma OwnSizeReleases(p: Pool, st: State, n: nat)
    requires Structure(p, st) && n in st.live
    ensures ReleaseAllowed(p, st, AddrOf(p, n), st.live[n]) <==> Word(AddrOf(p, n) + st.live[n]) != p.limit
    ensures st.live[n] <= WORD / 2 ==> Word(AddrOf(p, n) + st.live[n]) == AddrOf(p, n) + st.live[n]
  {
    assert Granted(p, n, st.live[n]);
    BlockPlacement(p.height, n);
    RequestCovered(p, n, st.live[n]);
    assert StartsAt(p, Blocks(st), AddrOf(p, n), n);
    DeallocateAt(p, st, AddrOf(p, n), n);
  }

  /**
    In a pool that ends at the limit the whole of it is handed out, cannot be
    given back by its size, and no further request may be made.
   */
  lemma WholePoolStuck(p: Pool, wanted: nat)
    requires ValidPool(p) && p.limit == p.base + MaxChunk(p.height) && 0 < wanted <= MaxChunk(p.height)
    ensures var size := MaxChunk(p.height);
            var (st, addr) := Allocate(p, Initial, size);
            addr == p.base && !ReleaseAllowed(p, st, addr, size) && !RequestAllowed(p, st, wanted)
  {
    var size := MaxChunk(p.height);
    FirstRequestIsRoot(p, size);
    FreshInv(p);
    AllocateKeeps(p, Initial, size);
    var st := Allocate(p, Initial, size).0;
    assert 0 in st.live && st.live[0] == size;
    OwnSizeReleases(p, st, 0);
    WholePoolChunk(p, size);
    ChunkSizeMeaning(p.height, size);
    if wanted < WORD {
      ChunkSizeMeaning(p.height, wanted);
    }
  }

  /** No request exceeds half the word range. */
  ghost predicate Modest(ops: seq<Op>) {
    forall k :: 0 <= k < |ops| && ops[k].Request? ==> ops[k].size <= WORD / 2
  }

  lemma ModestNotBurned(p: Pool, st: State, size: nat, st': State)
    requires Structure(p, st) && 0 < size <= WORD / 2 && p.base + MaxChunk(p.height) <= p.limit
    requires st' == Allocate(p, st, size).0
    ensures st'.burned == st.burned
  {
    var placed, n := Served(p, st, size, st');
    if placed {
      RootGeometry(p);
      BlockPlacement(p.height, n);
      RequestCovered(p, n, size);
    }
  }

  /** If the pool ends at or below the limit no run of such requests burns a block, and its counter is always right. */
  lemma {:induction false} RunNeverBurns(p: Pool, ops: seq<Op>, states: seq<State>, k: nat)
    requires IsRun(p, ops, states) && k < |states| && Modest(ops) && p.base + MaxChunk(p.height) <= p.limit
    ensures states[k].burned == map[] && Owed(p, ops, states, k) == 0 && Inv(p, states[k])
  {
    RunKeepsStructure(p, ops, states, k);
    RunCounter(p, ops, states, k);
    if k == 0 {
    } else {
      RunNeverBurns(p, ops, states, k - 1);
      RunKeepsStructure(p, ops, states, k - 1);
      NothingBurned(p, states[k - 1], ops[k - 1], states[k]);
    }
  }

  lemma NothingBurned(p: Pool, st: State, op: Op, st': State)
    requires Structure(p, st) && st.burned == map[] && p.base + MaxChunk(p.height) <= p.limit
    requires Legal(p, st, op) && (op.Request? ==> op.size <= WORD / 2) && st' == Step(p, st, op)
    ensures st'.burned == map[] && OwedBy(p, st, op) == 0
  {
    match op
    case Request(size) => ModestNotBurned(p, st, size, st');
    case Release(addr) =>
      if n :| StartsAt(p, Blocks(st), addr, n) {
        DeallocateAt(p, st, addr, n);
        assert st.burned - {n} == st.burned;
      }
  }

  /** Some run of such requests burns a block. */
  ghost predicate Burns(p: Pool) {
    exists ops: seq<Op>, states: seq<State>, k: nat ::
      IsRun(p, ops, states) && Modest(ops) && k < |states| && states[k].burned != map[]
  }

  /** None does if and only if the pool ends at or below the limit. */
  lemma BurnsExactly(p: Pool)
    requires ValidPool(p)
    ensures Burns(p) <==> p.limit < p.base + MaxChunk(p.height)
  {
    if p.limit < p.base + MaxChunk(p.height) {
      BurningRun(p, MaxChunk(p.height));
    } else {
      forall ops: seq<Op>, states: seq<State>, k: nat | IsRun(p, ops, states) && Modest(ops) && k < |states|
        ensures states[k].burned == map[]
      {
        RunNeverBurns(p, ops, states, k);
      }
    }
  }

  lemma BurningRun(p: Pool, size: nat)
    requires ValidPool(p) && size == MaxChunk(p.height) && p.limit < p.base + size
    ensures Burns(p)
  {
    FirstRequestIsRoot(p, size);
    ChunkSizeMeaning(p.height, size);
    RootGeometry(p);
    var st := Allocate(p, Initial, size).0;
    var ops, states := [Request(size)], [Initial, st];
    assert Legal(p, states[0], ops[0]) && states[1] == Step(p, states[0], ops[0]);
    assert IsRun(p, ops, states) && Modest(ops);
    assert 0 in states[1].burned;
  }

  /** A node is free exactly when its block meets no block given away. */
  lemma FreeIffRangeUnused(p: Pool, blocks: set<nat>, n: nat)
    requires n < NodeCount(p.height) && forall b :: b in blocks ==> b < NodeCount(p.height)
    ensures n in FreeNodes(p, blocks, Size(p.height, n)) <==> forall b :: b in blocks ==> RangesDisjoint(p.height, b, n)
  {
    forall b | b in blocks
      ensures Comparable(b, n) <==> !RangesDisjoint(p.height, b, n)
    {
      RangesLaminar(p.height, b, n);
      BlockPlacement(p.height, b);
      BlockPlacement(p.height, n);
      if Within(b, n) { RangeNested(p.height, b, n); }
      if Within(n, b) { RangeNested(p.height, n, b); }
    }
  }

  /** The block of node n has the size for a request and meets no block given away. */
  ghost predicate Fits(p: Pool, st: State, size: nat, n: nat)
    requires p.height >= 1 && 0 < size
  {
    && n < NodeCount(p.height) && Size(p.height, n) == ChunkSize(p.height, size)
    && forall b :: b in Blocks(st) ==> RangesDisjoint(p.height, b, n)
  }

  /** The lowest-addressed block that fits. */
  ghost predicate FitsFirst(p: Pool, st: State, size: nat, m: nat)
    requires p.height >= 1 && 0 < size
  {
    Fits(p, st, size, m) && forall n: nat :: Fits(p, st, size, n) ==> AddrOf(p, m) <= AddrOf(p, n)
  }

  /**
    First fit, and complete: a request gets the lowest-addressed block that
    fits whenever there is one, and otherwise changes at most the overbooked
    mark.
   */
  lemma AllocateIsFirstFit(p: Pool, st: State, size: nat)
    requires Structure(p, st) && RequestAllowed(p, st, size) && ChunkSize(p.height, size) != 0
    ensures if exists n: nat :: Fits(p, st, size, n)
            then exists m: nat :: FitsFirst(p, st, size, m) && Allocate(p, st, size) == Place(p, st, size, m)
            else Allocate(p, st, size) == (if size > p.limit then st.(overbooked := true) else st, 0)
  {
    var free := FreeNodes(p, Blocks(st), ChunkSize(p.height, size));
    forall n: nat
      ensures n in free <==> Fits(p, st, size, n)
    {
      FreeMeansFits(p, st, size, n);
    }
    if n: nat :| Fits(p, st, size, n) {
      assert n in free;
      var m := Least(free);
      assert Fits(p, st, size, m);
      forall n: nat | Fits(p, st, size, n)
        ensures AddrOf(p, m) <= AddrOf(p, n)
      {
        LowestIsFirst(p, st, size, m, n);
      }
      assert FitsFirst(p, st, size, m) && Allocate(p, st, size) == Place(p, st, size, m);
    } else {
      assert free == {};
    }
  }

  /** Node n, in no block before, is handed out for the request, and all else stays. */
  ghost predicate HandsOut(p: Pool, st: State, size: nat, n: nat, st': State, a: nat) {
    && n !in Blocks(st) && a == AddrOf(p, n)
    && st' == State(st.live[n := size], st.burned, Word(st.used + Size(p.height, n)), st.overbooked)
  }

  /** Node n is marked past the limit, and nothing is handed out. */
  ghost predicate Burnt(p: Pool, st: State, size: nat, n: nat, st': State, a: nat) {
    n !in Blocks(st) && a == 0 && st' == State(st.live, st.burned[n := size], st.used, true)
  }

  /** What a request answers, and what it does, when the lowest block that fits is n. */
  lemma FittingOutcome(p: Pool, st: State, size: nat, n: nat)
    requires Structure(p, st) && RequestAllowed(p, st, size) && FitsFirst(p, st, size, n)
    ensures var (st', a) := Allocate(p, st, size);
            if Word(AddrOf(p, n) + size) <= p.limit then a != 0 && HandsOut(p, st, size, n, st', a)
            else Burnt(p, st, size, n, st', a)
  {
    BlockPlacement(p.height, n);
    AllocateIsFirstFit(p, st, size);
    var m: nat :| FitsFirst(p, st, size, m) && Allocate(p, st, size) == Place(p, st, size, m);
    SameFirst(p, st, size, m, n);
    FreeMeansFits(p, st, size, n);
    assert Comparable(n, n);
  }

  lemma SameFirst(p: Pool, st: State, size: nat, m: nat, n: nat)
    requires Structure(p, st) && 0 < size < WORD && FitsFirst(p, st, size, m) && FitsFirst(p, st, size, n)
    ensures m == n
  {
    if m != n {
      SameSizeSameHeight(p.height, m, n);
      BlockPlacement(p.height, m);
      BlockPlacement(p.height, n);
      if m < n { SameHeightOrder(p.height, m, n); } else { SameHeightOrder(p.height, n, m); }
    }
  }

  /**
    When no block fits nothing is handed out and nothing marked.  The mark that
    memory was overbooked is set if the pool has blocks of the size and the
    request exceeds the limit itself.  A request larger than the pool changes
    nothing.
   */
  lemma UnfitOutcome(p: Pool, st: State, size: nat)
    requires Structure(p, st) && RequestAllowed(p, st, size) && forall n: nat :: !Fits(p, st, size, n)
    ensures var (st', a) := Allocate(p, st, size);
            && a == 0 && st'.live == st.live && st'.burned == st.burned && st'.used == st.used
            && (st'.overbooked <==> st.overbooked || (ChunkSize(p.height, size) != 0 && size > p.limit))
            && (MaxChunk(p.height) < size <= WORD / 2 ==> st' == st)
  {
    if ChunkSize(p.height, size) != 0 {
      AllocateIsFirstFit(p, st, size);
    }
    ChunkSizeMeaning(p.height, size);
  }

  lemma TooLargeFitsNowhere(p: Pool, st: State, size: nat)
    requires Structure(p, st) && MaxChunk(p.height) < size <= WORD / 2
    ensures forall n: nat :: !Fits(p, st, size, n)
  {
    ChunkSizeMeaning(p.height, size);
    forall n: nat
      ensures !Fits(p, st, size, n)
    {
      if n < NodeCount(p.height) { BlockPlacement(p.height, n); }
    }
  }

  lemma FirstExists(p: Pool, st: State, size: nat, n: nat) returns (m: nat)
    requires Structure(p, st) && RequestAllowed(p, st, size) && Fits(p, st, size, n)
    ensures FitsFirst(p, st, size, m)
  {
    BlockPlacement(p.height, n);
    AllocateIsFirstFit(p, st, size);
    m :| FitsFirst(p, st, size, m) && Allocate(p, st, size) == Place(p, st, size, m);
  }

  /**
    The answer to every request: an address if and only if the lowest block
    that fits ends the request within the limit, and then that block's; else
    zero, and nothing becomes live.
   */
  lemma RequestAnswer(p: Pool, st: State, size: nat)
    requires Structure(p, st) && RequestAllowed(p, st, size)
    ensures var (st', a) := Allocate(p, st, size);
            && (a != 0 <==> exists n: nat :: FitsFirst(p, st, size, n) && Word(AddrOf(p, n) + size) <= p.limit)
            && (a != 0 ==> exists n: nat :: FitsFirst(p, st, size, n) && HandsOut(p, st, size, n, st', a))
            && (a == 0 ==> st'.live == st.live && st'.used == st.used)
            && (MaxChunk(p.height) < size <= WORD / 2 ==> st' == st && a == 0)
  {
    if MaxChunk(p.height) < size <= WORD / 2 {
      TooLargeFitsNowhere(p, st, size);
    }
    if n: nat :| Fits(p, st, size, n) {
      FittingAnswer(p, st, size, n);
    } else {
      UnfitOutcome(p, st, size);
    }
  }

  lemma FittingAnswer(p: Pool, st: State, size: nat, n: nat)
    requires Structure(p, st) && RequestAllowed(p, st, size) && Fits(p, st, size, n)
    ensures var (st', a) := Allocate(p, st, size);
            && (a != 0 <==> exists n: nat :: FitsFirst(p, st, size, n) && Word(AddrOf(p, n) + size) <= p.limit)
            && (a != 0 ==> exists n: nat :: FitsFirst(p, st, size, n) && HandsOut(p, st, size, n, st', a))
            && (a == 0 ==> st'.live == st.live && st'.used == st.used)
  {
    var m := FirstExists(p, st, size, n);
    FittingOutcome(p, st, size, m);
    forall k: nat | FitsFirst(p, st, size, k)
      ensures k == m
    {
      SameFirst(p, st, size, k, m);
    }
  }

  /** What a release does: it takes away the block that starts at the address, if there is one, and nothing else. */
  lemma ReleaseAnswer(p: Pool, st: State, addr: nat)
    requires Structure(p, st)
    ensures var (st', res) := Deallocate(p, st, addr);
            && (res != 0 <==> exists n :: StartsAt(p, Blocks(st), addr, n))
            && (res == 0 ==> st' == st) && st'.overbooked == st.overbooked
            && forall n :: StartsAt(p, Blocks(st), addr, n) ==>
                 && res == Size(p.height, n) && st'.used == WordMinus(st.used, res)
                 && st'.live == st.live - {n} && st'.burned == st.burned - {n}
  {
    forall n | StartsAt(p, Blocks(st), addr, n)
      ensures Deallocate(p, st, addr) == (Without(p, st, n), Size(p.height, n)) && Size(p.height, n) > 0
    {
      DeallocateAt(p, st, addr, n);
      BlockPlacement(p.height, n);
    }
  }

  lemma FreeMeansFits(p: Pool, st: State, size: nat, n: nat)
    requires Structure(p, st) && 0 < size < WORD
    ensures n in FreeNodes(p, Blocks(st), ChunkSize(p.height, size)) <==> Fits(p, st, size, n)
  {
    if n < NodeCount(p.height) {
      FreeIffRangeUnused(p, Blocks(st), n);
    }
  }

  lemma LowestIsFirst(p: Pool, st: State, size: nat, m: nat, n: nat)
    requires Structure(p, st) && 0 < size < WORD && Fits(p, st, size, m) && Fits(p, st, size, n) && m <= n
    ensures AddrOf(p, m) <= AddrOf(p, n)
  {
    if m < n {
      SameSizeSameHeight(p.height, m, n);
      SameHeightOrder(p.height, m, n);
    }
  }

  lemma SameSizeSameHeight(h: nat, m: nat, n: nat)
    requires m < NodeCount(h) && n < NodeCount(h) && Size(h, m) == Size(h, n)
    ensures Height(m) == Height(n)
  {
    HeightOfNode(h, m);
    HeightOfNode(h, n);
    if Height(m) < Height(n) {
      Pow2Monotone(h - Height(n), h - Height(m));
    } else if Height(n) < Height(m) {
      Pow2Monotone(h - Height(m), h - Height(n));
    }
  }

  /** Releasing what was just handed out restores the state, and reports the block's size. */
  lemma ReleaseUndoesRequest(p: Pool, st: State, size: nat)
    requires Structure(p, st) && 0 < size < WORD && Allocate(p, st, size).1 != 0
    ensures var (st', addr) := Allocate(p, st, size);
            Deallocate(p, st', addr) == (st, ChunkSize(p.height, size))
  {
    UndoPlace(p, st, size, Least(FreeNodes(p, Blocks(st), ChunkSize(p.height, size))));
  }

  lemma UndoPlace(p: Pool, st: State, size: nat, n: nat)
    requires Structure(p, st) && Placed(p, n, size) && Word(AddrOf(p, n) + size) <= p.limit
    requires forall b :: b in Blocks(st) ==> !Comparable(b, n)
    ensures Deallocate(p, Place(p, st, size, n).0, AddrOf(p, n)) == (st, Size(p.height, n))
  {
    var st' := State(st.live[n := size], st.burned, Word(st.used + Size(p.height, n)), st.overbooked);
    var undone := State(st'.live - {n}, st'.burned - {n}, WordMinus(st'.used, Size(p.height, n)), st'.overbooked);
    assert Place(p, st, size, n).0 == st';
    assert undone == st by {
      PlaceKeeps(p, st, size, n);
      RemoveAdded(st, n, size, Size(p.height, n));
    }
    assert Deallocate(p, st', AddrOf(p, n)) == (undone, Size(p.height, n)) by {
      PlaceKeeps(p, st, size, n);
      assert StartsAt(p, Blocks(st'), AddrOf(p, n), n);
      DeallocateAt(p, st', AddrOf(p, n), n);
    }
  }

  lemma RemoveAdded(st: State, n: nat, size: nat, sz: nat)
    requires n !in Blocks(st) && 0 <= st.used < WORD
    ensures State(st.live[n := size] - {n}, st.burned - {n}, WordMinus(Word(st.used + sz), sz), st.overbooked) == st
  {
    assert st.live[n := size] - {n} == st.live && st.burned - {n} == st.burned;
  }

  /** Release a list of addresses one after the other. */
  ghost function ReleaseAll(p: Pool, st: State, addrs: seq<nat>): State
    decreases addrs
  {
    if addrs == [] then st else ReleaseAll(p, Deallocate(p, st, addrs[0]).0, addrs[1..])
  }

  ghost predicate NoRepeats(addrs: seq<nat>) {
    forall i, j :: 0 <= i < j < |addrs| ==> addrs[i] != addrs[j]
  }

  /**
    Releasing every live address, in any order, leaves only what was burned,
    and takes the live blocks off the counter: to zero, if it was right.
   */
  lemma {:induction false} ReleaseAllEmpties(p: Pool, st: State, addrs: seq<nat>)
    requires Structure(p, st) && NoRepeats(addrs)
    requires forall a :: a in addrs <==> exists n :: StartsAt(p, st.live.Keys, a, n)
    ensures ReleaseAll(p, st, addrs) ==
            State(map[], st.burned, WordMinus(st.used, TotalSize(p.height, st.live.Keys)), st.overbooked)
    decreases addrs
  {
    if addrs == [] {
      forall n | n in st.live
        ensures AddrOf(p, n) in addrs
      {
        LiveAddressListed(p, st, addrs, n);
      }
      assert st.live.Keys == {};
    } else {
      ReleaseFirst(p, st, addrs);
      ReleaseAllEmpties(p, Deallocate(p, st, addrs[0]).0, addrs[1..]);
    }
  }

  lemma ReleaseFirst(p: Pool, st: State, addrs: seq<nat>)
    requires Structure(p, st) && NoRepeats(addrs) && addrs != []
    requires forall a :: a in addrs <==> exists n :: StartsAt(p, st.live.Keys, a, n)
    ensures var st' := Deallocate(p, st, addrs[0]).0;
            && Structure(p, st') && st'.burned == st.burned && st'.overbooked == st.overbooked
            && WordMinus(st'.used, TotalSize(p.height, st'.live.Keys)) ==
               WordMinus(st.used, TotalSize(p.height, st.live.Keys))
            && forall a :: a in addrs[1..] <==> exists n :: StartsAt(p, st'.live.Keys, a, n)
  {
    assert addrs[0] in addrs;
    var n :| StartsAt(p, st.live.Keys, addrs[0], n);
    assert StartsAt(p, Blocks(st), addrs[0], n);
    DeallocateAt(p, st, addrs[0], n);
    RemoveBlock(p, st, n);
    assert n !in st.burned;
    assert st.burned - {n} == st.burned;
    TakenOff(p, st, n);
    ReleasedAddresses(p, st, addrs, n);
  }

  lemma TakenOff(p: Pool, st: State, n: nat)
    requires Structure(p, st) && n in st.live
    ensures var st' := Without(p, st, n);
            WordMinus(st'.used, TotalSize(p.height, st'.live.Keys)) ==
            WordMinus(st.used, TotalSize(p.height, st.live.Keys))
  {
    assert (st.live - {n}).Keys == st.live.Keys - {n};
    TotalSizeRemove(p.height, st.live.Keys, n);
    TotalFitsPool(p, st.live.Keys);
    BlockPlacement(p.height, n);
  }

  lemma LiveAddressListed(p: Pool, st: State, addrs: seq<nat>, n: nat)
    requires n in st.live && forall a :: a in addrs <==> exists m :: StartsAt(p, st.live.Keys, a, m)
    ensures AddrOf(p, n) in addrs
  {
    assert StartsAt(p, st.live.Keys, AddrOf(p, n), n);
  }

  lemma ReleasedAddresses(p: Pool, st: State, addrs: seq<nat>, n: nat)
    requires Structure(p, st) && addrs != [] && NoRepeats(addrs) && StartsAt(p, st.live.Keys, addrs[0], n)
    requires forall a :: a in addrs <==> exists m :: StartsAt(p, st.live.Keys, a, m)
    ensures forall a :: a in addrs[1..] <==> exists m :: StartsAt(p, (st.live - {n}).Keys, a, m)
  {
    assert (st.live - {n}).Keys == st.live.Keys - {n};
    forall a
      ensures a in addrs[1..] <==> exists m :: StartsAt(p, (st.live - {n}).Keys, a, m)
    {
      if a in addrs[1..] {
        assert a in addrs && a != addrs[0];
        var m :| StartsAt(p, st.live.Keys, a, m);
        assert StartsAt(p, (st.live - {n}).Keys, a, m);
      }
      if m :| StartsAt(p, (st.live - {n}).Keys, a, m) {
        assert StartsAt(p, st.live.Keys, a, m);
        assert a in addrs;
        if a == addrs[0] {
          assert StartsAt(p, Blocks(st), a, m) && StartsAt(p, Blocks(st), a, n);
          BlockAtUnique(p, st, a, m, n);
        }
      }
    }
  }

  /** An empty pool hands out all of itself in one block. */
  lemma EmptyPoolServesAll(p: Pool, st: State, size: nat)
    requires ValidPool(p) && Blocks(st) == {} && MaxChunk(p.height) / 2 < size <= MaxChunk(p.height)
    requires p.base + size <= p.limit
    ensures Allocate(p, st, size).1 == p.base
  {
    RootGeometry(p);
    WholePoolChunk(p, size);
    var free := FreeNodes(p, {}, Size(p.height, 0));
    assert 0 in free;
    assert Least(free) == 0;
  }

  lemma RootGeometry(p: Pool)
    requires ValidPool(p)
    ensures 0 < NodeCount(p.height) && Size(p.height, 0) == MaxChunk(p.height) && AddrOf(p, 0) == p.base
  {
    RootBlock(p.height);
  }

  lemma WholePoolChunk(p: Pool, size: nat)
    requires ValidPool(p) && MaxChunk(p.height) / 2 < size <= MaxChunk(p.height)
    ensures 0 < size < WORD && ChunkSize(p.height, size) == MaxChunk(p.height) > 0
  {
    RootGeometry(p);
    MaxChunkExponent(p.height);
    Pow2At63();
    if p.height + 11 > 63 { Pow2Monotone(64, p.height + 11); }
    Pow2Monotone(p.height + 11, 63);
    NextPow2Exponent(size, p.height + 11);
  }
}
