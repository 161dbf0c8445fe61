/**
  The buddy allocator of api/util/alloc_buddy.hpp: a class over the flag array,
  with the recursive search and release over node indexes.  Its methods are
  proved against the state machine of BuddySpec.
 */
module Buddy {
  import opened Bits
  import opened BuddyTree
  import opened BuddyNodes
  import opened BuddySearch
  import BuddySpec
  import opened BuddyPool

  class Alloc {
    const nodes: array<bv8>
    const startAddr: nat
    const addrLimit: nat
    const poolSize: nat
    var bytesUsed: int
    var overbooked: bool

    /** Handed-out nodes with the size asked for, and marked but refused ones. */
    ghost var live: map<nat, nat>
    ghost var burned: map<nat, nat>

    function TreeHeight(): nat {
      Fls(nodes.Length)
    }

    function MaxChunksize(): nat {
      if TreeHeight() >= 1 then MIN_SIZE * Pow2(TreeHeight() - 1) else 0
    }

    ghost predicate Shape() {
      && TreeHeight() >= 1 && nodes.Length == NodeCount(TreeHeight())
      && poolSize == Size(TreeHeight(), 0)
      && BuddySpec.ValidPool(PoolOf())
    }

    ghost function PoolOf(): BuddySpec.Pool {
      BuddySpec.Pool(TreeHeight(), startAddr, addrLimit)
    }

    ghost function StateOf(): BuddySpec.State
      reads this
    {
      BuddySpec.State(live, burned, bytesUsed, overbooked)
    }

    /** The flags are consistent and record exactly the blocks given away. */
    ghost predicate Valid()
      reads this, nodes
    {
      && Shape()
      && WellFormed(TreeHeight(), nodes[..])
      && TakenSet(nodes[..]) == BuddySpec.Blocks(StateOf())
      && BuddySpec.Structure(PoolOf(), StateOf())
    }

    /** `bytes_used` counts exactly the live blocks. */
    ghost predicate Counted()
      reads this
    {
      BuddySpec.Counted(PoolOf(), StateOf())
    }

    /**
      `start` is where the flag array lies; the pool begins at the next page
      boundary after it.  `overhead` bounds the buffer from below, as the
      source requires; the pool's addresses must be words.
     */
    constructor (start: nat, bufsize: nat, pool: nat, sizeofAlloc: nat)
      requires sizeofAlloc >= 1
      requires IsPow2(pool) && pool >= MIN_SIZE
      requires bufsize >= Overhead(sizeofAlloc, pool)
      requires 0 < start && start + bufsize < WORD
      requires RoundTo(MIN_SIZE, start + NodesFor(pool)) + pool < WORD
      ensures Valid() && Counted()
      ensures fresh(nodes)
      ensures StateOf() == BuddySpec.Initial && poolSize == pool
      ensures startAddr == RoundTo(MIN_SIZE, start + NodesFor(pool)) && addrLimit == start + bufsize
    {
      NodesForPow2(pool);
      RoundToIsCeiling(MIN_SIZE, start + NodesFor(pool));
      nodes := new bv8[NodesFor(pool)](_ => 0);
      startAddr := RoundTo(MIN_SIZE, start + NodesFor(pool));
      addrLimit := start + bufsize;
      poolSize := pool;
      bytesUsed := 0;
      overbooked := false;
      live := map[];
      burned := map[];
      new;
      RootBlock(TreeHeight());
      assert TakenSet(nodes[..]) == {};
      assert live.Keys == {} && burned.Keys == {};
    }

    /** Size of the block of node i. */
    function NodeSize(i: nat): (sz: nat)
      requires i < NodeCount(TreeHeight())
      ensures sz == Size(TreeHeight(), i)
    {
      HeightOfNode(TreeHeight(), i);
      MIN_SIZE * Pow2(TreeHeight() - Height(i))
    }

    /** Address of the block of node i: its position on its level times its size. */
    function NodeAddr(i: nat): (addr: nat)
      requires i < NodeCount(TreeHeight())
      ensures addr == BuddySpec.AddrOf(PoolOf(), i)
    {
      OffsetFormula(TreeHeight(), i);
      startAddr + Slot(i) * NodeSize(i)
    }

    /** Height `lvl` is that of the nodes of size sz, and lies at or below node i. */
    ghost predicate SizeAt(i: nat, sz: nat, lvl: nat) {
      Height(i) <= lvl <= TreeHeight() && sz == MIN_SIZE * Pow2(TreeHeight() - lvl)
    }

    /** A search under node i took n, the first candidate, or found none and changed nothing. */
    ghost predicate Searched(s: seq<bv8>, t: seq<bv8>, i: nat, lvl: nat, addr: nat, n: nat) {
      if addr == 0 then t == s && NoCandidate(s, i, lvl)
      else
        && FirstCandidate(s, i, lvl, n) && Changed(s, t, i, n, true)
        && addr == BuddySpec.AddrOf(PoolOf(), n) && t[i] != 0
    }

    /** Take the first free node of size `sz` under node i. */
    method AllocateNode(i: nat, sz: nat, ghost lvl: nat) returns (addr: nat, ghost n: nat)
      requires Shape() && i < nodes.Length && SubtreeOk(nodes[..], i)
      requires !Taken(nodes[i]) && sz <= Size(TreeHeight(), i) && SizeAt(i, sz, lvl)
      modifies nodes
      ensures Searched(old(nodes[..]), nodes[..], i, lvl, addr, n)
      decreases nodes.Length - i, 1
    {
      ghost var s := nodes[..];
      addr, n := 0, i;
      NodeCountOdd(TreeHeight());
      SizeIffHeight(TreeHeight(), i, lvl);
      if sz == NodeSize(i) {
        SelfCandidates(s, i);
        if nodes[i] == 0 {
          addr := AllocateSelf(i);
        }
        return;
      }
      if !(Right(i) < nodes.Length) {
        LeafHasNoCandidate(s, i, lvl);
        return;
      }
      CandidatesOfParent(s, i, lvl);
      addr, n := AllocateUnder(i, true, sz, lvl);
      if addr != 0 {
        return;
      }
      addr, n := AllocateUnder(i, false, sz, lvl);
    }

    method SetFlag(i: nat, f: bv8)
      requires i < nodes.Length
      modifies nodes
      ensures nodes[..] == old(nodes[..])[i := old(nodes[i]) | f]
    {
      nodes[i] := nodes[i] | f;
    }

    method ClearFlag(i: nat, f: bv8)
      requires i < nodes.Length
      modifies nodes
      ensures nodes[..] == old(nodes[..])[i := old(nodes[i]) & !f]
    {
      nodes[i] := nodes[i] & !f;
    }

    method AllocateSelf(i: nat) returns (addr: nat)
      requires Shape() && i < nodes.Length && SubtreeOk(nodes[..], i) && nodes[i] == 0
      modifies nodes
      ensures addr == BuddySpec.AddrOf(PoolOf(), i) && addr != 0
      ensures Changed(old(nodes[..]), nodes[..], i, i, true) && nodes[i] != 0
    {
      NodeCountOdd(TreeHeight());
      ChangeSelf(nodes[..], i);
      SetFlag(i, TAKEN);
      addr := NodeAddr(i);
    }

    /** Try one child: skip it when it is full, otherwise search it and set this node's flags for it. */
    method AllocateUnder(i: nat, left: bool, sz: nat, ghost lvl: nat) returns (addr: nat, ghost n: nat)
      requires Shape() && Right(i) < nodes.Length && SubtreeOk(nodes[..], i)
      requires !Taken(nodes[i]) && sz < Size(TreeHeight(), i) && SizeAt(i, sz, lvl)
      modifies nodes
      ensures var s := old(nodes[..]); var c := if left then Left(i) else Right(i);
              if addr == 0 then nodes[..] == s && NoCandidate(s, c, lvl)
              else
                && FirstCandidate(s, c, lvl, n) && Changed(s, nodes[..], i, n, true)
                && addr == BuddySpec.AddrOf(PoolOf(), n) && nodes[i] != 0
      decreases nodes.Length - i, 0
    {
      ghost var s := nodes[..];
      addr, n := 0, i;
      NodeCountOdd(TreeHeight());
      SubtreeOfChildren(s, i);
      var child := if left then Left(i) else Right(i);
      assert SizeAt(child, sz, lvl) && sz <= Size(TreeHeight(), child) by {
        ChildLevel(TreeHeight(), i, lvl);
      }
      if !Full(nodes[child]) {
        addr, n := AllocateNode(child, sz, lvl);
        ghost var t := nodes[..];
        SetChildFlags(i, left, addr != 0);
        if addr != 0 {
          LiftAllocation(s, t, nodes[..], i, left, n);
        }
      } else {
        FullHasNoCandidate(s, child, lvl);
      }
    }

    /** After a search in one child: flag it full if it is, and used if something was found. */
    method SetChildFlags(i: nat, left: bool, found: bool)
      requires Right(i) < nodes.Length
      modifies nodes
      ensures var child := if left then Left(i) else Right(i);
              nodes[..] == old(nodes[..])[i := FlagsSet(old(nodes[i]), old(nodes[child]), left, found)]
    {
      if Full(nodes[if left then Left(i) else Right(i)]) {
        SetFlag(i, if left then LEFT_FULL else RIGHT_FULL);
      }
      if found {
        SetFlag(i, if left then LEFT_USED else RIGHT_USED);
      }
    }

    /** A release under node i freed n, the block starting at ptr, or found none and changed nothing. */
    ghost predicate Released(s: seq<bv8>, t: seq<bv8>, i: nat, ptr: nat, res: nat, n: nat) {
      if res == 0 then t == s && forall m :: m in TakenIn(s, i) ==> BuddySpec.AddrOf(PoolOf(), m) != ptr
      else
        && n in TakenIn(s, i) && BuddySpec.AddrOf(PoolOf(), n) == ptr && res == Size(TreeHeight(), n)
        && Changed(s, t, i, n, false) && !Full(t[i])
    }

    /** A size, when given, must be that of the block found. */
    ghost predicate SizeMatches(s: seq<bv8>, i: nat, ptr: nat, sz: nat) {
      sz != 0 ==> forall m :: m in TakenIn(s, i) && BuddySpec.AddrOf(PoolOf(), m) == ptr ==> Size(TreeHeight(), m) == sz
    }

    /** Free the block starting at ptr in the subtree of node i; result is its size. */
    method DeallocateNode(i: nat, ptr: nat, sz: nat) returns (res: nat, ghost n: nat)
      requires Shape() && i < nodes.Length && SubtreeOk(nodes[..], i)
      requires SizeMatches(nodes[..], i, ptr, sz)
      modifies nodes
      ensures Released(old(nodes[..]), nodes[..], i, ptr, res, n)
      decreases nodes.Length - i, 1
    {
      ghost var s := nodes[..];
      ghost var h := TreeHeight();
      res, n := 0, i;
      NodeCountOdd(h);
      if !(NodeAddr(i) <= ptr < NodeAddr(i) + NodeSize(i)) {
        BlocksStartInside(h, s, i, ptr - startAddr);
        return;
      }
      if Taken(nodes[i]) {
        TakenAlone(s, i);
        if ptr != NodeAddr(i) {
          return;
        }
        res := DeallocateSelf(i);
        return;
      }
      if !(Right(i) < nodes.Length) {
        TakenInSplit(s, i);
        return;
      }
      if ptr < NodeAddr(i) + NodeSize(i) / 2 {
        res, n := DeallocateUnder(i, true, ptr, sz);
      } else {
        res, n := DeallocateUnder(i, false, ptr, sz);
      }
    }

    method DeallocateSelf(i: nat) returns (res: nat)
      requires Shape() && i < nodes.Length && SubtreeOk(nodes[..], i) && Taken(nodes[i])
      modifies nodes
      ensures Changed(old(nodes[..]), nodes[..], i, i, false) && nodes[i] == 0
      ensures res == Size(TreeHeight(), i) && res != 0
    {
      NodeCountOdd(TreeHeight());
      ChangeSelf(nodes[..], i);
      nodes[i] := 0;
      assert nodes[..] == old(nodes[..])[i := 0];
      BlockPlacement(TreeHeight(), i);
      res := NodeSize(i);
    }

    /** Release in one child and clear this node's flags for it where they no longer apply. */
    method DeallocateUnder(i: nat, left: bool, ptr: nat, sz: nat) returns (res: nat, ghost n: nat)
      requires Shape() && Right(i) < nodes.Length && SubtreeOk(nodes[..], i) && !Taken(nodes[i])
      requires left == (ptr - startAddr < Offset(TreeHeight(), i) + Size(TreeHeight(), i) / 2)
      requires SizeMatches(nodes[..], i, ptr, sz)
      modifies nodes
      ensures Released(old(nodes[..]), nodes[..], i, ptr, res, n)
      decreases nodes.Length - i, 0
    {
      ghost var s := nodes[..];
      NodeCountOdd(TreeHeight());
      SubtreeOfChildren(s, i);
      BlocksOnOneSide(TreeHeight(), s, i, ptr - startAddr, left);
      var child := if left then Left(i) else Right(i);
      res, n := DeallocateNode(child, ptr, sz);
      ghost var t := nodes[..];
      ClearChildFlags(i, left);
      if res != 0 {
        LiftRelease(s, t, nodes[..], i, left, n);
      } else {
        IdleClearing(s, i, left);
      }
    }

    /** After a release in one child: clear its full flag unless it is full, and its used flag if it is free. */
    method ClearChildFlags(i: nat, left: bool)
      requires Right(i) < nodes.Length
      modifies nodes
      ensures var child := if left then Left(i) else Right(i);
              nodes[..] == old(nodes[..])[i := FlagsCleared(old(nodes[i]), old(nodes[child]), left)]
    {
      var child := if left then Left(i) else Right(i);
      if !Full(nodes[child]) {
        ClearFlag(i, if left then LEFT_FULL else RIGHT_FULL);
      }
      if nodes[child] == 0 {
        ClearFlag(i, if left then LEFT_USED else RIGHT_USED);
      }
    }

    function Chunksize(wanted: nat): (sz: nat)
      requires Shape() && 0 < wanted < WORD
      ensures sz == BuddySpec.ChunkSize(TreeHeight(), wanted)
    {
      var sz := NextPow2(wanted);
      if sz > MaxChunksize() then 0 else if sz < MIN_SIZE then MIN_SIZE else sz
    }

    /**
      Hand out a block for `size` bytes, or zero.  The source demands that the
      root is not itself a taken block when the search starts.
     */
    method Allocate(size: nat) returns (p: nat)
      requires Valid() && BuddySpec.RequestAllowed(PoolOf(), StateOf(), size)
      modifies this, nodes
      ensures Valid()
      ensures (StateOf(), p) == BuddySpec.Allocate(PoolOf(), old(StateOf()), size)
      ensures old(Counted()) ==> Counted()
    {
      ghost var st := StateOf();
      BuddySpec.AllocateKeeps(PoolOf(), st, size);
      var sz := Chunksize(size);
      if sz == 0 {
        return 0;
      }
      ghost var lvl := LevelOf(size);
      WellFormedSubtree(TreeHeight(), nodes[..], 0);
      var res, n := AllocateNode(0, sz, lvl);
      SearchMeetsSpec(old(nodes[..]), nodes[..], st, size, lvl, res, n);
      p := Settle(res, size, sz, n);
    }

    /** Book the outcome of a search; past the limit the node stays marked but nothing is handed out. */
    method Settle(res: nat, size: nat, sz: nat, ghost n: nat) returns (p: nat)
      requires res != 0 ==> res == BuddySpec.AddrOf(PoolOf(), n) && sz == Size(TreeHeight(), n)
      requires 0 < size < WORD && addrLimit < WORD
      modifies this
      ensures (StateOf(), p) ==
              if res != 0 then BuddySpec.Place(PoolOf(), old(StateOf()), size, n)
              else (if size > addrLimit then old(StateOf()).(overbooked := true) else old(StateOf()), 0)
    {
      if Word(res + size) > addrLimit {
        overbooked := true;
        burned := if res != 0 then burned[n := size] else burned;
        p := 0;
      } else {
        if res != 0 {
          bytesUsed := Word(bytesUsed + sz);
          live := live[n := size];
        }
        p := res;
      }
    }

    lemma LevelOf(size: nat) returns (lvl: nat)
      requires Shape() && 0 < size < WORD && BuddySpec.ChunkSize(TreeHeight(), size) != 0
      ensures SizeAt(0, BuddySpec.ChunkSize(TreeHeight(), size), lvl)
      ensures BuddySpec.ChunkSize(TreeHeight(), size) <= Size(TreeHeight(), 0)
    {
      BuddySpec.ChunkSizeMeaning(TreeHeight(), size);
      RootBlock(TreeHeight());
      var e: nat :| e < TreeHeight() && BuddySpec.ChunkSize(TreeHeight(), size) == MIN_SIZE * Pow2(e);
      lvl := TreeHeight() - e;
      Pow2Monotone(e, TreeHeight() - 1);
    }

    /** What the search did to the array is what the state machine prescribes. */
    lemma SearchMeetsSpec(s: seq<bv8>, t: seq<bv8>, st: BuddySpec.State, size: nat, lvl: nat, res: nat, n: nat)
      requires Shape() && WellFormed(TreeHeight(), s) && 0 < size < WORD
      requires TakenSet(s) == BuddySpec.Blocks(st)
      requires SizeAt(0, BuddySpec.ChunkSize(TreeHeight(), size), lvl) && BuddySpec.ChunkSize(TreeHeight(), size) != 0
      requires Searched(s, t, 0, lvl, res, n)
      ensures BuddySpec.Allocate(PoolOf(), st, size) ==
              if res != 0 then BuddySpec.Place(PoolOf(), st, size, n)
              else (if size > addrLimit then st.(overbooked := true) else st, 0)
      ensures WellFormed(TreeHeight(), t)
      ensures TakenSet(t) == BuddySpec.Blocks(BuddySpec.Allocate(PoolOf(), st, size).0)
      ensures res != 0 ==> Size(TreeHeight(), n) == BuddySpec.ChunkSize(TreeHeight(), size)
    {
      SearchIsLeast(s, t, lvl, BuddySpec.ChunkSize(TreeHeight(), size), res, n);
      if res != 0 {
        assert BuddySpec.Blocks(BuddySpec.Place(PoolOf(), st, size, n).0) == BuddySpec.Blocks(st) + {n};
      }
    }

    /** A search from the root finds the least free node, and only that node becomes taken. */
    lemma SearchIsLeast(s: seq<bv8>, t: seq<bv8>, lvl: nat, sz: nat, addr: nat, n: nat)
      requires Shape() && WellFormed(TreeHeight(), s) && SizeAt(0, sz, lvl)
      requires Searched(s, t, 0, lvl, addr, n)
      ensures var free := BuddySpec.FreeNodes(PoolOf(), TakenSet(s), sz);
              if addr == 0 then free == {} && t == s
              else
                && free != {} && n == BuddySpec.Least(free)
                && WellFormed(TreeHeight(), t) && TakenSet(t) == TakenSet(s) + {n}
    {
      var free := BuddySpec.FreeNodes(PoolOf(), TakenSet(s), sz);
      TakenInRoot(s);
      forall m: nat
        ensures m in free <==> Candidate(s, 0, lvl, m)
      {
        WithinRoot(m);
        HeightOfNode(TreeHeight(), m);
        if m < |s| { SizeAtHeight(TreeHeight(), m, lvl); }
      }
      if addr != 0 {
        ChangedFromRoot(TreeHeight(), s, t, n, true);
      }
    }

    /**
      Release the block at addr.  With a size, the source demands that a block
      of that chunk size starts there; without one, any address below the limit
      will do.  The byte counter stays right exactly when addr is not that of a
      block that was marked but never handed out.
     */
    method Deallocate(addr: nat, size: nat)
      requires Valid() && BuddySpec.ReleaseAllowed(PoolOf(), StateOf(), addr, size)
      modifies this, nodes
      ensures Valid()
      ensures StateOf() == BuddySpec.Deallocate(PoolOf(), old(StateOf()), addr).0
      ensures old(Counted()) ==>
                (Counted() <==> !exists n :: BuddySpec.StartsAt(PoolOf(), old(burned).Keys, addr, n))
    {
      ghost var st := StateOf();
      ghost var s := nodes[..];
      BuddySpec.DeallocateKeeps(PoolOf(), st, addr);
      var sz := if size != 0 then Chunksize(size) else 0;
      WellFormedSubtree(TreeHeight(), s, 0);
      RootBlock(TreeHeight());
      SizeDemand(s, st, addr, sz);
      var res, n := DeallocateNode(0, addr, sz);
      ReleaseMeetsSpec(s, nodes[..], st, addr, res, n);
      Book(res, n);
    }

    /** Book a release. */
    method Book(res: nat, ghost n: nat)
      requires bytesUsed >= 0 && (res != 0 ==> res == Size(TreeHeight(), n))
      modifies this
      ensures StateOf() == if res != 0 then BuddySpec.Without(PoolOf(), old(StateOf()), n) else old(StateOf())
    {
      if res != 0 {
        live, burned := live - {n}, burned - {n};
      }
      bytesUsed := WordMinus(bytesUsed, res);
    }

    lemma SizeDemand(s: seq<bv8>, st: BuddySpec.State, addr: nat, sz: nat)
      requires Shape() && TakenSet(s) == BuddySpec.Blocks(st) && BuddySpec.Structure(PoolOf(), st)
      requires sz != 0 ==> BuddySpec.Deallocate(PoolOf(), st, addr).1 == sz
      ensures SizeMatches(s, 0, addr, sz)
    {
      TakenInRoot(s);
      forall m | m in TakenIn(s, 0) && BuddySpec.AddrOf(PoolOf(), m) == addr
        ensures sz != 0 ==> Size(TreeHeight(), m) == sz
      {
        assert BuddySpec.StartsAt(PoolOf(), BuddySpec.Blocks(st), addr, m);
        BuddySpec.DeallocateAt(PoolOf(), st, addr, m);
      }
    }

    /** What the release did to the array is what the state machine prescribes. */
    lemma ReleaseMeetsSpec(s: seq<bv8>, t: seq<bv8>, st: BuddySpec.State, addr: nat, res: nat, n: nat)
      requires Shape() && WellFormed(TreeHeight(), s) && BuddySpec.Structure(PoolOf(), st)
      requires TakenSet(s) == BuddySpec.Blocks(st) && Released(s, t, 0, addr, res, n)
      ensures BuddySpec.Deallocate(PoolOf(), st, addr) ==
              (if res != 0 then BuddySpec.Without(PoolOf(), st, n) else st, res)
      ensures WellFormed(TreeHeight(), t)
      ensures TakenSet(t) == BuddySpec.Blocks(BuddySpec.Deallocate(PoolOf(), st, addr).0)
      ensures res != 0 ==> res == Size(TreeHeight(), n)
    {
      TakenInRoot(s);
      if res != 0 {
        assert BuddySpec.StartsAt(PoolOf(), BuddySpec.Blocks(st), addr, n);
        BuddySpec.DeallocateAt(PoolOf(), st, addr, n);
        ChangedFromRoot(TreeHeight(), s, t, n, false);
        BuddySpec.RemoveBlock(PoolOf(), st, n);
      } else {
        forall m
          ensures !BuddySpec.StartsAt(PoolOf(), BuddySpec.Blocks(st), addr, m)
        {
          assert m in BuddySpec.Blocks(st) ==> m in TakenIn(s, 0);
        }
      }
    }

    function Capacity(): int {
      WordMinus(addrLimit, startAddr)
    }

    function BytesUnavailable(): int {
      WordMinus(poolSize, Capacity())
    }

    /**
      The capacity less the live blocks.  As a block may run past the limit,
      they can add up to more than the capacity, and then it wraps.
     */
    function BytesFree(): (r: int)
      requires Valid()
      reads this, nodes
      ensures Counted() ==> r == WordMinus(WordMinus(addrLimit, startAddr), TotalSize(TreeHeight(), live.Keys))
    {
      WordMinus(WordMinus(poolSize, bytesUsed), BytesUnavailable())
    }

    /** The byte count by walking the tree: the counter, plus what was marked past the limit. */
    function BytesUsedRecursive(): (r: nat)
      requires Valid()
      reads this, nodes
      ensures r == TotalSize(TreeHeight(), live.Keys) + TotalSize(TreeHeight(), burned.Keys)
      ensures Counted() ==> r == bytesUsed + TotalSize(TreeHeight(), burned.Keys)
    {
      RootBlock(TreeHeight());
      ArrayMeaning(PoolOf(), StateOf(), nodes[..]);
      BytesUsedR(TreeHeight(), nodes[..], 0)
    }

    /** End of the highest block given away, the pool's start if there is none, cut off at the limit. */
    function HighestUsed(): (r: int)
      requires Valid()
      reads this, nodes
      ensures HighestCut(PoolOf(), StateOf(), r)
    {
      RootBlock(TreeHeight());
      var top := startAddr + HighestUsedR(TreeHeight(), nodes[..], 0);
      var end := Word(startAddr + Capacity());
      var r := if top < end then top else end;
      HighestEnd(PoolOf(), StateOf(), nodes[..], r);
      r
    }
  }

  /** Where the block of a node ends. */
  ghost function EndOf(p: BuddySpec.Pool, n: nat): nat {
    BuddySpec.AddrOf(p, n) + Size(p.height, n)
  }

  /** No block given away ends above that of n. */
  ghost predicate Highest(p: BuddySpec.Pool, st: BuddySpec.State, n: nat) {
    n in BuddySpec.Blocks(st) && forall m :: m in BuddySpec.Blocks(st) ==> EndOf(p, m) <= EndOf(p, n)
  }

  /** The end of the highest block, or the pool's start if there is none, but no more than the limit. */
  ghost predicate HighestCut(p: BuddySpec.Pool, st: BuddySpec.State, r: int) {
    if BuddySpec.Blocks(st) == {} then r == if p.base < p.limit then p.base else p.limit
    else exists n :: Highest(p, st, n) && r == if EndOf(p, n) < p.limit then EndOf(p, n) else p.limit
  }

  lemma HighestEnd(p: BuddySpec.Pool, st: BuddySpec.State, s: seq<bv8>, r: int)
    requires BuddySpec.Structure(p, st) && WellFormed(p.height, s) && TakenSet(s) == BuddySpec.Blocks(st) && |s| > 0
    requires var top := p.base + HighestUsedR(p.height, s, 0); r == if top < p.limit then top else p.limit
    ensures HighestCut(p, st, r)
  {
    ArrayMeaning(p, st, s);
    if BuddySpec.Blocks(st) != {} {
      var n :| n in BuddySpec.Blocks(st) && Offset(p.height, n) + Size(p.height, n) == HighestUsedR(p.height, s, 0);
      assert Highest(p, st, n);
    }
  }

  /** The least buffer for a pool: overbooking only needs room for the flags. */
  function MinBufsize(policy: Policy, sizeofAlloc: nat, pool: nat): nat
    requires sizeofAlloc >= 1
  {
    Overhead(sizeofAlloc, pool) + if policy == Overbook then 0 else RoundTo(MIN_SIZE, pool)
  }

  /**
    Make an allocator in a buffer, with itself and then its flags at the start.
    In page-aligned memory the pool lies within the buffer if and only if it
    fits together with its overhead, which underbooking asks for.
   */
  method Create(policy: Policy, addr: nat, bufsize: nat, sizeofAlloc: nat) returns (a: Alloc)
    requires 2 <= sizeofAlloc < MIN_SIZE && 2 * MIN_SIZE <= bufsize < WORD && 0 < addr && addr + bufsize < WORD
    requires var pool := PoolSize(policy, sizeofAlloc, bufsize);
             && IsPow2(pool) && pool >= MIN_SIZE && bufsize >= MinBufsize(policy, sizeofAlloc, pool)
             && bufsize - sizeofAlloc >= Overhead(sizeofAlloc, pool)
             && RoundTo(MIN_SIZE, addr + sizeofAlloc + NodesFor(pool)) + pool < WORD
    ensures fresh(a) && fresh(a.nodes) && a.Valid() && a.StateOf() == BuddySpec.Initial
    ensures a.poolSize == PoolSize(policy, sizeofAlloc, bufsize) && a.addrLimit == addr + bufsize
    ensures addr % MIN_SIZE == 0 ==>
              && a.startAddr == addr + Overhead(sizeofAlloc, a.poolSize)
              && (BuddySpec.Burns(a.PoolOf()) <==> bufsize < a.poolSize + Overhead(sizeofAlloc, a.poolSize))
              && (policy == Underbook ==> !BuddySpec.Burns(a.PoolOf()))
  {
    var pool := PoolSize(policy, sizeofAlloc, bufsize);
    a := new Alloc(addr + sizeofAlloc, bufsize - sizeofAlloc, pool, sizeofAlloc);
    if addr % MIN_SIZE == 0 {
      AlignedPool(a.PoolOf(), policy, addr, bufsize, sizeofAlloc, pool);
    }
  }

  lemma AlignedPool(p: BuddySpec.Pool, policy: Policy, addr: nat, bufsize: nat, sizeofAlloc: nat, pool: nat)
    requires BuddySpec.ValidPool(p) && Size(p.height, 0) == pool >= MIN_SIZE && sizeofAlloc >= 1
    requires addr % MIN_SIZE == 0 && p.base == RoundTo(MIN_SIZE, addr + sizeofAlloc + NodesFor(pool))
    requires p.limit == addr + bufsize && bufsize >= MinBufsize(policy, sizeofAlloc, pool)
    ensures p.base == addr + Overhead(sizeofAlloc, pool)
    ensures BuddySpec.Burns(p) <==> bufsize < pool + Overhead(sizeofAlloc, pool)
    ensures policy == Underbook ==> !BuddySpec.Burns(p)
  {
    assert p.base == addr + Overhead(sizeofAlloc, pool) by {
      RoundFromPage(addr, sizeofAlloc + NodesFor(pool));
    }
    assert RoundTo(MIN_SIZE, pool) >= pool by {
      RoundToIsCeiling(MIN_SIZE, pool);
    }
    BuddySpec.RootGeometry(p);
    BuddySpec.BurnsExactly(p);
  }

  lemma RoundFromPage(addr: nat, x: nat)
    requires addr % MIN_SIZE == 0
    ensures RoundTo(MIN_SIZE, addr + x) == addr + RoundTo(MIN_SIZE, x)
  {
  }

  /**
    In every state, what the array answers: at every node the one-byte queries
    agree with the recursive ones; the recursive byte count is the counter plus
    the burned blocks; the highest-used query finds the largest end of a block.
   */
  lemma ArrayMeaning(p: BuddySpec.Pool, st: BuddySpec.State, s: seq<bv8>)
    requires BuddySpec.Structure(p, st) && WellFormed(p.height, s) && TakenSet(s) == BuddySpec.Blocks(st)
    ensures forall i: nat :: i < |s| ==> (Full(s[i]) <==> IsFullR(s, i)) && (s[i] == 0 <==> IsFreeR(s, i))
    ensures |s| > 0 && BytesUsedR(p.height, s, 0) ==
                       TotalSize(p.height, st.live.Keys) + TotalSize(p.height, st.burned.Keys)
    ensures BuddySpec.Counted(p, st) ==>
              BytesUsedR(p.height, s, 0) == st.used + TotalSize(p.height, st.burned.Keys)
    ensures forall n :: n in BuddySpec.Blocks(st) ==>
                          Offset(p.height, n) + Size(p.height, n) <= HighestUsedR(p.height, s, 0)
    ensures if BuddySpec.Blocks(st) == {} then HighestUsedR(p.height, s, 0) == 0
            else exists n :: n in BuddySpec.Blocks(st) &&
                             Offset(p.height, n) + Size(p.height, n) == HighestUsedR(p.height, s, 0)
  {
    RootBlock(p.height);
    forall i: nat | i < |s|
      ensures (Full(s[i]) <==> IsFullR(s, i)) && (s[i] == 0 <==> IsFreeR(s, i))
    {
      WellFormedSubtree(p.height, s, i);
      FastQueriesAgree(s, i);
    }
    WellFormedSubtree(p.height, s, 0);
    TakenInRoot(s);
    BytesUsedIsTotal(p.height, s, 0);
    TotalSizeUnion(p.height, st.live.Keys, st.burned.Keys);
    HighestUsedIsMax(p.height, s, 0);
  }

  /** Coalescing is complete: releasing what was just handed out restores the array byte for byte. */
  lemma ReleaseRestoresArray(p: BuddySpec.Pool, st: BuddySpec.State, size: nat, s: seq<bv8>, t: seq<bv8>)
    requires BuddySpec.Structure(p, st) && 0 < size < WORD && BuddySpec.Allocate(p, st, size).1 != 0
    requires WellFormed(p.height, s) && TakenSet(s) == BuddySpec.Blocks(st)
    requires
      var (st1, addr) := BuddySpec.Allocate(p, st, size);
      WellFormed(p.height, t) && TakenSet(t) == BuddySpec.Blocks(BuddySpec.Deallocate(p, st1, addr).0)
    ensures t == s
  {
    BuddySpec.ReleaseUndoesRequest(p, st, size);
    Canonical(p.height, s, t);
  }

  /** A size only the whole pool can serve, and that it can. */
  ghost predicate WholePool(p: BuddySpec.Pool, size: nat)
    requires p.height >= 1
  {
    BuddySpec.MaxChunk(p.height) / 2 < size <= BuddySpec.MaxChunk(p.height) && p.base + size <= p.limit
  }

  /**
    Releasing every live address in any order leaves the all-zero array if and
    only if nothing was burned, and the whole pool can then be handed out in
    one block.
   */
  lemma DrainedArrayIsZero(p: BuddySpec.Pool, st: BuddySpec.State, addrs: seq<nat>, t: seq<bv8>, size: nat)
    requires BuddySpec.Structure(p, st) && BuddySpec.NoRepeats(addrs)
    requires forall a :: a in addrs <==> exists n :: BuddySpec.StartsAt(p, st.live.Keys, a, n)
    requires WellFormed(p.height, t) && TakenSet(t) == BuddySpec.Blocks(BuddySpec.ReleaseAll(p, st, addrs))
    ensures (forall i: nat :: i < |t| ==> t[i] == 0) <==> st.burned == map[]
    ensures var drained := BuddySpec.ReleaseAll(p, st, addrs);
            st.burned == map[] && WholePool(p, size) ==> BuddySpec.Allocate(p, drained, size).1 == p.base
  {
    BuddySpec.ReleaseAllEmpties(p, st, addrs);
    var drained := BuddySpec.ReleaseAll(p, st, addrs);
    assert drained.live.Keys == {} && BuddySpec.Blocks(drained) == st.burned.Keys;
    ZeroIffNoneTaken(p.height, t);
    if st.burned == map[] {
      assert BuddySpec.Blocks(drained) == {};
      if WholePool(p, size) {
        BuddySpec.EmptyPoolServesAll(p, drained, size);
      }
    } else {
      var n :| n in st.burned;
      assert n in TakenSet(t);
    }
  }

  lemma ZeroIffNoneTaken(h: nat, t: seq<bv8>)
    requires WellFormed(h, t)
    ensures (forall i: nat :: i < |t| ==> t[i] == 0) <==> TakenSet(t) == {}
  {
    if TakenSet(t) == {} {
      forall i: nat | i < |t|
        ensures t[i] == 0
      {
        WellFormedSubtree(h, t, i);
        ZeroIffIdle(t, i);
        assert TakenIn(t, i) <= TakenSet(t);
      }
    }
  }

  lemma SizeAtHeight(h: nat, i: nat, lvl: nat)
    requires i < NodeCount(h) && lvl <= h
    ensures Size(h, i) == MIN_SIZE * Pow2(h - lvl) <==> Height(i) == lvl
  {
    HeightOfNode(h, i);
    if Height(i) < lvl {
      Pow2Monotone(h - lvl, h - Height(i));
    } else if Height(i) > lvl {
      Pow2Monotone(h - Height(i), h - lvl);
    }
  }

  lemma ChangedFromRoot(h: nat, s: seq<bv8>, t: seq<bv8>, n: nat, now: bool)
    requires WellFormed(h, s) && Changed(s, t, 0, n, now)
    ensures WellFormed(h, t)
    ensures TakenSet(t) == if now then TakenSet(s) + {n} else TakenSet(s) - {n}
  {
    forall j: nat ensures Within(0, j) { WithinRoot(j); }
  }

  lemma SizeIffHeight(h: nat, i: nat, lvl: nat)
    requires i < NodeCount(h) && Height(i) <= lvl <= h
    ensures Size(h, i) == MIN_SIZE * Pow2(h - lvl) <==> Height(i) == lvl
    ensures Size(h, i) >= MIN_SIZE * Pow2(h - lvl)
  {
    if Height(i) < lvl {
      Pow2Monotone(h - lvl, h - Height(i));
    }
  }

  lemma ChildLevel(h: nat, i: nat, lvl: nat)
    requires Right(i) < NodeCount(h) && Height(i) <= lvl <= h && MIN_SIZE * Pow2(h - lvl) < Size(h, i)
    ensures Height(Left(i)) == Height(Right(i)) <= lvl
    ensures MIN_SIZE * Pow2(h - lvl) <= Size(h, Left(i)) == Size(h, Right(i))
  {
    ChildGeometry(h, i);
    SizeIffHeight(h, i, lvl);
    SizeIffHeight(h, Left(i), lvl);
  }

  /** A parent's byte after a search in a child whose byte is now `child`. */
  function FlagsSet(f: bv8, child: bv8, left: bool, found: bool): bv8 {
    var g := if Full(child) then f | (if left then LEFT_FULL else RIGHT_FULL) else f;
    if found then g | (if left then LEFT_USED else RIGHT_USED) else g
  }

  /** A parent's byte after a release in a child whose byte is now `child`. */
  function FlagsCleared(f: bv8, child: bv8, left: bool): bv8 {
    var g := if !Full(child) then f & !(if left then LEFT_FULL else RIGHT_FULL) else f;
    if child == 0 then g & !(if left then LEFT_USED else RIGHT_USED) else g
  }

  /** An allocation in one child, with the parent's flags set as the source sets them. */
  lemma LiftAllocation(s: seq<bv8>, t: seq<bv8>, u: seq<bv8>, i: nat, left: bool, n: nat)
    requires Shaped(s) && IsParent(s, i) && SubtreeOk(s, i) && !Taken(s[i])
    requires var c := if left then Left(i) else Right(i);
             && !Full(s[c]) && Changed(s, t, c, n, true) && t[c] != 0
             && u == t[i := FlagsSet(t[i], t[c], left, true)]
    ensures Changed(s, u, i, n, true) && u[i] != 0
  {
    var c := if left then Left(i) else Right(i);
    var d := if left then Right(i) else Left(i);
    assert Within(i, i) && NodeOk(s, i);
    SiblingKept(s, t, i, c, d, n, true);
    SetFlagsSummarise(s[Left(i)], s[Right(i)], t[c], left);
    LiftChange(s, t, u, i, c, d, n, true);
  }

  lemma SetFlagsSummarise(l: bv8, r: bv8, child: bv8, left: bool)
    requires child != 0 && !Full(if left then l else r)
    ensures FlagsSet(Summary(l, r), child, left, true) == (if left then Summary(child, r) else Summary(l, child)) != 0
  {
  }

  /** A release in one child, with the parent's flags cleared as the source clears them. */
  lemma LiftRelease(s: seq<bv8>, t: seq<bv8>, u: seq<bv8>, i: nat, left: bool, n: nat)
    requires Shaped(s) && IsParent(s, i) && SubtreeOk(s, i) && !Taken(s[i])
    requires var c := if left then Left(i) else Right(i);
             && Changed(s, t, c, n, false) && !Full(t[c])
             && u == t[i := FlagsCleared(t[i], t[c], left)]
    ensures Changed(s, u, i, n, false) && !Full(u[i])
  {
    var c := if left then Left(i) else Right(i);
    var d := if left then Right(i) else Left(i);
    assert Within(i, i) && NodeOk(s, i);
    SiblingKept(s, t, i, c, d, n, false);
    SubtreeOfChildren(s, i);
    ZeroIffIdle(s, c);
    assert n in TakenIn(s, c);
    ClearFlagsSummarise(s[Left(i)], s[Right(i)], t[c], left);
    LiftChange(s, t, u, i, c, d, n, false);
  }

  lemma ClearFlagsSummarise(l: bv8, r: bv8, child: bv8, left: bool)
    requires !Full(child) && (if left then l else r) != 0
    ensures FlagsCleared(Summary(l, r), child, left) == if left then Summary(child, r) else Summary(l, child)
    ensures !Full(FlagsCleared(Summary(l, r), child, left))
  {
  }

  /** Where nothing was released, clearing flags that do not apply changes nothing. */
  lemma IdleClearing(s: seq<bv8>, i: nat, left: bool)
    requires IsParent(s, i) && SubtreeOk(s, i) && !Taken(s[i])
    ensures FlagsCleared(s[i], s[if left then Left(i) else Right(i)], left) == s[i]
  {
    assert Within(i, i) && NodeOk(s, i);
  }
}
