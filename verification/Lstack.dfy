/**
  The free list of api/util/alloc_lstack.hpp: chunk headers kept at the start
  of the free blocks themselves and edited through the link that leads to them.
 */
module Lstack {
  import opened Intervals
  import opened LstackSpec

  datatype Chunk = Chunk(next: nat, size: nat)

  /** Address of the i-th block, zero past the last. */
  function AddrAt(free: seq<Block>, i: nat): nat {
    if i < |free| then free[i].addr else 0
  }

  ghost predicate LinkAt(heap: map<nat, Chunk>, free: seq<Block>, i: nat)
    requires i < |free|
  {
    free[i].addr in heap && heap[free[i].addr] == Chunk(AddrAt(free, i + 1), free[i].size)
  }

  /** The headers in memory link up as this list of blocks. */
  ghost predicate Linked(heap: map<nat, Chunk>, front: nat, free: seq<Block>) {
    front == AddrAt(free, 0) && forall i :: 0 <= i < |free| ==> LinkAt(heap, free, i)
  }

  lemma {:induction false} TwoCounted(free: seq<Block>, i: nat, j: nat, x: nat)
    requires i < j < |free|
    ensures Count(free, x) >= Has(free[i], x) + Has(free[j], x)
    decreases |free|
  {
    var n := |free| - 1;
    if j < n {
      TwoCounted(free[..n], i, j, x);
    } else {
      BlockCounted(free[..n], i, x);
    }
  }

  /** An address inside one block is inside no other. */
  lemma OnlyHolder(free: seq<Block>, k: nat, j: nat, x: nat)
    requires Once(free) && k < |free| && j < |free| && Has(free[k], x) == 1 && Has(free[j], x) == 1
    ensures j == k
  {
    if j < k {
      TwoCounted(free, j, k, x);
    } else if k < j {
      TwoCounted(free, k, j, x);
    }
  }

  /** The link that leads to the k-th block: zero for the front, else the block before. */
  function LinkTo(free: seq<Block>, k: nat): nat
    requires k <= |free|
  {
    if k == 0 then 0 else free[k - 1].addr
  }

  /** Memory after one link has been redirected. */
  function Redirect(heap: map<nat, Chunk>, link: nat, to: nat): map<nat, Chunk>
    requires link != 0 ==> link in heap
  {
    if link == 0 then heap else heap[link := heap[link].(next := to)]
  }

  ghost predicate LinkedOnce(min: nat, heap: map<nat, Chunk>, front: nat, free: seq<Block>) {
    Linked(heap, front, free) && BlocksOk(min, free) && Once(free)
  }

  /** Memory after the k-th block has been unlinked. */
  ghost predicate Unlinked(heap: map<nat, Chunk>, free: seq<Block>, k: nat, heap': map<nat, Chunk>)
    requires k < |free|
  {
    && (LinkTo(free, k) != 0 ==> LinkTo(free, k) in heap)
    && heap' == Redirect(heap, LinkTo(free, k), AddrAt(free, k + 1))
  }

  lemma UnlinkedAt(min: nat, heap: map<nat, Chunk>, front: nat, free: seq<Block>, k: nat,
                   heap': map<nat, Chunk>, free': seq<Block>, i: nat)
    requires LinkedOnce(min, heap, front, free) && k < |free| && Unlinked(heap, free, k, heap')
    requires free' == free[..k] + free[k + 1..] && i < |free'|
    ensures LinkAt(heap', free', i)
  {
    var j := if i < k then i else i + 1;
    assert free'[i] == free[j] && LinkAt(heap, free, j) && BlockOk(min, free[j]);
    if k > 0 && j != k - 1 {
      Apart(min, free, k - 1, j, 0);
    }
    assert i + 1 < |free'| ==> free'[i + 1] == if i + 1 < k then free[i + 1] else free[i + 2];
  }

  lemma UnlinkWhole(min: nat, heap: map<nat, Chunk>, front: nat, free: seq<Block>, k: nat,
                    heap': map<nat, Chunk>, free': seq<Block>)
    requires LinkedOnce(min, heap, front, free) && k < |free| && Unlinked(heap, free, k, heap')
    requires free' == free[..k] + free[k + 1..]
    ensures Linked(heap', if k == 0 then AddrAt(free, 1) else front, free')
  {
    forall i | 0 <= i < |free'|
      ensures LinkAt(heap', free', i)
    {
      UnlinkedAt(min, heap, front, free, k, heap', free', i);
    }
    assert k > 0 ==> free'[0] == free[0];
    assert k == 0 && |free| > 1 ==> free'[0] == free[1];
  }

  /** Memory after the k-th block has been clipped at its front: a header for the rest, the link redirected to it. */
  ghost predicate Clipped(heap: map<nat, Chunk>, free: seq<Block>, k: nat, size: nat, last: Chunk,
                          heap': map<nat, Chunk>)
    requires k < |free| && size <= free[k].size
  {
    var b, at := free[k], free[k].addr + size;
    && (LinkTo(free, k) != 0 ==> LinkTo(free, k) in heap)
    && heap' == Redirect(heap[at := Chunk(AddrAt(free, k + 1), b.size - size)], LinkTo(free, k), at)[b.addr := last]
  }

  lemma ClippedAt(min: nat, heap: map<nat, Chunk>, front: nat, free: seq<Block>, k: nat, size: nat, last: Chunk,
                  heap': map<nat, Chunk>, free': seq<Block>, i: nat)
    requires LinkedOnce(min, heap, front, free) && k < |free| && 0 < size < free[k].size
    requires Clipped(heap, free, k, size, last, heap') && i < |free'|
    requires free' == free[..k] + [Block(free[k].addr + size, free[k].size - size)] + free[k + 1..]
    ensures LinkAt(heap', free', i)
  {
    assert LinkAt(heap, free, i) && BlockOk(min, free[i]);
    assert i != k ==> free'[i] == free[i];
    assert i + 1 < |free'| && i + 1 != k ==> free'[i + 1] == free[i + 1];
    if i != k {
      Apart(min, free, k, i, size);
      if k > 0 && i != k - 1 {
        Apart(min, free, k - 1, i, 0);
      }
    } else if k > 0 {
      Apart(min, free, k, k - 1, size);
    }
  }

  lemma UnlinkFront(min: nat, heap: map<nat, Chunk>, front: nat, free: seq<Block>, k: nat, size: nat, last: Chunk,
                    heap': map<nat, Chunk>, free': seq<Block>)
    requires LinkedOnce(min, heap, front, free) && k < |free| && 0 < size < free[k].size
    requires Clipped(heap, free, k, size, last, heap')
    requires free' == free[..k] + [Block(free[k].addr + size, free[k].size - size)] + free[k + 1..]
    ensures Linked(heap', if k == 0 then free[0].addr + size else front, free')
  {
    forall i | 0 <= i < |free'|
      ensures LinkAt(heap', free', i)
    {
      ClippedAt(min, heap, front, free, k, size, last, heap', free', i);
    }
    assert k > 0 ==> free'[0] == free[0];
    assert k == 0 ==> free'[0].addr == free[0].addr + size;
  }

  lemma PushLinks(min: nat, heap: map<nat, Chunk>, front: nat, free: seq<Block>, b: Block)
    requires Linked(heap, front, free) && BlocksOk(min, free) && Count(free, b.addr) == 0
    ensures Linked(heap[b.addr := Chunk(front, b.size)], b.addr, [b] + free)
  {
    var heap', free' := heap[b.addr := Chunk(front, b.size)], [b] + free;
    forall i | 0 <= i < |free'|
      ensures LinkAt(heap', free', i)
    {
      if i > 0 {
        assert free'[i] == free[i - 1] && LinkAt(heap, free, i - 1) && BlockOk(min, free[i - 1]);
        BlockCounted(free, i - 1, b.addr);
      }
    }
  }

  lemma Apart(min: nat, free: seq<Block>, k: nat, i: nat, size: nat)
    requires BlocksOk(min, free) && Once(free) && k < |free| && i < |free| && i != k && size < free[k].size
    ensures free[i].addr != free[k].addr + size && free[i].addr != free[k].addr
  {
    assert BlockOk(min, free[i]) && BlockOk(min, free[k]);
    if free[i].addr == free[k].addr + size || free[i].addr == free[k].addr {
      OnlyHolder(free, k, i, free[i].addr);
    }
  }

  lemma EmptyIffNoFront(min: nat, heap: map<nat, Chunk>, front: nat, free: seq<Block>)
    requires Linked(heap, front, free) && BlocksOk(min, free)
    ensures front == 0 <==> free == []
  {
    assert free != [] ==> BlockOk(min, free[0]);
  }

  /** What finding and counting a chunk does to the state. */
  ghost predicate Requested(s: State, size: nat, t: State, chunk: nat) {
    var k := FirstFit(s.free, size);
    if k == |s.free| then t == s && chunk == 0
    else
      && chunk == s.free[k].addr
      && t == s.(free := Taken(s.free, k, size), live := s.live + Range(chunk, size), used := s.used + size,
                 end := if chunk + size > s.end then chunk + size else s.end)
  }

  /** It is the state machine's request. */
  lemma AllocatedState(s: State, size: nat, t: State, chunk: nat)
    requires Inv(s) && size % s.min == 0 && (size > 0 || s.free == []) && Requested(s, size, t, chunk)
    ensures Inv(t) && (t, chunk) == LstackSpec.Allocate(s, size)
  {
    if size > 0 {
      AllocateKeeps(s, size);
    }
  }

  /** No list of blocks links up from a chunk without a size. */
  lemma EmptiedBreaks(min: nat, heap: map<nat, Chunk>, front: nat)
    requires front != 0 && front in heap && heap[front].size == 0
    ensures forall list {:trigger Linked(heap, front, list)} :: Linked(heap, front, list) ==> !BlocksOk(min, list)
  {
    forall list | Linked(heap, front, list)
      ensures !BlocksOk(min, list)
    {
      assert LinkAt(heap, list, 0) && !BlockOk(min, list[0]);
    }
  }

  class Lstack {
    const min: nat
    var front: nat
    var heap: map<nat, Chunk>
    var bytesAllocated: int
    var bytesTotal: int
    var allocationEnd: nat
    ghost var free: seq<Block>
    ghost var live: set<nat>
    ghost var donated: set<nat>

    /** The state these fields stand for. */
    ghost function Abs(): State
      reads this
    {
      State(min, free, live, donated, bytesAllocated, bytesTotal, allocationEnd)
    }

    ghost predicate Valid()
      reads this
    {
      Inv(Abs()) && Linked(heap, front, free)
    }

    constructor (m: nat)
      requires m > 0
      ensures Valid() && Abs() == Empty(m)
    {
      min, front, heap, bytesAllocated, bytesTotal, allocationEnd := m, 0, map[], 0, 0, 0;
      free, live, donated := [], {}, {};
    }

    method Push(ptr: nat, size: nat)
      requires Linked(heap, front, free) && BlocksOk(min, free) && Count(free, ptr) == 0
      modifies this`front, this`heap, this`free
      ensures free == [Block(ptr, size)] + old(free) && Linked(heap, front, free)
    {
      PushLinks(min, heap, front, free, Block(ptr, size));
      var oldFront := front;
      front := ptr;
      heap := heap[ptr := Chunk(oldFront, size)];
      free := [Block(ptr, size)] + free;
    }

    /**
      The first chunk large enough, unlinked, or clipped with its rest left in
      its place. Clipping nothing off the front chunk leaves it linked with no
      size.
     */
    method FindFree(size: nat) returns (chunk: nat)
      requires Valid()
      modifies this`front, this`heap, this`free
      ensures var k := FirstFit(old(free), size);
              if old(front) == 0 || k == |old(free)|
              then chunk == 0 && free == old(free) && heap == old(heap) && front == old(front)
              else if size == 0 then chunk == old(front) && Emptied(old(front), old(heap), old(free))
              else && chunk == old(free)[k].addr && free == Taken(old(free), k, size)
                   && Linked(heap, front, free) && chunk in heap && heap[chunk].size == size
    {
      var next, prev := front, 0;
      ghost var k := 0;
      while next != 0
        invariant k <= |free| && next == AddrAt(free, k) && prev == LinkTo(free, k)
        invariant free == old(free) && heap == old(heap) && front == old(front)
        invariant forall i :: 0 <= i < k ==> free[i].size < size
        invariant k > 0 ==> prev in heap
        decreases |free| - k
      {
        assert LinkAt(heap, free, k) && BlockOk(min, free[k]);
        if heap[next].size >= size {
          chunk := Detach(next, prev, size, k);
          return;
        }
        prev := next;
        next := heap[next].next;
        k := k + 1;
      }
      return 0;
    }

    /** Only the size of the front chunk has changed, to zero. */
    ghost predicate Emptied(front0: nat, heap0: map<nat, Chunk>, free0: seq<Block>)
      reads this
    {
      front == front0 && free == free0 && front in heap0 && heap == heap0[front := heap0[front].(size := 0)]
    }

    method Detach(next: nat, prev: nat, size: nat, ghost k: nat) returns (chunk: nat)
      requires Valid() && k < |free| && next == free[k].addr && next in heap && heap[next].size >= size
      requires prev == LinkTo(free, k) && (prev != 0 ==> prev in heap) && (size == 0 ==> k == 0)
      modifies this`front, this`heap, this`free
      ensures chunk == next && old(free)[k].size >= size
      ensures if size == 0 then Emptied(old(front), old(heap), old(free))
              else && free == Taken(old(free), k, size)
                   && Linked(heap, front, free) && chunk in heap && heap[chunk].size == size
    {
      assert LinkAt(heap, free, k) && BlockOk(min, free[k]);
      chunk := next;
      if heap[next].size == size {
        Relink(prev, heap[next].next);
        UnlinkWhole(min, old(heap), old(front), old(free), k, heap, Taken(free, k, size));
      } else {
        heap := heap[next + size := Chunk(heap[next].next, heap[next].size - size)];
        Relink(prev, next + size);
        heap := heap[next := heap[next].(size := size)];
        if size > 0 {
          UnlinkFront(min, old(heap), old(front), old(free), k, size, heap[next], heap, Taken(free, k, size));
        }
      }
      free := if size == 0 then free else Taken(free, k, size);
    }

    /** Redirect a link: the front, or the next field of a chunk. */
    method Relink(prev: nat, to: nat)
      requires prev != 0 ==> prev in heap
      modifies this`front, this`heap
      ensures heap == Redirect(old(heap), prev, to) && front == if prev == 0 then to else old(front)
    {
      if prev == 0 {
        front := to;
      } else {
        heap := heap[prev := heap[prev].(next := to)];
      }
    }

    /**
      Hand out a block, or zero when none is large enough. A request for zero
      bytes breaks a non-empty list: its front chunk is left linked with no size.
     */
    method Allocate(size: nat) returns (chunk: nat)
      requires Valid() && size % min == 0
      modifies this
      ensures size > 0 || old(front) == 0 ==> Valid() && (Abs(), chunk) == LstackSpec.Allocate(old(Abs()), size)
      ensures size == 0 && old(front) != 0 ==>
                && chunk == old(front) && bytesAllocated == old(bytesAllocated)
                && allocationEnd == (if chunk > old(allocationEnd) then chunk else old(allocationEnd))
                && forall list {:trigger Linked(heap, front, list)} :: Linked(heap, front, list) ==>
                  !BlocksOk(min, list)
    {
      ghost var s := Abs();
      EmptyIffNoFront(min, heap, front, free);
      chunk := Take(size);
      if size > 0 || old(front) == 0 {
        AllocatedState(s, size, Abs(), chunk);
      } else {
        EmptiedBreaks(min, heap, front);
      }
    }

    /** Find a chunk and count it. */
    method Take(size: nat) returns (chunk: nat)
      requires Valid()
      modifies this
      ensures size > 0 || old(front) == 0 ==> Linked(heap, front, free) && Requested(old(Abs()), size, Abs(), chunk)
      ensures size == 0 && old(front) != 0 ==>
                && chunk == front == old(front) && front in heap && heap[front].size == 0
                && bytesAllocated == old(bytesAllocated)
                && allocationEnd == if chunk > old(allocationEnd) then chunk else old(allocationEnd)
    {
      EmptyIffNoFront(min, heap, front, free);
      chunk := FindFree(size);
      if chunk != 0 {
        Book(chunk, size);
      }
    }

    /** Count a chunk that has been found, and move the allocation end past it. */
    method Book(chunk: nat, ghost size: nat)
      requires chunk in heap && heap[chunk].size == size
      modifies this`bytesAllocated, this`allocationEnd, this`live
      ensures bytesAllocated == old(bytesAllocated) + size && live == old(live) + Range(chunk, size)
      ensures allocationEnd == if chunk + size > old(allocationEnd) then chunk + size else old(allocationEnd)
    {
      bytesAllocated := bytesAllocated + heap[chunk].size;
      var addrEnd := chunk + heap[chunk].size;
      if addrEnd > allocationEnd {
        allocationEnd := addrEnd;
      }
      live := live + Range(chunk, size);
    }

    /** Take back an aligned range of live bytes. */
    method Deallocate(ptr: nat, size: nat)
      requires Valid() && BlockOk(min, Block(ptr, size)) && Range(ptr, size) <= live
      modifies this
      ensures Valid() && Abs() == LstackSpec.Deallocate(old(Abs()), ptr, size)
    {
      DeallocateKeeps(Abs(), ptr, size);
      assert ptr in Range(ptr, size) && Count(free, ptr) == 0;
      Push(ptr, size);
      bytesAllocated := bytesAllocated - size;
      var addrEnd := ptr + size;
      if addrEnd >= allocationEnd {
        allocationEnd := ptr;
      }
      live := live - Range(ptr, size);
    }

    /** Add memory to the pool. */
    method Donate(ptr: nat, size: nat)
      requires Valid() && BlockOk(min, Block(ptr, size)) && Range(ptr, size) !! donated
      modifies this
      ensures Valid() && Abs() == LstackSpec.Donate(old(Abs()), ptr, size)
    {
      DonateKeeps(Abs(), ptr, size);
      assert ptr in Range(ptr, size) && Count(free, ptr) == 0;
      Push(ptr, size);
      bytesTotal := bytesTotal + size;
      if ptr > allocationEnd {
        allocationEnd := ptr;
      }
      donated := donated + Range(ptr, size);
    }

    method BytesFree() returns (n: int)
      requires Valid()
      ensures n == Sum(free) == |donated| - |live|
    {
      n := bytesTotal - bytesAllocated;
    }

    method ChunkCount() returns (n: nat)
      requires Valid()
      ensures n == |free|
    {
      n := 0;
      var next := front;
      while next != 0
        invariant n <= |free| && next == AddrAt(free, n)
        decreases |free| - n
      {
        assert LinkAt(heap, free, n) && BlockOk(min, free[n]);
        n := n + 1;
        next := heap[next].next;
      }
      assert n < |free| ==> BlockOk(min, free[n]);
    }
  }
}
