/**
  The port allocator of api/net/port_util.hpp over the bitmap of
  api/util/membitmap.hpp and api/util/fixed_bitmap.hpp. A set bit is a free port.
 */
module Ports {

  const CHUNK_SIZE := 32
  const DYNAMIC_START := 49152
  const DYNAMIC_END := 65535
  const PORTS := 65536

  /** Dynamic ports: those from 49152 to 65535. */
  const SIZE := DYNAMIC_END + 1 - DYNAMIC_START

  /** Words behind the bitmap of all ports: a quarter of its bits, as it is sized by bytes per word. */
  const STORAGE := PORTS / 4

  /** The view on the dynamic ports: its first word, and its words. */
  const VIEW_START := DYNAMIC_START / CHUNK_SIZE
  const VIEW_CHUNKS := SIZE / 4

  /** A 32-bit word as its bits, the lowest first. */
  type chunk = w: seq<bool> | |w| == 32 witness seq(32, _ => false)

  function BitAt(data: seq<chunk>, b: nat): bool
    requires b / CHUNK_SIZE < |data|
  {
    data[b / CHUNK_SIZE][b % CHUNK_SIZE]
  }

  /** Position of the lowest set bit of a word from the b-th on, or 32. */
  function Ffs(w: chunk, b: nat): (r: nat)
    requires b <= CHUNK_SIZE
    ensures b <= r <= CHUNK_SIZE && (r < CHUNK_SIZE ==> w[r]) && forall k :: b <= k < r ==> !w[k]
    decreases w, CHUNK_SIZE - b
  {
    if b == CHUNK_SIZE || w[b] then b else Ffs(w, b + 1)
  }

  /** The bits from lo to hi are all clear, or all set. */
  ghost predicate All(data: seq<chunk>, lo: nat, hi: nat, v: bool)
    requires hi <= CHUNK_SIZE * |data|
  {
    forall b {:trigger BitAt(data, b)} :: lo <= b < hi ==> BitAt(data, b) == v
  }

  /** Every bit of a view below the n-th is clear. */
  ghost predicate ClearBelow(data: seq<chunk>, start: nat, n: nat)
    requires CHUNK_SIZE * start + n <= CHUNK_SIZE * |data|
  {
    All(data, CHUNK_SIZE * start, CHUNK_SIZE * start + n, false)
  }

  /** The lowest set bit of a view, or -1. */
  method FirstSet(data: seq<chunk>, start: nat, chunks: nat) returns (r: int)
    requires start + chunks <= |data|
    ensures r == -1 ==> ClearBelow(data, start, CHUNK_SIZE * chunks)
    ensures r != -1 ==> && 0 <= r < CHUNK_SIZE * chunks && BitAt(data, CHUNK_SIZE * start + r)
                        && ClearBelow(data, start, r)
  {
    for i := 0 to chunks
      invariant ClearBelow(data, start, CHUNK_SIZE * i)
    {
      var b := Ffs(data[start + i], 0);
      forall k {:trigger BitAt(data, k)} | CHUNK_SIZE * start <= k < CHUNK_SIZE * (start + i) + b
        ensures !BitAt(data, k)
      {
        if k >= CHUNK_SIZE * (start + i) {
          assert k / CHUNK_SIZE == start + i;
        }
      }
      if b < CHUNK_SIZE {
        return CHUNK_SIZE * i + b;
      }
    }
    return -1;
  }

  // ---- counting ----

  /** Bound ports among the first n dynamic ones. */
  ghost function BoundCount(data: seq<chunk>, n: nat): (c: nat)
    requires |data| == STORAGE && n <= SIZE
    ensures c <= n
  {
    if n == 0 then 0 else BoundCount(data, n - 1) + (if BitAt(data, DYNAMIC_START + n - 1) then 0 else 1)
  }

  lemma {:induction false} AllBound(data: seq<chunk>, n: nat, p: nat)
    requires |data| == STORAGE && n <= SIZE && BoundCount(data, n) == n && DYNAMIC_START <= p < DYNAMIC_START + n
    ensures !BitAt(data, p)
    decreases n
  {
    if p < DYNAMIC_START + n - 1 {
      AllBound(data, n - 1, p);
    }
  }

  lemma {:induction false} SomeFree(data: seq<chunk>, n: nat) returns (p: nat)
    requires |data| == STORAGE && n <= SIZE && BoundCount(data, n) < n
    ensures DYNAMIC_START <= p < DYNAMIC_START + n && BitAt(data, p)
    decreases n
  {
    if BitAt(data, DYNAMIC_START + n - 1) {
      p := DYNAMIC_START + n - 1;
    } else {
      p := SomeFree(data, n - 1);
    }
  }

  function Updated(data: seq<chunk>, b: nat, v: bool): seq<chunk>
    requires b / CHUNK_SIZE < |data|
  {
    data[b / CHUNK_SIZE := data[b / CHUNK_SIZE][b % CHUNK_SIZE := v]]
  }

  lemma UpdatedAt(data: seq<chunk>, b: nat, v: bool, p: nat)
    requires b / CHUNK_SIZE < |data| && p / CHUNK_SIZE < |data|
    ensures BitAt(Updated(data, b, v), p) == if p == b then v else BitAt(data, p)
  {
    if p / CHUNK_SIZE == b / CHUNK_SIZE && p % CHUNK_SIZE == b % CHUNK_SIZE {
      assert p == b;
    }
  }

  ghost function Cost(free: bool): int {
    if free then 0 else 1
  }

  lemma {:induction false} CountUpdated(data: seq<chunk>, b: nat, v: bool, n: nat)
    requires |data| == STORAGE && b < PORTS && n <= SIZE
    ensures BoundCount(Updated(data, b, v), n) == BoundCount(data, n) +
            if DYNAMIC_START <= b < DYNAMIC_START + n then Cost(v) - Cost(BitAt(data, b)) else 0
    decreases n
  {
    if n == 0 {
    } else {
      CountUpdated(data, b, v, n - 1);
      UpdatedAt(data, b, v, DYNAMIC_START + n - 1);
    }
  }

  lemma {:induction false} NoneBound(data: seq<chunk>, n: nat)
    requires |data| == STORAGE && n <= SIZE
    requires forall p {:trigger BitAt(data, p)} :: DYNAMIC_START <= p < DYNAMIC_START + n ==> BitAt(data, p)
    ensures BoundCount(data, n) == 0
    decreases n
  {
    if n == 0 {
    } else {
      NoneBound(data, n - 1);
    }
  }

  predicate Dynamic(port: nat) {
    port >= DYNAMIC_START
  }

  /** What asking for a port comes to: one is given, all seem taken, or the program ends. */
  datatype Outcome = Given(port: nat) | Exhausted | Stopped

  class PortUtil {
    const data: array<chunk>
    var ephemeral: nat
    var ephCount: nat

    /** What holds however ports are bound and released: the bits past the ports stay set. */
    ghost predicate Shape()
      reads this, data
    {
      data.Length == STORAGE && ephemeral < PORTS && BitAt(data[..], PORTS)
    }

    /** The count is that of the bound dynamic ports, and the last port given is one of them. */
    ghost predicate Valid()
      reads this, data
    {
      Shape() && Dynamic(ephemeral) && ephCount == BoundCount(data[..], SIZE)
    }

    ghost predicate Free(port: nat)
      requires data.Length == STORAGE && port < PORTS
      reads data
    {
      BitAt(data[..], port)
    }

    ghost predicate NoneFree()
      requires data.Length == STORAGE
      reads data
    {
      All(data[..], DYNAMIC_START, PORTS, false)
    }

    /** All ports free; the first ephemeral port comes from a random number. */
    constructor (random: nat)
      ensures Valid() && ephCount == 0 && fresh(data) && All(data[..], 0, PORTS, true)
    {
      data := new chunk[STORAGE](_ => seq(32, _ => true));
      ephemeral := DYNAMIC_START + random % (DYNAMIC_END - DYNAMIC_START);
      ephCount := 0;
      new;
      forall p {:trigger BitAt(data[..], p)} | 0 <= p <= PORTS
        ensures BitAt(data[..], p)
      {
        assert data[..][p / CHUNK_SIZE] == data[p / CHUNK_SIZE];
      }
      NoneBound(data[..], SIZE);
    }

    /** Reserve a port. The count stays right if and only if the port was free, or is not a dynamic one. */
    method Bind(port: nat)
      requires Shape() && port < PORTS
      modifies this`ephCount, data
      ensures Shape() && data[..] == Updated(old(data[..]), port, false)
      ensures ephCount == if Dynamic(port) then (old(ephCount) + 1) % 0x1_0000 else old(ephCount)
      ensures old(Valid()) ==> (Valid() <==> old(Free(port)) || !Dynamic(port))
    {
      CountUpdated(data[..], port, false, SIZE);
      UpdatedAt(data[..], port, false, PORTS);
      data[port / CHUNK_SIZE] := data[port / CHUNK_SIZE][port % CHUNK_SIZE := false];
      if Dynamic(port) {
        ephCount := (ephCount + 1) % 0x1_0000;
      }
      assert data[..] == Updated(old(data[..]), port, false);
    }

    /** Release a port. The count stays right if and only if the port was bound, or is not a dynamic one. */
    method Unbind(port: nat)
      requires Shape() && port < PORTS
      modifies this`ephCount, data
      ensures Shape() && data[..] == Updated(old(data[..]), port, true)
      ensures ephCount == if Dynamic(port) then (old(ephCount) + 0xFFFF) % 0x1_0000 else old(ephCount)
      ensures old(Valid()) ==> (Valid() <==> !old(Free(port)) || !Dynamic(port))
    {
      CountUpdated(data[..], port, true, SIZE);
      UpdatedAt(data[..], port, true, PORTS);
      data[port / CHUNK_SIZE] := data[port / CHUNK_SIZE][port % CHUNK_SIZE := true];
      if Dynamic(port) {
        ephCount := (ephCount + 0xFFFF) % 0x1_0000;
      }
      assert data[..] == Updated(old(data[..]), port, true);
    }

    /** The count says that all dynamic ports are bound if and only if they are. */
    ghost predicate TellsIfFull()
      requires Shape()
      reads this, data
    {
      ephCount >= SIZE <==> NoneFree()
    }

    /**
      The next ephemeral port: the one after the last if that is free, else the
      lowest free dynamic port.  None is given if and only if the count says
      so.  If there is none the search runs on past the last port, and port 0
      comes out.  So, after a dynamic port, a dynamic port is given if there is
      one and none otherwise, if and only if the count tells whether all are
      bound.
     */
    method GetNextEphemeral() returns (r: Outcome)
      requires Shape()
      modifies this`ephemeral
      ensures Shape() && (old(Valid()) && r != Stopped ==> Valid())
      ensures r == Exhausted <==> ephCount >= SIZE
      ensures r == Exhausted ==> ephemeral == old(ephemeral)
      ensures r.Given? ==> r.port == ephemeral && Free(r.port)
      ensures ephCount < SIZE ==>
                var next := if old(ephemeral) == 65535 then 49152 else old(ephemeral) + 1;
                if Free(next) then r == Given(next)
                else if NoneFree() then r == if Free(0) then Given(0) else Stopped
                else r.Given? && Dynamic(r.port) && All(data[..], DYNAMIC_START, r.port, false)
      ensures 49152 <= old(ephemeral) ==>
                (TellsIfFull() <==> if NoneFree() then r == Exhausted else r.Given? && r.port >= 49152)
      ensures old(Valid()) ==> TellsIfFull()
    {
      ValidTells();
      if ephCount >= SIZE {
        return Exhausted;
      }
      var next := (ephemeral + 1) % 0x1_0000;
      if next == 0 {
        next := DYNAMIC_START;
      }
      ephemeral := NextOrLowest(next);
      if !BitAt(data[..], ephemeral) {
        return Stopped;
      }
      assert Free(ephemeral);
      return Given(ephemeral);
    }

    lemma ValidTells()
      requires Shape()
      ensures Valid() ==> TellsIfFull()
    {
      if !Valid() {
        return;
      }
      if ephCount >= SIZE {
        forall p {:trigger BitAt(data[..], p)} | DYNAMIC_START <= p < PORTS
          ensures !BitAt(data[..], p)
        {
          AllBound(data[..], SIZE, p);
        }
      } else {
        var p := SomeFree(data[..], SIZE);
        assert Free(p);
      }
    }

    /** This port if it is free, else what the search for a set bit finds, in 16 bits. */
    method NextOrLowest(next: nat) returns (p: nat)
      requires Shape() && next < PORTS
      ensures p < PORTS
      ensures if Free(next) then p == next
              else if NoneFree() then p == 0
              else Dynamic(p) && Free(p) && All(data[..], DYNAMIC_START, p, false)
    {
      p := next;
      if !BitAt(data[..], next) {
        var i := FirstSet(data[..], VIEW_START, VIEW_CHUNKS);
        assert i != -1 && i <= SIZE by {
          assert BitAt(data[..], PORTS);
        }
        assert i < SIZE ==> Free(DYNAMIC_START + i);
        p := (DYNAMIC_START + i) % 0x1_0000;
      }
    }
  }

  /** A port bound twice counts twice. */
  method BindTwice(random: nat) returns (u: PortUtil)
    ensures fresh(u) && u.Shape() && u.ephCount == 2 && BoundCount(u.data[..], SIZE) == 1
  {
    u := new PortUtil(random);
    assert u.Free(DYNAMIC_START);
    CountUpdated(u.data[..], DYNAMIC_START, false, SIZE);
    u.Bind(DYNAMIC_START);
    CountUpdated(u.data[..], DYNAMIC_START, false, SIZE);
    u.Bind(DYNAMIC_START);
  }

  /** After a free port has been released no port is given, though all of them are free. */
  method UnbindFree(random: nat) returns (u: PortUtil, r: Outcome)
    ensures fresh(u) && u.Shape() && BoundCount(u.data[..], SIZE) == 0 && r == Exhausted
  {
    u := new PortUtil(random);
    assert u.Free(DYNAMIC_START);
    CountUpdated(u.data[..], DYNAMIC_START, true, SIZE);
    u.Unbind(DYNAMIC_START);
    r := u.GetNextEphemeral();
  }

  /** Bind every dynamic port of a fresh allocator. */
  method BindAll(random: nat) returns (u: PortUtil)
    ensures fresh(u) && fresh(u.data) && u.Valid() && u.ephCount == SIZE && u.NoneFree() && u.Free(0)
  {
    u := new PortUtil(random);
    for p := DYNAMIC_START to PORTS
      invariant fresh(u) && fresh(u.data) && u.Valid() && u.ephCount == p - DYNAMIC_START && u.Free(0)
      invariant All(u.data[..], DYNAMIC_START, p, false) && All(u.data[..], p, PORTS, true)
    {
      OneMoreBound(u.data[..], p);
      u.Bind(p);
    }
  }

  lemma OneMoreBound(data: seq<chunk>, p: nat)
    requires |data| == STORAGE && DYNAMIC_START <= p < PORTS
    requires All(data, DYNAMIC_START, p, false) && All(data, p, PORTS, true)
    ensures var data' := Updated(data, p, false);
            && All(data', DYNAMIC_START, p + 1, false) && All(data', p + 1, PORTS, true)
            && BitAt(data', 0) == BitAt(data, 0)
  {
    var data' := Updated(data, p, false);
    forall q {:trigger BitAt(data', q)} | 0 <= q < PORTS
      ensures BitAt(data', q) == if q == p then false else BitAt(data, q)
    {
      UpdatedAt(data, p, false, q);
    }
  }

  /** With every dynamic port bound, but one of them released twice before it was bound again, port 0 is given. */
  method PortZeroGiven(random: nat) returns (u: PortUtil, r: Outcome)
    ensures fresh(u) && u.Shape() && u.NoneFree() && r == Given(0)
  {
    u := BindAll(random);
    ghost var full := u.data[..];
    u.Unbind(DYNAMIC_END);
    u.Unbind(DYNAMIC_END);
    u.Bind(DYNAMIC_END);
    ThriceUpdated(full, DYNAMIC_END);
    r := u.GetNextEphemeral();
  }

  lemma ThriceUpdated(data: seq<chunk>, b: nat)
    requires b / CHUNK_SIZE < |data| && !BitAt(data, b)
    ensures Updated(Updated(Updated(data, b, true), b, true), b, false) == data
  {
    var c, i := b / CHUNK_SIZE, b % CHUNK_SIZE;
    assert data[c][i := true][i := true][i := false] == data[c];
  }
}
