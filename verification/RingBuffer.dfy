/** The ring buffer of api/util/ringbuffer.hpp: a bounded first-in first-out byte queue over an array. */
module RingBuffer {
  import opened Arith
  import opened Bytes
  import opened Common
  import opened Rotation

  /** A position below twice the capacity, wrapped around: the remainder modulo n. */
  function Fold(n: nat, x: int): int {
    if x < n then x else x - n
  }

  /** The bytes a ring buffer holds, oldest first. */
  function Unrolled(buf: seq<byte>, start: nat, used: nat): (q: seq<byte>)
    requires start < |buf| && used <= |buf|
    ensures |q| == used
    ensures forall k {:trigger q[k]} :: 0 <= k < used ==> q[k] == buf[Fold(|buf|, start + k)]
  {
    seq(used, k requires 0 <= k < used => buf[Fold(|buf|, start + k)])
  }

  class Ring {
    const cap: nat
    const buffer: array<byte>
    var start: int
    var end: int
    var used: int

    ghost predicate Valid()
      reads this
    {
      && 0 < cap == buffer.Length
      && 0 <= start < cap && 0 <= used <= cap
      && 0 <= end <= cap && Fold(cap, end) == Fold(cap, start + used)
    }

    ghost function Contents(): (q: seq<byte>)
      requires Valid()
      reads this, buffer
    {
      Unrolled(buffer[..], start, used)
    }

    constructor (location: array<byte>)
      requires location.Length > 0
      ensures Valid() && IsValid() && buffer == location && cap == location.Length
      ensures Contents() == [] && start == end == used == 0
    {
      cap := location.Length;
      buffer := location;
      start, end, used := 0, 0, 0;
    }

    /** The source's own check, which wants the end inside the array. */
    predicate IsValid()
      reads this
    {
      used <= cap && cap > 0 && 0 <= start < cap && 0 <= end < cap
    }

    function FreeSpace(): int
      reads this
    {
      cap - used
    }

    /** A position below twice the capacity, modulo the capacity. */
    method Modulo(x: nat) returns (p: nat)
      requires x < 2 * cap
      ensures p == Fold(cap, x)
    {
      ModOnce(x, cap);
      p := x % cap;
    }

    /** Copy bytes into the array at a position. */
    method CopyIn(pos: nat, data: seq<byte>)
      requires pos + |data| <= buffer.Length
      modifies buffer
      ensures forall k {:trigger buffer[k]} :: 0 <= k < buffer.Length ==>
                            buffer[k] == if pos <= k < pos + |data| then data[k - pos] else old(buffer[k])
    {
      forall k | pos <= k < pos + |data| {
        buffer[k] := data[k - pos];
      }
    }

    /** Copy bytes out of the array to a position in dest. */
    method CopyOut(dest: array<byte>, at: nat, from: nat, n: nat)
      requires from + n <= buffer.Length && at + n <= dest.Length && dest != buffer
      modifies dest
      ensures forall k {:trigger dest[k]} :: 0 <= k < dest.Length ==>
                            dest[k] == if at <= k < at + n then buffer[from + (k - at)] else old(dest[k])
    {
      forall k | at <= k < at + n {
        dest[k] := buffer[from + (k - at)];
      }
    }

    /** The copies of a write: past the end of the array they continue at its beginning. */
    method PutWrapped(data: seq<byte>)
      requires 0 <= end <= buffer.Length == cap && |data| <= cap
      modifies buffer
      ensures Written(old(buffer[..]), buffer[..], end, data)
    {
      var length := |data|;
      var wrap := (end + length) - cap;
      if wrap > 0 {
        CopyIn(end, data[..length - wrap]);
        CopyIn(0, data[length - wrap..]);
      } else {
        CopyIn(end, data);
      }
    }

    /** The end position after `length` more bytes. */
    method AdvancedEnd(length: nat) returns (e: nat)
      requires Valid() && used + length <= cap
      ensures e < cap && Fold(cap, e) == Fold(cap, start + (used + length))
    {
      NextEnd(cap, start, used, end, length);
      e := (end + length) % cap;
    }

    /** The copies of a read. */
    method GetWrapped(dest: array<byte>, count: nat)
      requires 0 <= start < buffer.Length == cap && count <= cap && count <= dest.Length && dest != buffer
      modifies dest
      ensures forall k {:trigger dest[k]} :: 0 <= k < dest.Length ==>
                            dest[k] == if k < count then buffer[Fold(cap, start + k)] else old(dest[k])
    {
      var wrap := (start + count) - cap;
      if wrap > 0 {
        CopyOut(dest, 0, start, count - wrap);
        CopyOut(dest, count - wrap, 0, wrap);
      } else {
        CopyOut(dest, 0, start, count);
      }
    }

    /** Append as much of `data` as fits; returns how much. */
    method Write(data: seq<byte>) returns (written: int)
      requires Valid()
      modifies this, buffer
      ensures Valid() && start == old(start) && (old(IsValid()) || written > 0 ==> IsValid())
      ensures written == if |data| <= cap - old(used) then |data| else cap - old(used)
      ensures Contents() == old(Contents()) + data[..written]
    {
      var length := |data|;
      if length > FreeSpace() {
        length := FreeSpace();
        if length == 0 {
          return 0;
        }
      }
      ghost var before := buffer[..];
      PutWrapped(data[..length]);
      Appended(before, buffer[..], start, used, end, data[..length]);
      end := AdvancedEnd(length);
      used := used + length;
      return length;
    }

    /** Take up to `length` of the oldest bytes into dest; returns how many. */
    method Read(dest: array<byte>, length: nat) returns (count: int)
      requires Valid() && length <= dest.Length && dest != buffer
      modifies this, dest
      ensures Valid() && end == old(end)
      ensures count == if length <= old(used) then length else old(used)
      ensures dest[..] == old(Contents())[..count] + old(dest[count..])
      ensures Contents() == old(Contents())[count..]
    {
      count := length;
      if count > used {
        count := used;
        if count == 0 {
          return 0;
        }
      }
      ghost var before, queue := buffer[..], Contents();
      GetWrapped(dest, count);
      assert buffer[..] == before;
      assert dest[..] == queue[..count] + old(dest[count..]);
      Removed(before, start, used, count);
      used := used - count;
      start := Modulo(start + count);
    }

    /** Drop `length` of the oldest bytes, or nothing if there are fewer. */
    method Discard(length: nat) returns (count: int)
      requires Valid()
      modifies this
      ensures Valid() && end == old(end)
      ensures count == if length <= old(used) then length else 0
      ensures Contents() == old(Contents())[count..]
    {
      if length > used {
        return 0;
      }
      Removed(buffer[..], start, used, length);
      used := used - length;
      start := Modulo(start + length);
      count := length;
    }

    /**
      Follow one permutation cycle of the rotation, moving every byte on it one
      step; returns the number of bytes moved.
     */
    method RotateCycle(offset: nat) returns (moves: nat)
      requires 0 <= start < cap == buffer.Length && offset < Gcd(cap, start)
      modifies buffer
      ensures CycleDone(old(buffer[..]), buffer[..], start, Classes(cap, start), offset)
      ensures moves == Period(cap, start)
    {
      ghost var orbit := MakeOrbit(cap, start, offset);
      ghost var buf := buffer[..];
      var index := offset;
      var tmp := buffer[index];
      var index2 := Modulo(start + index);
      moves := 0;
      while index2 != offset
        invariant 0 <= moves < |orbit| && index == orbit[moves] && index2 == Fold(cap, start + index)
        invariant Shifted(buf, buffer[..], start, orbit, moves)
        decreases |orbit| - moves
      {
        ShiftStep(buf, buffer[..], start, orbit, moves);
        ghost var before := buffer[..];
        buffer[index] := buffer[index2];
        assert buffer[..] == before[index := before[index2]];
        moves := moves + 1;
        index := index2;
        index2 := Modulo(start + index);
      }
      ShiftStep(buf, buffer[..], start, orbit, moves);
      ghost var before := buffer[..];
      buffer[index] := tmp;
      moves := moves + 1;
      assert buffer[..] == before[index := tmp];
      ShiftedAll(buf, buffer[..], start, orbit, Classes(cap, start), offset);
    }

    /**
      Rotate the array until the contents start at its beginning, one cycle
      after the other until as many bytes have been moved as are in use. A full
      buffer then fails its own check.
     */
    method Sequentialize() returns (ghost cycles: nat, ghost moves: nat)
      requires Valid()
      modifies this, buffer
      ensures Valid() && start == 0 && used == old(used) && end == used && (IsValid() <==> used != cap)
      ensures buffer[..] == PartlyRotated(old(buffer[..]), old(start), Classes(cap, old(start)), cycles)
      ensures moves == cycles * Period(cap, old(start)) && EnoughCycles(Period(cap, old(start)), used, cycles)
      ensures old(used) == cap ==>
                cycles == Gcd(cap, old(start)) && moves == cap && buffer[..] == old(Contents()) == Contents()
    {
      ghost var len, cls := Period(cap, start), Classes(cap, start);
      ghost var buf := buffer[..];
      ClassesInvariant(cap, start);
      var count, offset := 0, 0;
      while count < used
        invariant start == old(start) && used == old(used)
        invariant 0 <= offset <= Gcd(cap, start) && count == Moved(offset, len)
        invariant offset > 0 ==> Moved(offset - 1, len) < used
        invariant buffer[..] == PartlyRotated(buf, start, cls, offset)
        decreases Gcd(cap, start) - offset
      {
        CycleRemains(cap, start, offset);
        ghost var before := buffer[..];
        var moves' := RotateCycle(offset);
        NextCycle(buf, start, cls, offset, before, buffer[..]);
        count := count + moves';
        offset := offset + 1;
      }
      cycles, moves := offset, count;
      MovedIsProduct(cycles, len);
      if cycles > 0 { MovedIsProduct(cycles - 1, len); }
      if used == cap {
        CycleRemains(cap, start, cycles);
        FullyRotated(buf, start, cls, cycles);
        UnrolledFromZero(buffer[..]);
      }
      start := 0;
      end := used;
    }
  }

  /** The residue class of each position modulo gcd(n, s). */
  function Classes(n: nat, s: nat): (cls: seq<nat>)
    requires n > 0
    ensures |cls| == n
  {
    seq(n, j requires 0 <= j < n => Residue(j, Gcd(n, s)))
  }

  /** With c cycles of the rotation by s done: positions in the first c classes hold their new byte. */
  function PartlyRotated(buf: seq<byte>, s: nat, cls: seq<nat>, c: nat): (r: seq<byte>)
    requires s < |buf| == |cls|
    ensures |r| == |buf|
    ensures forall j {:trigger r[j]} :: 0 <= j < |buf| ==>
            r[j] == if cls[j] < c then buf[Fold(|buf|, s + j)] else buf[j]
  {
    seq(|buf|, j requires 0 <= j < |buf| => if cls[j] < c then buf[Fold(|buf|, s + j)] else buf[j])
  }

  /** The least number of cycles, of len bytes each, that moves at least `used` bytes. */
  ghost predicate EnoughCycles(len: nat, used: nat, c: nat) {
    c * len >= used && (c > 0 ==> (c - 1) * len < used)
  }

  /** Bytes moved by c cycles of len bytes. */
  function Moved(c: nat, len: nat): nat {
    if c == 0 then 0 else Moved(c - 1, len) + len
  }

  lemma {:induction false} MovedIsProduct(c: nat, len: nat)
    ensures Moved(c, len) == c * len
  {
    if c == 0 {
    } else {
      MovedIsProduct(c - 1, len);
    }
  }

  /** Exactly gcd many cycles move the whole array. */
  lemma CycleRemains(cap: nat, s: nat, c: nat)
    requires cap > 0
    ensures c < Gcd(cap, s) <==> Moved(c, Period(cap, s)) < cap
    ensures c == Gcd(cap, s) ==> Moved(c, Period(cap, s)) == cap
  {
    MovedIsProduct(c, Period(cap, s));
    if c < Gcd(cap, s) {
      MulStrict(c, Gcd(cap, s), Period(cap, s));
    } else if c > Gcd(cap, s) {
      MulStrict(Gcd(cap, s), c, Period(cap, s));
    }
  }

  /** The positions visited from o by adding s modulo n, until it comes back. */
  ghost predicate IsOrbit(n: nat, s: nat, o: nat, orbit: seq<nat>) {
    && |orbit| > 0 && orbit[0] == o
    && (forall t :: 0 <= t < |orbit| ==> orbit[t] < n)
    && (forall t :: 0 <= t < |orbit| - 1 ==> Fold(n, s + orbit[t]) == orbit[t + 1])
    && Fold(n, s + orbit[|orbit| - 1]) == o
    && (forall t, u :: 0 <= t < u < |orbit| ==> orbit[t] != orbit[u])
  }

  /** The first k positions of an orbit have received the byte of the next position. */
  ghost predicate Shifted(buf: seq<byte>, cur: seq<byte>, s: nat, orbit: seq<nat>, k: nat) {
    && |cur| == |buf| && s < |buf| && k <= |orbit|
    && forall j {:trigger cur[j]} :: 0 <= j < |buf| ==>
      cur[j] == if j in orbit[..k] then buf[Fold(|buf|, s + j)] else buf[j]
  }

  lemma ShiftStep(buf: seq<byte>, cur: seq<byte>, s: nat, orbit: seq<nat>, k: nat)
    requires |orbit| > 0 && IsOrbit(|buf|, s, orbit[0], orbit) && k < |orbit| && Shifted(buf, cur, s, orbit, k)
    ensures Fold(|buf|, s + orbit[k]) == orbit[0] <==> k + 1 == |orbit|
    ensures k + 1 < |orbit| ==> Fold(|buf|, s + orbit[k]) == orbit[k + 1] &&
                                Shifted(buf, cur[orbit[k] := cur[orbit[k + 1]]], s, orbit, k + 1)
    ensures k + 1 == |orbit| ==> Shifted(buf, cur[orbit[k] := buf[orbit[0]]], s, orbit, k + 1)
  {
    assert orbit[..k + 1] == orbit[..k] + [orbit[k]];
    if k + 1 < |orbit| {
      assert orbit[k + 1] !in orbit[..k];
      assert orbit[0] != orbit[k + 1];
    }
    ShiftOne(buf, cur, s, orbit, k, if k + 1 < |orbit| then cur[orbit[k + 1]] else buf[orbit[0]]);
  }

  lemma ShiftOne(buf: seq<byte>, cur: seq<byte>, s: nat, orbit: seq<nat>, k: nat, v: byte)
    requires k < |orbit| && orbit[k] < |buf| && Shifted(buf, cur, s, orbit, k)
    requires v == buf[Fold(|buf|, s + orbit[k])]
    ensures Shifted(buf, cur[orbit[k] := v], s, orbit, k + 1)
  {
    assert orbit[..k + 1] == orbit[..k] + [orbit[k]];
    var upd := cur[orbit[k] := v];
    forall j | 0 <= j < |buf|
      ensures upd[j] == if j in orbit[..k + 1] then buf[Fold(|buf|, s + j)] else buf[j]
    {
      assert j in orbit[..k + 1] <==> j in orbit[..k] || j == orbit[k];
      if j == orbit[k] {
        assert upd[j] == v;
      } else {
        assert upd[j] == cur[j];
      }
    }
  }

  /** An orbit from an offset below the gcd is a whole residue class, and all of these have one length. */
  lemma MakeOrbit(n: nat, s: nat, o: nat) returns (orbit: seq<nat>)
    requires s < n && o < Gcd(n, s)
    ensures IsOrbit(n, s, o, orbit) && |orbit| == Period(n, s)
    ensures forall j: nat :: j < n ==> (j in orbit <==> Classes(n, s)[j] == o)
  {
    var len := Period(n, s);
    orbit := seq(len, t requires 0 <= t < len => Hop(n, s, o, t));
    HopsAreOrbit(n, s, o, orbit);
    OrbitIsClass(n, s, o, orbit);
  }

  lemma HopsAreOrbit(n: nat, s: nat, o: nat, orbit: seq<nat>)
    requires s < n && o < Gcd(n, s) && |orbit| == Period(n, s)
    requires forall t :: 0 <= t < |orbit| ==> orbit[t] == Hop(n, s, o, t)
    ensures IsOrbit(n, s, o, orbit)
  {
    assert o < n by { GcdBelow(n, s); }
    HopStart(n, s, o);
    OrbitCloses(n, s, o);
    forall t | 0 <= t < |orbit|
      ensures Fold(n, s + orbit[t]) == Hop(n, s, o, t + 1)
    {
      HopIsFold(n, s, o, t);
    }
    forall t, u | 0 <= t < u < |orbit|
      ensures orbit[t] != orbit[u]
    {
      OrbitDistinct(n, s, o, t, u);
    }
  }

  lemma HopIsFold(n: nat, s: nat, o: nat, t: nat)
    requires s < n
    ensures Hop(n, s, o, t + 1) == Fold(n, s + Hop(n, s, o, t))
  {
    HopStep(n, s, o, t);
    ModOnce(s + Hop(n, s, o, t), n);
  }

  lemma OrbitIsClass(n: nat, s: nat, o: nat, orbit: seq<nat>)
    requires n > 0 && o < Gcd(n, s) && |orbit| == Period(n, s)
    requires forall t :: 0 <= t < |orbit| ==> orbit[t] == Hop(n, s, o, t)
    ensures forall j: nat :: j < n ==> (j in orbit <==> Residue(j, Gcd(n, s)) == o)
  {
    forall j: nat | j < n
      ensures j in orbit <==> Residue(j, Gcd(n, s)) == o
    {
      if j in orbit {
        var t :| 0 <= t < |orbit| && orbit[t] == j;
        OrbitInClass(n, s, o, t);
      }
      if Residue(j, Gcd(n, s)) == o {
        var k := OrbitReaches(n, s, o, j);
        assert orbit[k] == j;
      }
    }
  }

  /** From cur to done, every position of class c received the byte s positions on; the rest kept theirs. */
  ghost predicate CycleDone(cur: seq<byte>, done: seq<byte>, s: nat, cls: seq<nat>, c: nat) {
    && |cur| == |done| == |cls| && s < |cur|
    && forall j {:trigger done[j]} :: 0 <= j < |cur| ==> done[j] == cur[if cls[j] == c then Fold(|cur|, s + j) else j]
  }

  /** Adding s modulo n stays in the class. */
  ghost predicate StepsKeepClass(s: nat, cls: seq<nat>) {
    s < |cls| && forall j :: 0 <= j < |cls| ==> cls[Fold(|cls|, s + j)] == cls[j]
  }

  lemma ShiftedAll(buf: seq<byte>, cur: seq<byte>, s: nat, orbit: seq<nat>, cls: seq<nat>, o: nat)
    requires Shifted(buf, cur, s, orbit, |orbit|) && |cls| == |buf|
    requires forall j: nat :: j < |buf| ==> (j in orbit <==> cls[j] == o)
    ensures CycleDone(buf, cur, s, cls, o)
  {
    assert orbit[..|orbit|] == orbit;
  }

  /** One more cycle on a partly rotated array. */
  lemma NextCycle(buf: seq<byte>, s: nat, cls: seq<nat>, c: nat, before: seq<byte>, after: seq<byte>)
    requires s < |buf| == |after| == |cls| && before == PartlyRotated(buf, s, cls, c)
    requires StepsKeepClass(s, cls)
    requires CycleDone(before, after, s, cls, c)
    ensures after == PartlyRotated(buf, s, cls, c + 1)
  {
    forall j | 0 <= j < |buf|
      ensures after[j] == PartlyRotated(buf, s, cls, c + 1)[j]
    {
      var f := Fold(|buf|, s + j);
      assert cls[f] == cls[j];
      assert before[j] == if cls[j] < c then buf[f] else buf[j];
      assert cls[j] == c ==> before[f] == buf[f];
    }
  }

  lemma ClassesInvariant(n: nat, s: nat)
    requires s < n
    ensures StepsKeepClass(s, Classes(n, s))
  {
    forall j | 0 <= j < n
      ensures Classes(n, s)[Fold(n, s + j)] == Classes(n, s)[j]
    {
      SameClass(n, s, j);
    }
  }

  /** A rotation step stays in its residue class. */
  lemma SameClass(n: nat, s: nat, j: nat)
    requires s < n && j < n
    ensures Residue(Fold(n, s + j), Gcd(n, s)) == Residue(j, Gcd(n, s))
  {
    GcdDivides(n, s);
    var p: int :| n == Gcd(n, s) * p;
    var q: int :| s == Gcd(n, s) * q;
    SameClassOf(n, s, Gcd(n, s), p, q, j);
  }

  lemma SameClassOf(n: nat, s: nat, g: nat, p: int, q: int, j: nat)
    requires s < n && j < n && g > 0 && n == g * p && s == g * q
    ensures Residue(Fold(n, s + j), g) == Residue(j, g)
  {
    MulDistributes(g, q, -p);
    ClassShift(g, j, if s + j < n then q else q - p, Fold(n, s + j));
  }

  lemma UnrolledFromZero(buf: seq<byte>)
    requires |buf| > 0
    ensures Unrolled(buf, 0, |buf|) == buf
  {
    assert forall j :: 0 <= j < |buf| ==> Unrolled(buf, 0, |buf|)[j] == buf[j];
  }

  /** When all classes are done the array is the contents of the full buffer. */
  lemma FullyRotated(buf: seq<byte>, s: nat, cls: seq<nat>, c: nat)
    requires s < |buf| == |cls| && forall j :: 0 <= j < |cls| ==> cls[j] < c
    ensures PartlyRotated(buf, s, cls, c) == Unrolled(buf, s, |buf|)
  {
  }

  /** From before to after, data was placed at a position, wrapped around, and nothing else changed. */
  ghost predicate Written(before: seq<byte>, after: seq<byte>, end: nat, data: seq<byte>) {
    && |after| == |before| && end <= |before| && |data| <= |before|
    && forall p {:trigger after[p]} :: 0 <= p < |before| ==>
         after[p] == if end <= p < end + |data| then data[p - end]
                     else if p < end + |data| - |before| then data[p + |before| - end]
                     else before[p]
  }

  /** Placing data at the end position appends it to the contents. */
  lemma Appended(before: seq<byte>, after: seq<byte>, start: nat, used: nat, end: nat, data: seq<byte>)
    requires start < |before| && used + |data| <= |before|
    requires end <= |before| && Fold(|before|, end) == Fold(|before|, start + used)
    requires Written(before, after, end, data)
    ensures Unrolled(after, start, used + |data|) == Unrolled(before, start, used) + data
  {
    forall k | 0 <= k < used + |data|
      ensures Unrolled(after, start, used + |data|)[k] == (Unrolled(before, start, used) + data)[k]
    {
      var p := Fold(|before|, start + k);
      assert after[p] == if k < used then before[p] else data[k - used];
    }
  }

  /** Moving the start forward drops the oldest bytes. */
  lemma Removed(buf: seq<byte>, start: nat, used: nat, length: nat)
    requires start < |buf| && length <= used <= |buf|
    ensures Fold(|buf|, start + length) < |buf|
    ensures Unrolled(buf, Fold(|buf|, start + length), used - length) == Unrolled(buf, start, used)[length..]
  {
    var start' := Fold(|buf|, start + length);
    forall k | 0 <= k < used - length
      ensures Unrolled(buf, start', used - length)[k] == Unrolled(buf, start, used)[length..][k]
    {
      assert Fold(|buf|, start' + k) == Fold(|buf|, start + (length + k));
    }
  }

  /** The next end position stays in step with start and use, also when end is the capacity itself. */
  lemma NextEnd(cap: nat, start: nat, used: nat, end: nat, length: nat)
    requires start < cap && used + length <= cap && end <= cap && Fold(cap, end) == Fold(cap, start + used)
    ensures 0 <= (end + length) % cap < cap
    ensures Fold(cap, (end + length) % cap) == Fold(cap, start + (used + length))
  {
    if end + length < 2 * cap {
      ModOnce(end + length, cap);
    } else {
      DivModUnique(end + length, cap, 2, 0);
    }
  }

  // ---- when rotating a partly filled buffer works ----

  /** After c cycles the first `used` bytes of the array are the old contents. */
  ghost predicate Straightened(buf: seq<byte>, s: nat, used: nat, c: nat)
    requires s < |buf| && used <= |buf|
  {
    PartlyRotated(buf, s, Classes(|buf|, s), c)[..used] == Unrolled(buf, s, used)
  }

  /**
    `Sequentialize` stops as soon as it has moved as many bytes as are in use.
    Whatever the bytes, this leaves the contents in order at the beginning of
    the array exactly when the cycles it has done cover the first `used`
    positions, which is a condition on capacity, start and use alone.
   */
  lemma StraightenedExactly(n: nat, s: nat, used: nat, c: nat)
    requires s < n && used <= n && EnoughCycles(Period(n, s), used, c)
    ensures (forall buf: seq<byte> :: |buf| == n ==> Straightened(buf, s, used, c)) <==>
            used * Gcd(n, s) > (Min(used, Gcd(n, s)) - 1) * n
  {
    var g, len, m := Gcd(n, s), Period(n, s), Min(used, Gcd(n, s));
    ConditionInCycles(n, s, used, c);
    if c >= m {
      forall buf: seq<byte> | |buf| == n
        ensures Straightened(buf, s, used, c)
      {
        CoveredPrefix(buf, s, used, c);
      }
    } else {
      var buf := UncoveredPosition(n, s, used, c);
      assert |buf| == n && !Straightened(buf, s, used, c);
    }
  }

  /** The least number of cycles reaches m if and only if one fewer than m does not move enough. */
  lemma EnoughAtLeast(len: nat, used: nat, c: nat, m: nat)
    requires len > 0 && EnoughCycles(len, used, c)
    ensures c >= m <==> used > (m - 1) * len
  {
    if c < m {
      if c < m - 1 { MulStrict(c, m - 1, len); }
    } else if c > m {
      MulStrict(m - 1, c - 1, len);
    } else if m == 0 {
      assert (m - 1) * len == 0 - (len as int);
    }
  }

  lemma MulCompare(a: int, b: int, g: nat)
    requires g > 0
    ensures a * g < b * g <==> a < b
  {
    if a < b {
      MulStrict(a, b, g);
    } else if b < a {
      MulStrict(b, a, g);
    }
  }

  lemma ConditionInCycles(n: nat, s: nat, used: nat, c: nat)
    requires s < n && used <= n && EnoughCycles(Period(n, s), used, c)
    ensures used * Gcd(n, s) > (Min(used, Gcd(n, s)) - 1) * n <==> c >= Min(used, Gcd(n, s))
  {
    CycleCount(n, Gcd(n, s), Period(n, s), used, c, Min(used, Gcd(n, s)));
  }

  lemma CycleCount(n: nat, g: nat, len: nat, used: nat, c: nat, m: nat)
    requires g > 0 && len > 0 && g * len == n && EnoughCycles(len, used, c)
    ensures used * g > (m - 1) * n <==> c >= m
  {
    EnoughAtLeast(len, used, c, m);
    MulCompare((m as int - 1) * len, used, g);
    MulAssociates(m as int - 1, len, g);
  }

  /**
    Capacity 4, start 2 and two bytes in use: one cycle moves two bytes, and
    only the first of them belongs to the contents.
   */
  lemma PartialRotationFails(c: nat)
    requires EnoughCycles(Period(4, 2), 2, c)
    ensures exists buf: seq<byte> :: |buf| == 4 && !Straightened(buf, 2, 2, c)
  {
    assert Gcd(4, 2) == 2;
    StraightenedExactly(4, 2, 2, c);
  }

  lemma CoveredPrefix(buf: seq<byte>, s: nat, used: nat, c: nat)
    requires s < |buf| && used <= |buf| && c >= Min(used, Gcd(|buf|, s))
    ensures Straightened(buf, s, used, c)
  {
    var cls := Classes(|buf|, s);
    forall j | 0 <= j < used
      ensures cls[j] < c
    {
      assert cls[j] == Residue(j, Gcd(|buf|, s));
    }
  }

  /** A buffer that shows the failure: one byte unlike all others, at a position not reached. */
  lemma UncoveredPosition(n: nat, s: nat, used: nat, c: nat) returns (buf: seq<byte>)
    requires s < n && used <= n && c < Min(used, Gcd(n, s)) && EnoughCycles(Period(n, s), used, c)
    ensures |buf| == n && !Straightened(buf, s, used, c)
  {
    var j := Min(used, Gcd(n, s)) - 1;
    if s == 0 {
      assert Gcd(n, 0) == n;
      CancelFactor(n, Period(n, 0), 1);
    }
    GcdBelow(n, s);
    buf := seq(n, k requires 0 <= k < n => if k == j then 0 else 1);
    assert Classes(n, s)[j] == Residue(j, Gcd(n, s)) == j;
    assert PartlyRotated(buf, s, Classes(n, s), c)[..used][j] == buf[j];
    assert Unrolled(buf, s, used)[j] == buf[Fold(n, s + j)];
  }

  // ---- every run is a run of a bounded queue ----

  datatype Op = Put(data: seq<byte>) | Take(length: nat) | Drop(length: nat) | Straighten

  /** Bytes an operation adds to a queue of at most cap bytes. */
  function Accepted(cap: nat, q: seq<byte>, op: Op): seq<byte>
    requires |q| <= cap
  {
    if op.Put? then op.data[..Min(|op.data|, cap - |q|)] else []
  }

  /** Bytes an operation removes: a drop of more than there is removes nothing. */
  function Emitted(q: seq<byte>, op: Op): seq<byte> {
    match op
    case Put(_) => []
    case Take(n) => q[..Min(n, |q|)]
    case Drop(n) => if n <= |q| then q[..n] else []
    case Straighten => []
  }

  /** The queue after an operation, as the contracts of the class state it. */
  function Next(cap: nat, q: seq<byte>, op: Op): (q': seq<byte>)
    requires |q| <= cap
    ensures |q'| <= cap
  {
    (q + Accepted(cap, q, op))[|Emitted(q, op)|..]
  }

  function AllAccepted(cap: nat, q: seq<byte>, ops: seq<Op>): seq<byte>
    requires |q| <= cap
    decreases |ops|
  {
    if ops == [] then [] else Accepted(cap, q, ops[0]) + AllAccepted(cap, Next(cap, q, ops[0]), ops[1..])
  }

  function AllEmitted(cap: nat, q: seq<byte>, ops: seq<Op>): seq<byte>
    requires |q| <= cap
    decreases |ops|
  {
    if ops == [] then [] else Emitted(q, ops[0]) + AllEmitted(cap, Next(cap, q, ops[0]), ops[1..])
  }

  function Final(cap: nat, q: seq<byte>, ops: seq<Op>): (q': seq<byte>)
    requires |q| <= cap
    ensures |q'| <= cap
    decreases |ops|
  {
    if ops == [] then q else Final(cap, Next(cap, q, ops[0]), ops[1..])
  }

  /**
    Over any run, the bytes accepted come out in order, each once: what was
    there and what was accepted is what came out and what is left.
   */
  lemma {:induction false} RunIsFifo(cap: nat, q: seq<byte>, ops: seq<Op>)
    requires |q| <= cap
    ensures q + AllAccepted(cap, q, ops) == AllEmitted(cap, q, ops) + Final(cap, q, ops)
    decreases |ops|
  {
    if ops == [] {
    } else {
      var a, e, q1 := Accepted(cap, q, ops[0]), Emitted(q, ops[0]), Next(cap, q, ops[0]);
      RunIsFifo(cap, q1, ops[1..]);
      NextBalances(cap, q, ops[0]);
      Regroup(q, a, AllAccepted(cap, q1, ops[1..]), e, q1, AllEmitted(cap, q1, ops[1..]), Final(cap, q1, ops[1..]));
    }
  }

  lemma NextBalances(cap: nat, q: seq<byte>, op: Op)
    requires |q| <= cap
    ensures q + Accepted(cap, q, op) == Emitted(q, op) + Next(cap, q, op)
  {
  }

  lemma Regroup(q: seq<byte>, a: seq<byte>, rest: seq<byte>, e: seq<byte>, q1: seq<byte>, out: seq<byte>,
                left: seq<byte>)
    requires q + a == e + q1 && q1 + rest == out + left
    ensures q + (a + rest) == (e + out) + left
  {
    assert q + (a + rest) == (q + a) + rest;
    assert (e + q1) + rest == e + (q1 + rest);
    assert e + (out + left) == (e + out) + left;
  }

  // ---- every run of the class ----

  /** The buffer is full whenever it is to be straightened, as the source assumes. */
  predicate Straightens(cap: nat, q: seq<byte>, ops: seq<Op>)
    requires |q| <= cap
    decreases |ops|
  {
    ops != [] ==> (ops[0].Straighten? ==> |q| == cap) && Straightens(cap, Next(cap, q, ops[0]), ops[1..])
  }

  lemma NextByOperation(cap: nat, q: seq<byte>, data: seq<byte>, n: nat)
    requires |q| <= cap
    ensures Next(cap, q, Straighten) == q
    ensures Next(cap, q, Put(data)) == q + data[..Min(|data|, cap - |q|)]
    ensures Next(cap, q, Take(n)) == q[Min(n, |q|)..]
    ensures Next(cap, q, Drop(n)) == if n <= |q| then q[n..] else q
  {
    assert q + [] == q;
  }

  method TakeOut(r: Ring, length: nat) returns (got: seq<byte>)
    requires r.Valid()
    modifies r
    ensures r.Valid() && r.Contents() == Next(r.cap, old(r.Contents()), Take(length))
    ensures got == Emitted(old(r.Contents()), Take(length))
  {
    NextByOperation(r.cap, r.Contents(), [], length);
    var dest := new byte[length];
    var n := r.Read(dest, length);
    got := dest[..n];
  }

  /** Do one operation; what it stored, and what it handed out. */
  method Perform(r: Ring, op: Op) returns (put: seq<byte>, got: seq<byte>)
    requires r.Valid() && (op.Straighten? ==> r.used == r.cap)
    modifies r, r.buffer
    ensures r.Valid() && r.Contents() == Next(r.cap, old(r.Contents()), op)
    ensures put == Accepted(r.cap, old(r.Contents()), op)
    ensures got == if op.Take? then Emitted(old(r.Contents()), op) else []
  {
    put, got := [], [];
    ghost var q := r.Contents();
    match op
    case Put(data) =>
      NextByOperation(r.cap, q, data, 0);
      var n := r.Write(data);
      put := data[..n];
    case Take(length) =>
      got := TakeOut(r, length);
    case Drop(length) =>
      NextByOperation(r.cap, q, [], length);
      var n := r.Discard(length);
    case Straighten =>
      NextByOperation(r.cap, q, [], 0);
      ghost var cycles, moves := r.Sequentialize();
  }

  /** Bytes handed out over a run; those dropped are not. */
  function AllTaken(cap: nat, q: seq<byte>, ops: seq<Op>): seq<byte>
    requires |q| <= cap
    decreases |ops|
  {
    if ops == [] then []
    else (if ops[0].Take? then Emitted(q, ops[0]) else []) + AllTaken(cap, Next(cap, q, ops[0]), ops[1..])
  }

  lemma {:induction false} TakenIsEmitted(cap: nat, q: seq<byte>, ops: seq<Op>)
    requires |q| <= cap && forall k :: 0 <= k < |ops| ==> !ops[k].Drop?
    ensures AllTaken(cap, q, ops) == AllEmitted(cap, q, ops)
    decreases |ops|
  {
    if ops == [] {
    } else {
      TakenIsEmitted(cap, Next(cap, q, ops[0]), ops[1..]);
    }
  }

  /** What is left of a run: the bytes so far and those to come are all of them. */
  ghost predicate Underway(cap: nat, q0: seq<byte>, all: seq<Op>, put: seq<byte>, got: seq<byte>, q: seq<byte>,
                           rest: seq<Op>)
    requires |q0| <= cap && |q| <= cap
  {
    && put + AllAccepted(cap, q, rest) == AllAccepted(cap, q0, all)
    && got + AllTaken(cap, q, rest) == AllTaken(cap, q0, all)
    && Final(cap, q, rest) == Final(cap, q0, all)
    && Straightens(cap, q, rest)
  }

  lemma RunStep(cap: nat, q0: seq<byte>, all: seq<Op>, put: seq<byte>, got: seq<byte>, q: seq<byte>, rest: seq<Op>)
    requires |q0| <= cap && |q| <= cap && rest != [] && Underway(cap, q0, all, put, got, q, rest)
    ensures var op := rest[0];
            Underway(cap, q0, all, put + Accepted(cap, q, op), got + (if op.Take? then Emitted(q, op) else []),
                     Next(cap, q, op), rest[1..])
  {
    var op, q' := rest[0], Next(cap, q, rest[0]);
    Associates(put, Accepted(cap, q, op), AllAccepted(cap, q', rest[1..]));
    Associates(got, if op.Take? then Emitted(q, op) else [], AllTaken(cap, q', rest[1..]));
  }

  lemma Associates(a: seq<byte>, b: seq<byte>, c: seq<byte>)
    ensures a + (b + c) == (a + b) + c
  {
  }

  /**
    Drive a ring through any operations, straightening it only when it is
    full. Without drops, what it held and was
    given is what it has handed out and still holds.
   */
  method Drive(r: Ring, ops: seq<Op>) returns (put: seq<byte>, got: seq<byte>)
    requires r.Valid() && Straightens(r.cap, r.Contents(), ops)
    modifies r, r.buffer
    ensures r.Valid() && r.Contents() == Final(r.cap, old(r.Contents()), ops)
    ensures put == AllAccepted(r.cap, old(r.Contents()), ops) && got == AllTaken(r.cap, old(r.Contents()), ops)
    ensures (forall k :: 0 <= k < |ops| ==> !ops[k].Drop?) ==> old(r.Contents()) + put == got + r.Contents()
  {
    put, got := [], [];
    ghost var q0 := r.Contents();
    for i := 0 to |ops|
      invariant r.Valid() && Underway(r.cap, q0, ops, put, got, r.Contents(), ops[i..])
    {
      RunStep(r.cap, q0, ops, put, got, r.Contents(), ops[i..]);
      assert ops[i..][0] == ops[i] && ops[i..][1..] == ops[i + 1..];
      var p, g := Perform(r, ops[i]);
      put, got := put + p, got + g;
    }
    RunIsFifo(r.cap, q0, ops);
    if forall k :: 0 <= k < |ops| ==> !ops[k].Drop? {
      TakenIsEmitted(r.cap, q0, ops);
    }
  }
}
