/** The symbol pruner of vmbuild/elf_syms.cpp: keep function and untyped symbols and move their names together. */
module ElfPrune {
  import opened Bytes
  import opened Intervals
  import opened Pieces

  /** A symbol table entry; `rest` is everything but its name offset and its info byte. */
  datatype Sym = Sym(name: nat, info: byte, rest: nat)

  const STT_NOTYPE := 0
  const STT_FUNC := 2
  const U32 := 0x1_0000_0000

  predicate Wanted(s: Sym) {
    s.info % 16 == STT_FUNC || s.info % 16 == STT_NOTYPE
  }

  /** The wanted symbols, in order. */
  function Kept(syms: seq<Sym>): (r: seq<Sym>)
    ensures |r| <= |syms|
  {
    if syms == [] then []
    else
      var r, last := Kept(syms[..|syms| - 1]), syms[|syms| - 1];
      if Wanted(last) then r + [last] else r
  }

  lemma KeptStep(syms: seq<Sym>, i: nat)
    requires i < |syms|
    ensures Kept(syms[..i + 1]) == if Wanted(syms[i]) then Kept(syms[..i]) + [syms[i]] else Kept(syms[..i])
  {
    assert syms[..i + 1][..i] == syms[..i];
  }

  /** Where a symbol goes: after the wanted ones before it. */
  function Rank(syms: seq<Sym>, j: nat): nat
    requires j <= |syms|
  {
    |Kept(syms[..j])|
  }

  /** Every symbol of type 0 or 2, untyped or a function, is kept, in its old order. */
  lemma {:induction false} KeptAt(syms: seq<Sym>, j: nat, n: nat)
    requires j < n <= |syms| && syms[j].info % 16 in {0, 2}
    ensures Rank(syms, j) < Rank(syms, n) && Kept(syms[..n])[Rank(syms, j)] == syms[j]
    decreases n
  {
    KeptStep(syms, n - 1);
    if j < n - 1 {
      KeptAt(syms, j, n - 1);
    }
  }

  /** Every symbol kept is one of them. */
  lemma {:induction false} KeptFrom(syms: seq<Sym>, i: nat, n: nat) returns (j: nat)
    requires 0 < n <= |syms| && i < |Kept(syms[..n])|
    ensures j < n && syms[j].info % 16 in {0, 2} && Rank(syms, j) == i && Kept(syms[..n])[i] == syms[j]
    decreases n
  {
    KeptStep(syms, n - 1);
    if i < |Kept(syms[..n - 1])| {
      j := KeptFrom(syms, i, n - 1);
    } else {
      j := n - 1;
    }
  }

  // ---- strings ----

  /** A zero byte follows at or after the offset. */
  ghost predicate Terminated(strtab: seq<byte>, off: nat) {
    exists e :: off <= e < |strtab| && strtab[e] == 0
  }

  /** Length of the string at an offset. */
  function StrLen(strtab: seq<byte>, off: nat): (n: nat)
    requires Terminated(strtab, off)
    ensures off + n < |strtab| && strtab[off + n] == 0
    ensures forall k :: off <= k < off + n ==> strtab[k] != 0
    decreases |strtab| - off
  {
    if strtab[off] == 0 then 0 else StrLen(strtab, off + 1) + 1
  }

  /** The string at an offset, with its terminator. */
  function StrAt(strtab: seq<byte>, off: nat): (s: seq<byte>)
    requires Terminated(strtab, off)
  {
    strtab[off..off + StrLen(strtab, off) + 1]
  }

  ghost predicate AllTerminated(strtab: seq<byte>, syms: seq<Sym>) {
    forall i :: 0 <= i < |syms| ==> Terminated(strtab, syms[i].name)
  }

  /** The name of every symbol. */
  function NameList(strtab: seq<byte>, syms: seq<Sym>): (names: seq<seq<byte>>)
    requires AllTerminated(strtab, syms)
    ensures |names| == |syms| && forall i {:trigger names[i]} :: 0 <= i < |syms| ==>
            names[i] == StrAt(strtab, syms[i].name)
  {
    seq(|syms|, i requires 0 <= i < |syms| => StrAt(strtab, syms[i].name))
  }

  /** The first k symbols renamed to where their names now are; offsets are stored in 32 bits. */
  ghost predicate Renamed(names: seq<seq<byte>>, syms: seq<Sym>, out: seq<Sym>, k: nat)
    requires k <= |syms| == |names|
  {
    |out| == |syms| && forall i {:trigger out[i]} :: 0 <= i < |syms| ==>
      out[i] == if i < k then syms[i].(name := |Join(names[..i])| % U32) else syms[i]
  }

  /** Copy the wanted symbols to the front of a table of their own. */
  method PruneSyms(syms: seq<Sym>) returns (symloc: array<Sym>, symidx: nat)
    ensures fresh(symloc) && symidx <= symloc.Length && symloc[..symidx] == Kept(syms)
  {
    symloc := new Sym[|syms|];
    symidx := 0;
    for i := 0 to |syms|
      invariant symidx <= i && symloc[..symidx] == Kept(syms[..i])
    {
      KeptStep(syms, i);
      if Wanted(syms[i]) {
        symloc[symidx] := syms[i];
        symidx := symidx + 1;
      }
    }
    assert syms[..|syms|] == syms;
  }

  lemma RenamedStep(names: seq<seq<byte>>, syms: seq<Sym>, before: seq<Sym>, after: seq<Sym>, i: nat)
    requires i < |syms| == |names| && Renamed(names, syms, before, i)
    requires after == before[i := before[i].(name := |Join(names[..i])| % U32)]
    ensures Renamed(names, syms, after, i + 1) && Join(names[..i + 1]) == Join(names[..i]) + names[i]
  {
    JoinMore(names, i);
  }

  /** Move the names of the first symbols of a table together, one by one. */
  method MoveNames(symloc: array<Sym>, symidx: nat, strtab: seq<byte>, ghost names: seq<seq<byte>>)
    returns (strs: seq<byte>)
    requires symidx <= symloc.Length && AllTerminated(strtab, symloc[..symidx])
    requires names == NameList(strtab, symloc[..symidx])
    modifies symloc
    ensures Renamed(names, old(symloc[..symidx]), symloc[..symidx], symidx) && strs == Join(names)
  {
    ghost var kept := symloc[..symidx];
    strs := [];
    var index := 0;
    for i := 0 to symidx
      invariant Renamed(names, kept, symloc[..symidx], i)
      invariant strs == Join(names[..i]) && index == |strs|
    {
      ghost var before := symloc[..symidx];
      assert before[i] == kept[i] && names[i] == StrAt(strtab, kept[i].name);
      var org := StrAt(strtab, symloc[i].name);
      symloc[i] := symloc[i].(name := index % U32);
      RenamedStep(names, kept, before, symloc[..symidx], i);
      strs := strs + org;
      index := index + |org|;
    }
    assert names[..symidx] == names;
  }

  method RelocatePruned(syms: seq<Sym>, strtab: seq<byte>) returns (out: seq<Sym>, strs: seq<byte>)
    requires AllTerminated(strtab, Kept(syms))
    ensures var names := NameList(strtab, Kept(syms));
            Renamed(names, Kept(syms), out, |Kept(syms)|) && strs == Join(names)
  {
    var symloc, symidx := PruneSyms(syms);
    strs := MoveNames(symloc, symidx, strtab, NameList(strtab, Kept(syms)));
    out := symloc[..symidx];
  }

  /** A string copied whole, terminator included, reads as before. */
  lemma CopyReads(from: seq<byte>, off: nat, to: seq<byte>, at: nat, n: nat)
    requires Terminated(from, off) && n == StrLen(from, off) && at + n + 1 <= |to|
    requires to[at..at + n + 1] == from[off..off + n + 1]
    ensures Terminated(to, at) && StrLen(to, at) == n && StrAt(to, at) == StrAt(from, off)
  {
    forall k {:trigger to[k]} | at <= k <= at + n
      ensures to[k] == from[k - at + off]
    {
      assert to[at..at + n + 1][k - at] == from[off..off + n + 1][k - at];
    }
    assert to[at + n] == 0;
    var m := StrLen(to, at);
    assert m <= n ==> to[at + m] == from[off + m];
  }

  lemma PieceReads(strtab: seq<byte>, off: nat, names: seq<seq<byte>>, i: nat, at: nat)
    requires Terminated(strtab, off) && i < |names| && names[i] == StrAt(strtab, off) && at == |Join(names[..i])|
    ensures Terminated(Join(names), at) && StrAt(Join(names), at) == StrAt(strtab, off)
  {
    JoinPiece(names, i);
    CopyReads(strtab, off, Join(names), at, StrLen(strtab, off));
  }

  /** Every new offset leads to the symbol's old name, as long as offsets fit in 32 bits. */
  lemma NamesReadBack(strtab: seq<byte>, syms: seq<Sym>, names: seq<seq<byte>>, out: seq<Sym>, i: nat)
    requires AllTerminated(strtab, syms) && i < |syms| && names == NameList(strtab, syms)
    requires Renamed(names, syms, out, |syms|) && |Join(names)| <= U32
    ensures Terminated(Join(names), out[i].name) && StrAt(Join(names), out[i].name) == StrAt(strtab, syms[i].name)
  {
    assert names[i] == StrAt(strtab, syms[i].name);
    OffsetIs(names, syms, out, i);
    PieceReads(strtab, syms[i].name, names, i, out[i].name);
  }

  lemma OffsetIs(names: seq<seq<byte>>, syms: seq<Sym>, out: seq<Sym>, i: nat)
    requires i < |syms| == |names| && names[i] != [] && Renamed(names, syms, out, |syms|) && |Join(names)| <= U32
    ensures out[i].name == |Join(names[..i])|
  {
    JoinPiece(names, i);
  }

  // ---- the buffer ----

  /** Bytes of n symbols of a given size. */
  function SymBytes(n: nat, size: nat): nat {
    if n == 0 then 0 else SymBytes(n - 1, size) + size
  }

  lemma {:induction false} SymBytesAdd(k: nat, n: nat, size: nat)
    ensures SymBytes(k + n, size) == SymBytes(k, size) + SymBytes(n, size)
    decreases n
  {
    if n == 0 {
    } else {
      SymBytesAdd(k, n - 1, size);
    }
  }

  /** Bytes of symbols and strings in the output, for symbols of a given size. */
  ghost function OutputSize(syms: seq<Sym>, strtab: seq<byte>, symSize: nat): nat
    requires AllTerminated(strtab, Kept(syms))
  {
    SymBytes(|Kept(syms)|, symSize) + |Join(NameList(strtab, Kept(syms)))|
  }

  /** Bytes allocated for them. */
  function Allocated(syms: seq<Sym>, strtab: seq<byte>, symSize: nat): nat {
    SymBytes(|syms|, symSize) + |strtab|
  }

  /** Where the names of symbols lie in the string table. */
  ghost function NameBlocks(strtab: seq<byte>, syms: seq<Sym>): (bs: seq<Block>)
    requires AllTerminated(strtab, syms)
    ensures |bs| == |syms| && Within(bs, |strtab|) && Measures(bs, NameList(strtab, syms))
  {
    var names := NameList(strtab, syms);
    seq(|syms|, i requires 0 <= i < |syms| => Block(syms[i].name, |names[i]|))
  }

  ghost predicate Measures(bs: seq<Block>, names: seq<seq<byte>>) {
    |bs| == |names| && forall i {:trigger bs[i]} :: 0 <= i < |bs| ==> bs[i].size == |names[i]|
  }

  lemma {:induction false} SumMeasures(bs: seq<Block>, names: seq<seq<byte>>, k: nat)
    requires Measures(bs, names) && k <= |bs|
    ensures Sum(bs[..k]) == |Join(names[..k])|
    decreases k
  {
    if k == 0 {
    } else {
      SumMeasures(bs, names, k - 1);
      JoinMore(names, k - 1);
      SumSnoc(bs[..k - 1], bs[k - 1]);
      assert bs[..k] == bs[..k - 1] + [bs[k - 1]];
    }
  }

  /**
    The output fits its buffer if and only if the bytes of the string table
    that kept names share, each counted once for every name after the first,
    are no more than the bytes in no kept name and the dropped symbols
    together.
   */
  lemma OutputFits(syms: seq<Sym>, strtab: seq<byte>, symSize: nat)
    requires AllTerminated(strtab, Kept(syms))
    ensures var bs := NameBlocks(strtab, Kept(syms));
            OutputSize(syms, strtab, symSize) <= Allocated(syms, strtab, symSize) <==>
            Surplus(bs, |strtab|) <= Uncovered(bs, |strtab|) + SymBytes(|syms| - |Kept(syms)|, symSize)
  {
    var k, e := |Kept(syms)|, |syms|;
    NamesBalance(NameBlocks(strtab, Kept(syms)), NameList(strtab, Kept(syms)), |strtab|);
    SymBytesAdd(k, e - k, symSize);
  }

  /** So it does when no byte of the table is part of two kept names. */
  lemma ApartNamesFit(syms: seq<Sym>, strtab: seq<byte>, symSize: nat)
    requires AllTerminated(strtab, Kept(syms)) && Once(NameBlocks(strtab, Kept(syms)))
    ensures OutputSize(syms, strtab, symSize) <= Allocated(syms, strtab, symSize)
  {
    OutputFits(syms, strtab, symSize);
    OnceNoSurplus(NameBlocks(strtab, Kept(syms)), |strtab|);
  }

  lemma NamesBalance(bs: seq<Block>, names: seq<seq<byte>>, n: nat)
    requires Measures(bs, names) && Within(bs, n)
    ensures |Join(names)| + Uncovered(bs, n) == n + Surplus(bs, n)
  {
    SumMeasures(bs, names, |bs|);
    assert bs[..|bs|] == bs && names[..|bs|] == names;
    SumBalance(bs, n);
  }

  /** Two functions that share a one-letter name need four bytes for names where two were allocated. */
  lemma SharedNameOverflows(rest: nat, symSize: nat)
    ensures var syms := [Sym(0, 2, rest), Sym(0, 2, rest)];
            && AllTerminated([97, 0], Kept(syms))
            && OutputSize(syms, [97, 0], symSize) == Allocated(syms, [97, 0], symSize) + 2
  {
    var s := Sym(0, 2, rest);
    var strtab: seq<byte> := [97, 0];
    assert [s, s][..1] == [s] && [s][..0] == [];
    assert Kept([s]) == [s] && Kept([s, s]) == [s, s];
    assert strtab[1] == 0;
    assert StrLen(strtab, 0) == 1;
    var names := NameList(strtab, [s, s]);
    assert names[0] == strtab[0..2] && names[1] == strtab[0..2] && names == [names[0]] + [names[1]];
    JoinSnoc([names[0]], names[1]);
    JoinSnoc([], names[0]);
    assert [] + [names[0]] == [names[0]];
  }
}
