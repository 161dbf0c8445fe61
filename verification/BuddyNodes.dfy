/**
  What the flag bytes of the buddy allocator mean: when they are consistent,
  what the one-byte and the recursive queries answer, and that the bytes are
  determined by which nodes are taken (api/util/alloc_buddy.hpp, Node_view).
 */
module BuddyNodes {
  import opened Bits
  import opened BuddyTree

  /** Lengths of node arrays: every parent has two children. */
  predicate Shaped(s: seq<bv8>) { |s| % 2 == 1 }

  predicate IsParent(s: seq<bv8>, i: nat) { Right(i) < |s| }

  /** A taken node carries no other flag over idle children; any other parent summarises its children. */
  predicate NodeOk(s: seq<bv8>, i: nat)
    requires i < |s|
  {
    if IsParent(s, i) then
      || (s[i] == TAKEN && s[Left(i)] == 0 && s[Right(i)] == 0)
      || s[i] == Summary(s[Left(i)], s[Right(i)])
    else
      s[i] == 0 || s[i] == TAKEN
  }

  ghost predicate SubtreeOk(s: seq<bv8>, i: nat) {
    forall j: nat :: j < |s| && Within(i, j) ==> NodeOk(s, j)
  }

  ghost predicate WellFormed(h: nat, s: seq<bv8>) {
    h >= 1 && |s| == NodeCount(h) && forall j: nat :: j < |s| ==> NodeOk(s, j)
  }

  ghost function TakenSet(s: seq<bv8>): set<nat> {
    set j: nat | j < |s| && Taken(s[j])
  }

  /** Taken nodes in the subtree of i. */
  ghost function TakenIn(s: seq<bv8>, i: nat): set<nat> {
    set j: nat | j < |s| && Within(i, j) && Taken(s[j])
  }

  lemma SubtreeOfChildren(s: seq<bv8>, i: nat)
    requires IsParent(s, i) && SubtreeOk(s, i)
    ensures SubtreeOk(s, Left(i)) && SubtreeOk(s, Right(i))
  {
    forall j: nat | j < |s| && (Within(Left(i), j) || Within(Right(i), j))
      ensures NodeOk(s, j)
    {
      WithinSplit(i, j);
    }
  }

  lemma SubtreeOfLeaf(s: seq<bv8>, i: nat, j: nat)
    requires Shaped(s) && i < |s| && !IsParent(s, i) && j < |s| && Within(i, j)
    ensures j == i
  {
    if j != i {
      WithinSplit(i, j);
      if Within(Left(i), j) { WithinOrder(Left(i), j); }
      if Within(Right(i), j) { WithinOrder(Right(i), j); }
    }
  }

  lemma TakenInSplit(s: seq<bv8>, i: nat)
    requires Shaped(s) && i < |s|
    ensures IsParent(s, i) ==>
              TakenIn(s, i) == (if Taken(s[i]) then {i} else {}) + TakenIn(s, Left(i)) + TakenIn(s, Right(i))
    ensures !IsParent(s, i) ==> TakenIn(s, i) == if Taken(s[i]) then {i} else {}
    ensures TakenIn(s, Left(i)) !! TakenIn(s, Right(i))
    ensures i !in TakenIn(s, Left(i)) + TakenIn(s, Right(i))
  {
    forall j: nat | j < |s|
      ensures Within(i, j) <==> j == i || Within(Left(i), j) || Within(Right(i), j)
      ensures !(Within(Left(i), j) && Within(Right(i), j))
      ensures !Within(Left(i), i) && !Within(Right(i), i)
      ensures !IsParent(s, i) && Within(i, j) ==> j == i
    {
      WithinSplit(i, j);
      if !IsParent(s, i) && Within(i, j) { SubtreeOfLeaf(s, i, j); }
    }
  }

  lemma TakenInRoot(s: seq<bv8>)
    ensures TakenIn(s, 0) == TakenSet(s)
  {
    forall j: nat ensures Within(0, j) { WithinRoot(j); }
  }

  lemma WellFormedSubtree(h: nat, s: seq<bv8>, i: nat)
    requires WellFormed(h, s)
    ensures Shaped(s) && SubtreeOk(s, i)
  {
    assert Pow2(h) == 2 * Pow2(h - 1);
  }

  /** A flag byte is zero exactly when nothing in the subtree is taken. */
  lemma {:induction false} ZeroIffIdle(s: seq<bv8>, i: nat)
    requires Shaped(s) && i < |s| && SubtreeOk(s, i)
    ensures s[i] == 0 <==> TakenIn(s, i) == {}
    decreases |s| - i
  {
    assert Within(i, i) && NodeOk(s, i);
    TakenInSplit(s, i);
    if IsParent(s, i) {
      SubtreeOfChildren(s, i);
      ZeroIffIdle(s, Left(i));
      ZeroIffIdle(s, Right(i));
    }
  }

  /** A taken node carries only that flag and everything below it is zero. */
  lemma {:induction false} BelowTakenIsZero(s: seq<bv8>, i: nat, j: nat)
    requires Shaped(s) && i < |s| && SubtreeOk(s, i) && Taken(s[i])
    requires Within(i, j) && j < |s|
    ensures s[j] == if j == i then TAKEN else 0
    decreases j
  {
    assert Within(i, i) && NodeOk(s, i);
    if j != i {
      BelowTakenIsZero(s, i, Parent(j));
      assert NodeOk(s, Parent(j));
      assert j == Left(Parent(j)) || j == Right(Parent(j));
    }
  }

  // ---- the recursive queries ----

  predicate IsFullR(s: seq<bv8>, i: nat)
    requires i < |s|
    decreases |s| - i
  {
    Taken(s[i]) || (IsParent(s, i) && IsFullR(s, Left(i)) && IsFullR(s, Right(i)))
  }

  predicate IsFreeR(s: seq<bv8>, i: nat)
    requires i < |s|
    decreases |s| - i
  {
    var lfree := !IsParent(s, i) || IsFreeR(s, Left(i));
    var rfree := !IsParent(s, i) || IsFreeR(s, Right(i));
    !Taken(s[i]) && lfree && rfree
  }

  function BytesUsedR(h: nat, s: seq<bv8>, i: nat): nat
    requires i < |s|
    decreases |s| - i
  {
    if Taken(s[i]) then Size(h, i)
    else if IsParent(s, i) then BytesUsedR(h, s, Left(i)) + BytesUsedR(h, s, Right(i))
    else 0
  }

  /** Offset just past the last used block, following the flag bytes down. */
  function HighestUsedR(h: nat, s: seq<bv8>, i: nat): nat
    requires i < |s|
    decreases |s| - i
  {
    if s[i] == 0 then Offset(h, i)
    else if Taken(s[i]) || !IsParent(s, i) then Offset(h, i) + Size(h, i)
    else if s[Right(i)] != 0 then HighestUsedR(h, s, Right(i))
    else HighestUsedR(h, s, Left(i))
  }

  /** The one-byte queries answer what the recursive ones compute. */
  lemma {:induction false} FastQueriesAgree(s: seq<bv8>, i: nat)
    requires Shaped(s) && i < |s| && SubtreeOk(s, i)
    ensures Full(s[i]) <==> IsFullR(s, i)
    ensures s[i] == 0 <==> IsFreeR(s, i)
    decreases |s| - i
  {
    assert Within(i, i) && NodeOk(s, i);
    if IsParent(s, i) {
      SubtreeOfChildren(s, i);
      FastQueriesAgree(s, Left(i));
      FastQueriesAgree(s, Right(i));
    }
  }

  /** The flag bytes are a function of the set of taken nodes. */
  lemma {:induction false} FlagsDeterminedByTaken(s: seq<bv8>, t: seq<bv8>, i: nat)
    requires Shaped(s) && |s| == |t| && i < |s|
    requires SubtreeOk(s, i) && SubtreeOk(t, i) && TakenIn(s, i) == TakenIn(t, i)
    ensures forall j: nat :: j < |s| && Within(i, j) ==> s[j] == t[j]
    decreases |s| - i
  {
    assert Within(i, i) && NodeOk(s, i) && NodeOk(t, i);
    TakenInSplit(s, i);
    TakenInSplit(t, i);
    assert Taken(s[i]) <==> i in TakenIn(s, i);
    assert Taken(t[i]) <==> i in TakenIn(t, i);
    if IsParent(s, i) {
      SubtreeOfChildren(s, i);
      SubtreeOfChildren(t, i);
      ChildTakenEqual(s, t, i);
      FlagsDeterminedByTaken(s, t, Left(i));
      FlagsDeterminedByTaken(s, t, Right(i));
      assert Within(Left(i), Left(i)) && Within(Right(i), Right(i));
    }
    forall j: nat | j < |s| && Within(i, j)
      ensures s[j] == t[j]
    {
      WithinSplit(i, j);
      if !IsParent(s, i) { SubtreeOfLeaf(s, i, j); }
    }
  }

  lemma ChildTakenEqual(s: seq<bv8>, t: seq<bv8>, i: nat)
    requires Shaped(s) && |s| == |t| && IsParent(s, i)
    requires TakenIn(s, i) == TakenIn(t, i)
    ensures TakenIn(s, Left(i)) == TakenIn(t, Left(i))
    ensures TakenIn(s, Right(i)) == TakenIn(t, Right(i))
  {
    forall j: nat | j < |s| && (Within(Left(i), j) || Within(Right(i), j))
      ensures Taken(s[j]) <==> Taken(t[j])
    {
      WithinSplit(i, j);
      assert j in TakenIn(s, i) <==> Taken(s[j]);
      assert j in TakenIn(t, i) <==> Taken(t[j]);
    }
  }

  /** Whole-array form: equal taken sets mean equal arrays. */
  lemma Canonical(h: nat, s: seq<bv8>, t: seq<bv8>)
    requires WellFormed(h, s) && WellFormed(h, t) && TakenSet(s) == TakenSet(t)
    ensures s == t
  {
    WellFormedSubtree(h, s, 0);
    WellFormedSubtree(h, t, 0);
    TakenInRoot(s);
    TakenInRoot(t);
    assert Pow2(h) == 2 * Pow2(h - 1);
    FlagsDeterminedByTaken(s, t, 0);
    forall j: nat | j < |s|
      ensures s[j] == t[j]
    {
      WithinRoot(j);
    }
  }

  // ---- sums over blocks ----

  ghost function TotalSize(h: nat, blocks: set<nat>): nat {
    if blocks == {} then 0 else
      var b :| b in blocks;
      Size(h, b) + TotalSize(h, blocks - {b})
  }

  lemma {:induction false} TotalSizeRemove(h: nat, blocks: set<nat>, b: nat)
    requires b in blocks
    ensures TotalSize(h, blocks) == Size(h, b) + TotalSize(h, blocks - {b})
    decreases blocks
  {
    var c :| c in blocks && TotalSize(h, blocks) == Size(h, c) + TotalSize(h, blocks - {c});
    if c != b {
      TotalSizeRemove(h, blocks - {c}, b);
      TotalSizeRemove(h, blocks - {b}, c);
      assert blocks - {c} - {b} == blocks - {b} - {c};
    }
  }

  lemma {:induction false} TotalSizeUnion(h: nat, a: set<nat>, b: set<nat>)
    requires a !! b
    ensures TotalSize(h, a + b) == TotalSize(h, a) + TotalSize(h, b)
    decreases a
  {
    if a == {} {
      assert a + b == b;
    } else {
      var x :| x in a;
      TotalSizeRemove(h, a, x);
      TotalSizeRemove(h, a + b, x);
      TotalSizeUnion(h, a - {x}, b);
      assert a + b - {x} == (a - {x}) + b;
    }
  }

  /** The recursive byte count adds up the taken blocks. */
  lemma {:induction false} BytesUsedIsTotal(h: nat, s: seq<bv8>, i: nat)
    requires Shaped(s) && i < |s| && SubtreeOk(s, i)
    ensures BytesUsedR(h, s, i) == TotalSize(h, TakenIn(s, i))
    decreases |s| - i
  {
    if Taken(s[i]) {
      TakenAlone(s, i);
      TotalSizeRemove(h, {i}, i);
      assert {i} - {i} == {};
    } else if IsParent(s, i) {
      SubtreeOfChildren(s, i);
      BytesUsedIsTotal(h, s, Left(i));
      BytesUsedIsTotal(h, s, Right(i));
      assert TakenIn(s, i) == TakenIn(s, Left(i)) + TakenIn(s, Right(i))
        && TakenIn(s, Left(i)) !! TakenIn(s, Right(i)) by {
        TakenInSplit(s, i);
      }
      TotalSizeUnion(h, TakenIn(s, Left(i)), TakenIn(s, Right(i)));
    } else {
      TakenInSplit(s, i);
    }
  }

  lemma TakenAlone(s: seq<bv8>, i: nat)
    requires Shaped(s) && i < |s| && SubtreeOk(s, i) && Taken(s[i])
    ensures TakenIn(s, i) == {i}
  {
    forall j | j in TakenIn(s, i)
      ensures j == i
    {
      BelowTakenIsZero(s, i, j);
    }
    assert Within(i, i);
  }

  /** The highest-used query finds the largest end of a taken block. */
  lemma {:induction false} HighestUsedIsMax(h: nat, s: seq<bv8>, i: nat)
    requires |s| == NodeCount(h) && Shaped(s) && i < |s| && SubtreeOk(s, i)
    ensures forall j :: j in TakenIn(s, i) ==> Offset(h, j) + Size(h, j) <= HighestUsedR(h, s, i)
    ensures if TakenIn(s, i) == {} then HighestUsedR(h, s, i) == Offset(h, i)
            else exists j :: j in TakenIn(s, i) && Offset(h, j) + Size(h, j) == HighestUsedR(h, s, i)
    decreases |s| - i
  {
    TakenInSplit(s, i);
    ZeroIffIdle(s, i);
    assert Within(i, i) && NodeOk(s, i);
    if Taken(s[i]) {
      assert i in TakenIn(s, i);
      forall j | j in TakenIn(s, i)
        ensures Offset(h, j) + Size(h, j) <= HighestUsedR(h, s, i)
      {
        RangeNested(h, i, j);
      }
    } else if s[i] != 0 && IsParent(s, i) {
      SubtreeOfChildren(s, i);
      HighestUsedIsMax(h, s, Left(i));
      HighestUsedIsMax(h, s, Right(i));
      ZeroIffIdle(s, Left(i));
      ZeroIffIdle(s, Right(i));
      if s[Right(i)] != 0 {
        HighestOnRight(h, s, i);
      }
    }
  }

  lemma HighestOnRight(h: nat, s: seq<bv8>, i: nat)
    requires |s| == NodeCount(h) && IsParent(s, i) && TakenIn(s, Right(i)) != {}
    requires forall j :: j in TakenIn(s, Right(i)) ==> Offset(h, j) + Size(h, j) <= HighestUsedR(h, s, Right(i))
    ensures forall j :: j in TakenIn(s, Left(i)) ==> Offset(h, j) + Size(h, j) <= HighestUsedR(h, s, Right(i))
  {
    ChildGeometry(h, i);
    var k :| k in TakenIn(s, Right(i));
    RangeNested(h, Right(i), k);
    forall j | j in TakenIn(s, Left(i))
      ensures Offset(h, j) + Size(h, j) <= HighestUsedR(h, s, Right(i))
    {
      RangeNested(h, Left(i), j);
    }
  }
}
