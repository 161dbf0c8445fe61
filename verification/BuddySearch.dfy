/**
  Searching and marking in the node array: which nodes an allocation may take,
  and how the flags of a subtree are repaired when one node in it is taken or released.
 */
module BuddySearch {
  import opened BuddyTree
  import opened BuddyNodes

  /** Node n lies under i at height lvl and is unrelated to every taken node under i. */
  ghost predicate Candidate(s: seq<bv8>, i: nat, lvl: nat, n: nat) {
    && n < |s| && Within(i, n) && Height(n) == lvl
    && forall t :: t in TakenIn(s, i) ==> !Comparable(t, n)
  }

  ghost predicate NoCandidate(s: seq<bv8>, i: nat, lvl: nat) {
    forall m: nat :: !Candidate(s, i, lvl, m)
  }

  /** The lowest candidate; at one height this is the lowest address. */
  ghost predicate FirstCandidate(s: seq<bv8>, i: nat, lvl: nat, n: nat) {
    Candidate(s, i, lvl, n) && forall m: nat :: Candidate(s, i, lvl, m) ==> n <= m
  }

  lemma CandidateSelf(s: seq<bv8>, i: nat, n: nat)
    requires Shaped(s) && i < |s| && SubtreeOk(s, i)
    ensures Candidate(s, i, Height(i), n) <==> n == i && s[i] == 0
  {
    if Within(i, n) { WithinOrder(i, n); }
    ZeroIffIdle(s, i);
    assert Within(i, i);
    if t :| t in TakenIn(s, i) {
      assert Within(i, t);
      assert Comparable(t, i);
    }
  }

  lemma SelfCandidates(s: seq<bv8>, i: nat)
    requires Shaped(s) && i < |s| && SubtreeOk(s, i)
    ensures if s[i] == 0 then FirstCandidate(s, i, Height(i), i) else NoCandidate(s, i, Height(i))
  {
    forall m: nat
      ensures Candidate(s, i, Height(i), m) <==> m == i && s[i] == 0
    {
      CandidateSelf(s, i, m);
    }
  }

  lemma LeafHasNoCandidate(s: seq<bv8>, i: nat, lvl: nat)
    requires Shaped(s) && i < |s| && !IsParent(s, i) && Height(i) < lvl
    ensures NoCandidate(s, i, lvl)
  {
    forall n: nat | n < |s| && Within(i, n)
      ensures n == i
    {
      SubtreeOfLeaf(s, i, n);
    }
  }

  lemma CandidateSplit(s: seq<bv8>, i: nat, lvl: nat, n: nat)
    requires Shaped(s) && IsParent(s, i) && !Taken(s[i]) && Height(i) < lvl
    ensures Candidate(s, i, lvl, n) <==> Candidate(s, Left(i), lvl, n) || Candidate(s, Right(i), lvl, n)
  {
    WithinSplit(i, n);
    TakenInSplit(s, i);
    if n < |s| && Within(Left(i), n) {
      forall t | t in TakenIn(s, Right(i))
        ensures !Comparable(t, n)
      {
        SiblingsApart(i, n, t);
      }
    }
    if n < |s| && Within(Right(i), n) {
      forall t | t in TakenIn(s, Left(i))
        ensures !Comparable(t, n)
      {
        SiblingsApart(i, t, n);
      }
    }
  }

  /** A subtree flagged full has nothing to offer at any height. */
  lemma {:induction false} FullOffersNothing(s: seq<bv8>, i: nat, lvl: nat, n: nat)
    requires Shaped(s) && i < |s| && SubtreeOk(s, i) && Full(s[i])
    ensures !Candidate(s, i, lvl, n)
    decreases |s| - i
  {
    assert Within(i, i) && NodeOk(s, i);
    assert Taken(s[i]) ==> i in TakenIn(s, i);
    if !Taken(s[i]) && Candidate(s, i, lvl, n) {
      WithinOrder(i, n);
      if n == i {
        CandidateSelf(s, i, n);
      } else {
        CandidateSplit(s, i, lvl, n);
        SubtreeOfChildren(s, i);
        FullOffersNothing(s, Left(i), lvl, n);
        FullOffersNothing(s, Right(i), lvl, n);
      }
    }
  }

  /** At one height the left subtree comes before the right one. */
  lemma {:induction false} LeftBeforeRight(i: nat, m: nat, n: nat)
    requires Within(Left(i), m) && Within(Right(i), n) && Height(m) == Height(n)
    ensures m < n
    decreases n
  {
    if n > Right(i) {
      WithinOrder(Right(i), Parent(n));
      assert (n + 1) / 2 == Parent(n) + 1;
      if m == Left(i) {
        WithinOrder(Right(i), n);
        assert (Left(i) + 1) / 2 == i + 1 && (Right(i) + 1) / 2 == i + 1;
      } else {
        assert (m + 1) / 2 == Parent(m) + 1;
        LeftBeforeRight(i, Parent(m), Parent(n));
      }
    } else {
      assert (Left(i) + 1) / 2 == i + 1 && (Right(i) + 1) / 2 == i + 1;
      WithinOrder(Left(i), m);
    }
  }

  /** Candidates of a parent: those of its left child come first. */
  lemma CandidatesOfParent(s: seq<bv8>, i: nat, lvl: nat)
    requires Shaped(s) && IsParent(s, i) && !Taken(s[i]) && Height(i) < lvl
    ensures NoCandidate(s, Left(i), lvl) && NoCandidate(s, Right(i), lvl) ==> NoCandidate(s, i, lvl)
    ensures forall n :: FirstCandidate(s, Left(i), lvl, n) ==> FirstCandidate(s, i, lvl, n)
    ensures forall n :: NoCandidate(s, Left(i), lvl) && FirstCandidate(s, Right(i), lvl, n) ==>
                          FirstCandidate(s, i, lvl, n)
  {
    forall m: nat
      ensures Candidate(s, i, lvl, m) <==> Candidate(s, Left(i), lvl, m) || Candidate(s, Right(i), lvl, m)
    {
      CandidateSplit(s, i, lvl, m);
    }
    forall m: nat, n: nat | Candidate(s, Left(i), lvl, m) && Candidate(s, Right(i), lvl, n)
      ensures m < n
    {
      LeftBeforeRight(i, m, n);
    }
  }

  lemma FullHasNoCandidate(s: seq<bv8>, i: nat, lvl: nat)
    requires Shaped(s) && i < |s| && SubtreeOk(s, i) && Full(s[i])
    ensures NoCandidate(s, i, lvl)
  {
    forall m: nat ensures !Candidate(s, i, lvl, m) { FullOffersNothing(s, i, lvl, m); }
  }

  // ---- marking and repairing ----

  /** From s to t only the subtree of i changed; node n became taken (or released). */
  ghost predicate Changed(s: seq<bv8>, t: seq<bv8>, i: nat, n: nat, now: bool) {
    && |t| == |s| && n < |s| && Within(i, n)
    && (forall j: nat :: j < |s| && !Within(i, j) ==> t[j] == s[j])
    && (forall j: nat :: j < |s| && j != n ==> (Taken(t[j]) <==> Taken(s[j])))
    && Taken(s[n]) == !now && Taken(t[n]) == now
    && SubtreeOk(t, i)
  }

  /** A change in one child's subtree, with the parent's byte summarising again, is a change in the parent's subtree. */
  lemma LiftChange(s: seq<bv8>, t: seq<bv8>, u: seq<bv8>, i: nat, c: nat, d: nat, n: nat, now: bool)
    requires Shaped(s) && IsParent(s, i) && SubtreeOk(s, i) && !Taken(s[i])
    requires (c == Left(i) && d == Right(i)) || (c == Right(i) && d == Left(i))
    requires Changed(s, t, c, n, now)
    requires u == t[i := Summary(t[Left(i)], t[Right(i)])]
    ensures Changed(s, u, i, n, now)
  {
    SummaryNotTaken(t[Left(i)], t[Right(i)]);
    WithinSplit(i, n);
    forall j: nat | j < |u| && Within(i, j)
      ensures NodeOk(u, j)
    {
      LiftNodeOk(s, t, u, i, c, d, j);
    }
    forall j: nat | j < |s| && !Within(i, j)
      ensures u[j] == s[j]
    {
      WithinSplit(i, j);
    }
    WithinSplit(i, i);
  }

  lemma SummaryNotTaken(l: bv8, r: bv8)
    ensures !Taken(Summary(l, r))
    ensures l != 0 || r != 0 ==> Summary(l, r) != 0
    ensures !Full(l) || !Full(r) ==> !Full(Summary(l, r))
  {
  }

  /** The sibling of a changed child keeps its byte, and the parent its old one. */
  lemma SiblingKept(s: seq<bv8>, t: seq<bv8>, i: nat, c: nat, d: nat, n: nat, now: bool)
    requires IsParent(s, i) && Changed(s, t, c, n, now)
    requires (c == Left(i) && d == Right(i)) || (c == Right(i) && d == Left(i))
    ensures t[d] == s[d] && t[i] == s[i]
  {
    assert Within(d, d);
    WithinSplit(i, d);
    WithinSplit(i, i);
  }

  lemma LiftNodeOk(s: seq<bv8>, t: seq<bv8>, u: seq<bv8>, i: nat, c: nat, d: nat, j: nat)
    requires Shaped(s) && IsParent(s, i) && SubtreeOk(s, i) && |s| == |t| == |u|
    requires (c == Left(i) && d == Right(i)) || (c == Right(i) && d == Left(i))
    requires SubtreeOk(t, c) && forall k: nat :: k < |s| && !Within(c, k) ==> t[k] == s[k]
    requires u == t[i := u[i]] && u[i] == Summary(t[Left(i)], t[Right(i)])
    requires j < |s| && Within(i, j)
    ensures NodeOk(u, j)
  {
    WithinSplit(i, j);
    if j != i {
      WithinSplit(j, Left(j));
      WithinSplit(j, Right(j));
      WithinOrder(i, j);
      if Within(c, j) {
        assert NodeOk(t, j);
      } else {
        assert NodeOk(s, j);
        NotBelow(i, c, d, j);
      }
    }
  }

  lemma NotBelow(i: nat, c: nat, d: nat, j: nat)
    requires (c == Left(i) && d == Right(i)) || (c == Right(i) && d == Left(i))
    requires Within(d, j)
    ensures !Within(c, j) && !Within(c, Left(j)) && !Within(c, Right(j))
  {
    assert Parent(Left(j)) == j && Parent(Right(j)) == j;
    WithinSplit(i, j);
    WithinSplit(i, Left(j));
    WithinSplit(i, Right(j));
    WithinOrder(d, j);
  }

  /** Taking a free node, or releasing a taken one, changes that node only. */
  lemma ChangeSelf(s: seq<bv8>, i: nat)
    requires Shaped(s) && i < |s| && SubtreeOk(s, i)
    ensures s[i] == 0 ==> Changed(s, s[i := TAKEN], i, i, true)
    ensures Taken(s[i]) ==> Changed(s, s[i := 0], i, i, false)
  {
    assert Within(i, i) && NodeOk(s, i);
    var v: bv8 := if s[i] == 0 then TAKEN else 0;
    if s[i] == 0 || Taken(s[i]) {
      var u := s[i := v];
      forall j: nat | j < |u| && Within(i, j)
        ensures NodeOk(u, j)
      {
        assert NodeOk(s, j);
        WithinOrder(i, j);
        if j == i && IsParent(s, i) && s[i] == 0 {
          assert s[Left(i)] == 0 && s[Right(i)] == 0;
        }
      }
    }
  }

  // ---- finding a block by its offset ----

  /** Taken blocks under i start inside the block of i. */
  lemma BlocksStartInside(h: nat, s: seq<bv8>, i: nat, off: int)
    requires |s| == NodeCount(h) && i < |s| && !(Offset(h, i) <= off < Offset(h, i) + Size(h, i))
    ensures forall n :: n in TakenIn(s, i) ==> Offset(h, n) != off
  {
    forall n | n in TakenIn(s, i)
      ensures Offset(h, n) != off
    {
      RangeNested(h, i, n);
      BlockPlacement(h, n);
    }
  }

  /** Which child of an untaken parent can hold the block starting at an offset. */
  lemma BlocksOnOneSide(h: nat, s: seq<bv8>, i: nat, off: int, left: bool)
    requires |s| == NodeCount(h) && IsParent(s, i) && Shaped(s) && !Taken(s[i])
    requires left == (off < Offset(h, i) + Size(h, i) / 2)
    ensures var c := if left then Left(i) else Right(i);
            forall n :: Offset(h, n) == off ==> (n in TakenIn(s, i) <==> n in TakenIn(s, c))
  {
    TakenInSplit(s, i);
    ChildGeometry(h, i);
    BlocksStartInside'(h, s, i, off, left);
  }

  lemma BlocksStartInside'(h: nat, s: seq<bv8>, i: nat, off: int, left: bool)
    requires |s| == NodeCount(h) && IsParent(s, i)
    requires left == (off < Offset(h, i) + Size(h, i) / 2)
    ensures var d := if left then Right(i) else Left(i);
            forall n :: n in TakenIn(s, d) ==> Offset(h, n) != off
  {
    ChildGeometry(h, i);
    BlocksStartInside(h, s, if left then Right(i) else Left(i), off);
  }
}
