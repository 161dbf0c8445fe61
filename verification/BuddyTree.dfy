/**
  The tree of api/util/alloc_buddy.hpp: node geometry and the flag byte of each
  node, on a sequence of flag bytes.  Node i has children 2i+1 and 2i+2.
 */
module BuddyTree {
  import opened Arith
  import opened Bits

  const MIN_SIZE: nat := 4096

  // ---- flags ----

  const TAKEN: bv8 := 1
  const LEFT_USED: bv8 := 2
  const RIGHT_USED: bv8 := 4
  const LEFT_FULL: bv8 := 8
  const RIGHT_FULL: bv8 := 16

  predicate Taken(f: bv8) { f & TAKEN != 0 }

  predicate Full(f: bv8) { Taken(f) || (f & LEFT_FULL != 0 && f & RIGHT_FULL != 0) }

  /** The flags an untaken parent owes its two children. */
  function Summary(l: bv8, r: bv8): bv8 {
    (if l != 0 then LEFT_USED else 0) | (if r != 0 then RIGHT_USED else 0) |
    (if Full(l) then LEFT_FULL else 0) | (if Full(r) then RIGHT_FULL else 0)
  }

  // ---- geometry ----

  function NodeCount(h: nat): nat { Pow2(h) - 1 }

  function Left(i: nat): nat { 2 * i + 1 }

  function Right(i: nat): nat { 2 * i + 2 }

  function Parent(i: nat): nat requires i > 0 { (i - 1) / 2 }

  /** Distance from the top; the root has height one. */
  function Height(i: nat): nat { Fls(i + 1) }

  function Size(h: nat, i: nat): nat
  {
    if Height(i) <= h then MIN_SIZE * Pow2(h - Height(i)) else 0
  }

  /** Offset of a node's block from the start of the pool: a right child skips its sibling's block. */
  function Offset(h: nat, i: nat): nat {
    if i == 0 then 0
    else if i % 2 == 1 then Offset(h, Parent(i))
    else Offset(h, Parent(i)) + Size(h, i)
  }

  /** Position of a node among the nodes of its height. */
  function Slot(i: nat): nat {
    FlsBounds(i + 1);
    i + 1 - Pow2(Height(i) - 1)
  }

  lemma HeightOfNode(h: nat, i: nat)
    ensures Height(i) >= 1
    ensures i < NodeCount(h) <==> Height(i) <= h
  {
    FlsBounds(i + 1);
    if Height(i) <= h {
      Pow2Monotone(Height(i), h);
    } else {
      Pow2Monotone(h, Height(i) - 1);
    }
  }

  /** Children halve the block: the left one starts it, the right one its second half. */
  lemma ChildGeometry(h: nat, i: nat)
    requires Right(i) < NodeCount(h)
    ensures Height(Left(i)) == Height(Right(i)) == Height(i) + 1 <= h
    ensures Size(h, i) == 2 * Size(h, Left(i)) == 2 * Size(h, Right(i))
    ensures Offset(h, Left(i)) == Offset(h, i)
    ensures Offset(h, Right(i)) == Offset(h, i) + Size(h, i) / 2
    ensures Size(h, Left(i)) >= MIN_SIZE
  {
    HeightOfNode(h, Right(i));
    HeightOfChildren(i);
    assert Parent(Left(i)) == i && Parent(Right(i)) == i;
  }

  lemma HeightOfChildren(i: nat)
    ensures Height(Left(i)) == Height(Right(i)) == Height(i) + 1
    ensures Slot(Left(i)) == 2 * Slot(i) && Slot(Right(i)) == 2 * Slot(i) + 1
  {
    var n := i + 1;
    assert (2 * n) / 2 == n && (2 * n + 1) / 2 == n;
    FlsBounds(n);
  }

  /** The offset is the node's position times its size, as the source computes it. */
  lemma {:induction false} OffsetFormula(h: nat, i: nat)
    requires i < NodeCount(h)
    ensures Offset(h, i) == Slot(i) * Size(h, i)
    decreases i
  {
    if i == 0 {
    } else {
      var p := Parent(i);
      assert i == Left(p) || i == Right(p);
      assert Right(p) < NodeCount(h) by { NodeCountOdd(h); }
      HeightOfChildren(p);
      ChildGeometry(h, p);
      OffsetFormula(h, p);
      MulDouble(Slot(p), Size(h, i));
    }
  }

  lemma NodeCountOdd(h: nat)
    ensures h >= 1 ==> NodeCount(h) % 2 == 1
  {
  }

  /** Node j lies in the subtree of node i. */
  predicate Within(i: nat, j: nat)
    decreases j
  {
    j == i || (j > i && Within(i, Parent(j)))
  }

  lemma {:induction false} WithinTransitive(i: nat, j: nat, k: nat)
    requires Within(i, j) && Within(j, k)
    ensures Within(i, k)
    decreases k
  {
    if k != j {
      WithinTransitive(i, j, Parent(k));
      WithinOrder(i, j);
    }
  }

  lemma {:induction false} WithinOrder(i: nat, j: nat)
    requires Within(i, j)
    ensures i <= j && Height(i) <= Height(j)
    ensures Height(i) == Height(j) ==> i == j
    decreases j
  {
    if i != j {
      WithinOrder(i, Parent(j));
      assert (j + 1) / 2 == Parent(j) + 1;
    }
  }

  /** A subtree is its root and the subtrees of the two children. */
  lemma {:induction false} WithinSplit(i: nat, j: nat)
    ensures Within(i, j) <==> j == i || Within(Left(i), j) || Within(Right(i), j)
    ensures !(Within(Left(i), j) && Within(Right(i), j))
    ensures !Within(Left(i), i) && !Within(Right(i), i)
    decreases j
  {
    if j > i {
      WithinSplit(i, Parent(j));
    }
  }

  lemma {:induction false} WithinRoot(j: nat)
    ensures Within(0, j)
  {
    if j == 0 {
    } else {
      WithinRoot(Parent(j));
    }
  }

  ghost predicate Comparable(i: nat, j: nat) {
    Within(i, j) || Within(j, i)
  }

  /** Nodes in the two subtrees of a node are not nested. */
  lemma SiblingsApart(i: nat, j: nat, k: nat)
    requires Within(Left(i), j) && Within(Right(i), k)
    ensures !Comparable(j, k)
  {
    if Within(j, k) {
      WithinTransitive(Left(i), j, k);
      WithinSplit(i, k);
    }
    if Within(k, j) {
      WithinTransitive(Right(i), k, j);
      WithinSplit(i, j);
    }
  }

  /** A subtree's block contains the blocks of all nodes in it. */
  lemma {:induction false} RangeNested(h: nat, i: nat, j: nat)
    requires Within(i, j) && j < NodeCount(h)
    ensures Offset(h, i) <= Offset(h, j)
    ensures Offset(h, j) + Size(h, j) <= Offset(h, i) + Size(h, i)
    decreases j
  {
    if i != j {
      RangeNested(h, i, Parent(j));
      ChildGeometry(h, Parent(j));
      assert j == Left(Parent(j)) || j == Right(Parent(j));
    }
  }

  predicate RangesDisjoint(h: nat, i: nat, j: nat) {
    Offset(h, i) + Size(h, i) <= Offset(h, j) || Offset(h, j) + Size(h, j) <= Offset(h, i)
  }

  /** Blocks of any two nodes are nested or disjoint. */
  lemma {:induction false} RangesLaminar(h: nat, i: nat, j: nat)
    requires i < NodeCount(h) && j < NodeCount(h)
    ensures Comparable(i, j) || RangesDisjoint(h, i, j)
    decreases i + j
  {
    if i < j {
      RangesLaminarOrdered(h, i, j);
    } else if j < i {
      RangesLaminarOrdered(h, j, i);
    }
  }

  lemma {:induction false} RangesLaminarOrdered(h: nat, i: nat, j: nat)
    requires i < j < NodeCount(h)
    ensures Comparable(i, j) || RangesDisjoint(h, i, j)
    decreases i + j, 0
  {
    var p := Parent(j);
    if !Comparable(i, j) {
      ChildGeometry(h, p);
      assert j == Left(p) || j == Right(p);
      WithinSplit(p, i);
      if Within(p, i) {
        if Within(Left(p), i) { RangeNested(h, Left(p), i); }
        if Within(Right(p), i) { RangeNested(h, Right(p), i); }
      } else {
        RangesLaminar(h, i, p);
        RangeNested(h, p, j);
      }
    }
  }

  lemma RootBlock(h: nat)
    requires h >= 1
    ensures Height(0) == 1 && Offset(h, 0) == 0 && Size(h, 0) == MIN_SIZE * Pow2(h - 1)
    ensures 0 < NodeCount(h)
  {
    assert Height(0) == 1;
    Pow2Monotone(1, h);
  }

  /** Every block starts at a multiple of its own size and lies inside the pool. */
  lemma BlockPlacement(h: nat, i: nat)
    requires i < NodeCount(h)
    ensures Size(h, i) >= MIN_SIZE && IsPow2(Size(h, i))
    ensures Offset(h, i) % Size(h, i) == 0
    ensures Offset(h, i) + Size(h, i) <= Size(h, 0) == MIN_SIZE * Pow2(h - 1)
  {
    HeightOfNode(h, i);
    WithinRoot(i);
    RangeNested(h, 0, i);
    assert Pow2(12) == MIN_SIZE;
    Pow2Add(12, h - Height(i));
    OffsetFormula(h, i);
    DivModUnique(Offset(h, i), Size(h, i), Slot(i), 0);
    RootBlock(h);
  }

  /** At one height, block order is index order. */
  lemma SameHeightOrder(h: nat, i: nat, j: nat)
    requires i < j < NodeCount(h) && Height(i) == Height(j)
    ensures Offset(h, i) + Size(h, i) <= Offset(h, j)
  {
    HeightOfNode(h, i);
    OffsetFormula(h, i);
    OffsetFormula(h, j);
    MulStrict(Slot(i), Slot(j), Size(h, i));
  }
}
