/** Sequences cut into pieces and joined again. */
module Pieces {

  function Join<T>(parts: seq<seq<T>>): seq<T> {
    if parts == [] then [] else Join(parts[..|parts| - 1]) + parts[|parts| - 1]
  }

  lemma JoinSnoc<T>(parts: seq<seq<T>>, last: seq<T>)
    ensures Join(parts + [last]) == Join(parts) + last
  {
    assert (parts + [last])[..|parts|] == parts;
  }

  ghost predicate AllLong<T>(parts: seq<seq<T>>, size: nat) {
    forall k {:trigger parts[k]} :: 0 <= k < |parts| ==> |parts[k]| == size
  }

  lemma {:induction false} JoinLength<T>(parts: seq<seq<T>>)
    requires AllLong(parts, 4)
    ensures |Join(parts)| == 4 * |parts|
    decreases |parts|
  {
    if parts == [] {
    } else {
      JoinLength(parts[..|parts| - 1]);
    }
  }

  lemma {:induction false} JoinAt<T>(parts: seq<seq<T>>, k: nat)
    requires AllLong(parts, 4) && k < |parts|
    ensures 4 * k + 4 <= |Join(parts)| == 4 * |parts| && Join(parts)[4 * k..4 * k + 4] == parts[k]
    decreases |parts|
  {
    var n := |parts| - 1;
    JoinLength(parts);
    JoinLength(parts[..n]);
    if k < n {
      JoinAt(parts[..n], k);
      SliceOfFront(Join(parts[..n]), parts[n], 4 * k, 4 * k + 4);
    } else {
      SliceOfBack(Join(parts[..n]), parts[n]);
    }
  }

  lemma SliceOfFront<T>(a: seq<T>, b: seq<T>, i: nat, j: nat)
    requires i <= j <= |a|
    ensures (a + b)[i..j] == a[i..j]
  {
  }

  lemma SliceOfBack<T>(a: seq<T>, b: seq<T>)
    ensures (a + b)[|a|..|a| + |b|] == b
  {
  }

  /** Joining one piece more. */
  lemma JoinMore<T>(parts: seq<seq<T>>, i: nat)
    requires i < |parts|
    ensures Join(parts[..i + 1]) == Join(parts[..i]) + parts[i]
  {
    JoinSnoc(parts[..i], parts[i]);
    assert parts[..i] + [parts[i]] == parts[..i + 1];
  }

  lemma {:induction false} JoinPrefix<T>(parts: seq<seq<T>>, i: nat)
    requires i <= |parts|
    ensures Join(parts[..i]) <= Join(parts)
    decreases |parts|
  {
    var n := |parts| - 1;
    if i == |parts| {
      assert parts[..i] == parts;
    } else {
      JoinPrefix(parts[..n], i);
      assert parts[..n][..i] == parts[..i];
    }
  }

  /** Every piece is found where the pieces before it end. */
  lemma JoinPiece<T>(parts: seq<seq<T>>, i: nat)
    requires i < |parts|
    ensures var at := |Join(parts[..i])|;
            at + |parts[i]| <= |Join(parts)| && Join(parts)[at..at + |parts[i]|] == parts[i]
  {
    JoinMore(parts, i);
    JoinPrefix(parts, i + 1);
    SliceOfPrefix(Join(parts[..i]), parts[i], Join(parts));
  }

  lemma SliceOfPrefix<T>(a: seq<T>, b: seq<T>, s: seq<T>)
    requires a + b <= s
    ensures s[|a|..|a| + |b|] == b
  {
    SliceOfBack(a, b);
    assert s[|a|..|a| + |b|] == (a + b)[|a|..|a| + |b|];
  }
}
