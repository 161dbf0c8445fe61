/** Lists of memory blocks: how many hold an address, and how many bytes they hold together. */
module Intervals {

  datatype Block = Block(addr: nat, size: nat)

  ghost function Has(b: Block, x: nat): nat {
    if b.addr <= x < b.addr + b.size then 1 else 0
  }

  /** How many blocks of a list hold an address. */
  ghost function Count(free: seq<Block>, x: nat): nat {
    if free == [] then 0 else Count(free[..|free| - 1], x) + Has(free[|free| - 1], x)
  }

  ghost function Sum(free: seq<Block>): nat {
    if free == [] then 0 else Sum(free[..|free| - 1]) + free[|free| - 1].size
  }

  lemma {:induction false} CountConcat(a: seq<Block>, b: seq<Block>, x: nat)
    ensures Count(a + b, x) == Count(a, x) + Count(b, x)
    decreases |b|
  {
    if b == [] {
      assert a + b == a;
    } else {
      var n := |b| - 1;
      CountConcat(a, b[..n], x);
      assert (a + b)[..|a + b| - 1] == a + b[..n] && (a + b)[|a + b| - 1] == b[n];
    }
  }

  lemma {:induction false} SumConcat(a: seq<Block>, b: seq<Block>)
    ensures Sum(a + b) == Sum(a) + Sum(b)
    decreases |b|
  {
    if b == [] {
      assert a + b == a;
    } else {
      var n := |b| - 1;
      SumConcat(a, b[..n]);
      assert (a + b)[..|a + b| - 1] == a + b[..n] && (a + b)[|a + b| - 1] == b[n];
    }
  }

  lemma SumSnoc(a: seq<Block>, b: Block)
    ensures Sum(a + [b]) == Sum(a) + b.size
  {
    assert (a + [b])[..|a|] == a;
  }

  lemma Around(s: seq<Block>, k: nat)
    requires k < |s|
    ensures s == s[..k] + [s[k]] + s[k + 1..]
  {
  }

  lemma CountAround(l: seq<Block>, b: Block, r: seq<Block>, x: nat)
    ensures Count(l + [b] + r, x) == Count(l, x) + Has(b, x) + Count(r, x)
  {
    assert (l + [b])[..|l|] == l && (l + [b])[|l|] == b;
    CountConcat(l + [b], r, x);
  }

  lemma SumAround(l: seq<Block>, b: Block, r: seq<Block>)
    ensures Sum(l + [b] + r) == Sum(l) + b.size + Sum(r)
  {
    assert (l + [b])[..|l|] == l && (l + [b])[|l|] == b;
    SumConcat(l + [b], r);
  }

  lemma PushCount(b: Block, free: seq<Block>, x: nat)
    ensures Count([b] + free, x) == Has(b, x) + Count(free, x)
  {
    CountAround([], b, free, x);
    assert [] + [b] + free == [b] + free;
  }

  lemma PushSum(b: Block, free: seq<Block>)
    ensures Sum([b] + free) == b.size + Sum(free)
  {
    SumAround([], b, free);
    assert [] + [b] + free == [b] + free;
  }

  lemma BlockCounted(free: seq<Block>, k: nat, x: nat)
    requires k < |free|
    ensures Count(free, x) >= Has(free[k], x)
  {
    Around(free, k);
    CountAround(free[..k], free[k], free[k + 1..], x);
  }

  // ---- blocks that share nothing ----

  /** Blocks counted at every address below a bound. */
  ghost function Total(bs: seq<Block>, n: nat): nat {
    if n == 0 then 0 else Total(bs, n - 1) + Count(bs, n - 1)
  }

  lemma {:induction false} TotalGrows(bs: seq<Block>, b: Block, n: nat)
    ensures b.addr + b.size <= n ==> Total(bs + [b], n) == Total(bs, n) + b.size
    ensures b.addr <= n <= b.addr + b.size ==> Total(bs + [b], n) == Total(bs, n) + (n - b.addr)
    ensures n <= b.addr ==> Total(bs + [b], n) == Total(bs, n)
    decreases n
  {
    if n == 0 {
    } else {
      TotalGrows(bs, b, n - 1);
      assert (bs + [b])[..|bs|] == bs && Count(bs + [b], n - 1) == Count(bs, n - 1) + Has(b, n - 1);
    }
  }

  ghost predicate Within(bs: seq<Block>, n: nat) {
    forall i {:trigger bs[i]} :: 0 <= i < |bs| ==> bs[i].addr + bs[i].size <= n
  }

  lemma {:induction false} TotalIsSum(bs: seq<Block>, n: nat)
    requires Within(bs, n)
    ensures Total(bs, n) == Sum(bs)
    decreases |bs|
  {
    if bs == [] {
      NothingCounted(n);
    } else {
      var most, b := bs[..|bs| - 1], bs[|bs| - 1];
      assert bs == most + [b];
      TotalIsSum(most, n);
      TotalGrows(most, b, n);
    }
  }

  lemma {:induction false} NothingCounted(n: nat)
    ensures Total([], n) == 0
    decreases n
  {
    if n == 0 {
    } else {
      NothingCounted(n - 1);
    }
  }

  /** No address is in two blocks. */
  ghost predicate Once(bs: seq<Block>) {
    forall x: nat {:trigger Count(bs, x)} :: Count(bs, x) <= 1
  }

  /** Blocks beyond the first at every address below a bound. */
  ghost function Surplus(bs: seq<Block>, n: nat): nat {
    if n == 0 then 0 else Surplus(bs, n - 1) + if Count(bs, n - 1) > 1 then Count(bs, n - 1) - 1 else 0
  }

  /** Addresses below a bound that are in no block. */
  ghost function Uncovered(bs: seq<Block>, n: nat): nat {
    if n == 0 then 0 else Uncovered(bs, n - 1) + if Count(bs, n - 1) == 0 then 1 else 0
  }

  lemma {:induction false} TotalBalance(bs: seq<Block>, n: nat)
    ensures Total(bs, n) + Uncovered(bs, n) == n + Surplus(bs, n)
    decreases n
  {
    if n == 0 {
    } else {
      TotalBalance(bs, n - 1);
    }
  }

  /** What blocks below a bound hold together, by what they share and what they leave out. */
  lemma SumBalance(bs: seq<Block>, n: nat)
    requires Within(bs, n)
    ensures Sum(bs) + Uncovered(bs, n) == n + Surplus(bs, n)
  {
    TotalIsSum(bs, n);
    TotalBalance(bs, n);
  }

  lemma {:induction false} OnceNoSurplus(bs: seq<Block>, n: nat)
    requires Once(bs)
    ensures Surplus(bs, n) == 0
    decreases n
  {
    if n == 0 {
    } else {
      OnceNoSurplus(bs, n - 1);
    }
  }
}
