/** The mount tree of api/fs/vfs.hpp seen as a map from paths to what is held there. */
module VfsSpec {
  import opened Common

  type path = seq<string>

  /** A mounted object, known only by which one it is. */
  type thing = nat

  /** Directories hold nothing. */
  type tree = map<path, Option<thing>>

  lemma PrefixIs(p: path)
    ensures forall q: path :: q <= p ==> q == p[..|q|]
  {
  }

  /** The tree with the first k directories of a path made where they are missing. */
  ghost function WithDirs(m: tree, p: path, k: nat): (r: tree)
    requires k <= |p|
  {
    if k == 0 then m
    else
      var r := WithDirs(m, p, k - 1);
      if p[..k] in r then r else r[p[..k] := None]
  }

  lemma {:induction false} DirsMade(m: tree, p: path, k: nat)
    requires k <= |p|
    ensures var r := WithDirs(m, p, k);
            && (forall q :: q in m ==> q in r && r[q] == m[q])
            && (forall q :: q in r <==> q in m || (q <= p && 1 <= |q| <= k))
            && (forall q :: q in r && q !in m ==> r[q] == None)
    decreases k
  {
    if k == 0 {
    } else {
      DirsMade(m, p, k - 1);
      PrefixIs(p);
    }
  }

  lemma PathStep(p: path, k: nat, here: path)
    requires k < |p| && here == p[..k]
    ensures here + [p[k]] == p[..k + 1]
  {
  }

  lemma DirsStep(m: tree, p: path, k: nat, next: path)
    requires k < |p| && next == p[..k + 1]
    ensures var r := WithDirs(m, p, k);
            WithDirs(m, p, k + 1) == if next in r then r else r[next := None]
  {
  }

  /**
    Mounting: refused when the place is taken, or when its directory is
    missing and is not to be made.
   */
  ghost function Mount(m: tree, p: path, obj: thing, create: bool): (r: (tree, bool))
    requires p != []
  {
    var dir := p[..|p| - 1];
    if !create && dir !in m then (m, false)
    else if p in m then (m, false)
    else ((if create then WithDirs(m, p, |p| - 1) else m)[p := Some(obj)], true)
  }

  /** Every prefix of a path in the tree is in it. */
  ghost predicate PrefixClosed(m: tree) {
    [] in m && forall p, q :: q in m && p <= q ==> p in m
  }

  lemma {:induction false} SameDirs(m: tree, p: path, dir: path, k: nat)
    requires k <= |dir| <= |p| && dir == p[..|dir|]
    ensures WithDirs(m, dir, k) == WithDirs(m, p, k)
    decreases k
  {
    if k == 0 {
    } else {
      SameDirs(m, p, dir, k - 1);
      assert dir[..k] == p[..k];
    }
  }

  lemma {:induction false} NoDirsMissing(m: tree, p: path, k: nat)
    requires PrefixClosed(m) && p in m && k <= |p|
    ensures WithDirs(m, p, k) == m
    decreases k
  {
    if k == 0 {
    } else {
      NoDirsMissing(m, p, k - 1);
      assert p[..k] <= p;
    }
  }

  /** Mounting by walking to the directory first. */
  lemma MountVia(m: tree, p: path, dir: path, obj: thing, create: bool, m1: tree)
    requires PrefixClosed(m) && p != [] && dir == p[..|p| - 1] && (create || dir in m)
    requires m1 == if create && dir != [] then WithDirs(m, dir, |dir|) else m
    ensures Mount(m, p, obj, create) == if p in m1 then (m1, false) else (m1[p := Some(obj)], true)
  {
    SameDirs(m, p, dir, |dir|);
    DirsMade(m, p, |dir|);
    if p in m {
      NoDirsMissing(m, p, |dir|);
    }
  }

  datatype Request = Request(at: path, obj: thing, create: bool)

  /** Everything mounted is there. */
  ghost predicate Keeps(m: tree, done: seq<Request>) {
    forall i :: 0 <= i < |done| ==> done[i].at in m && m[done[i].at] == Some(done[i].obj)
  }

  /** Some request mounted this very path, or one below it. */
  ghost predicate MountedAt(done: seq<Request>, p: path) {
    exists i :: 0 <= i < |done| && done[i].at == p
  }

  ghost predicate MountedBelow(done: seq<Request>, p: path) {
    exists i :: 0 <= i < |done| && p <= done[i].at
  }

  /** Only mounted paths hold something, and only they and their directories are there. */
  ghost predicate HoldsOnly(m: tree, done: seq<Request>) {
    forall p :: p in m ==> (m[p].Some? ==> MountedAt(done, p)) && (p != [] ==> MountedBelow(done, p))
  }

  /** The tree is the map that the accepted requests make. */
  ghost predicate Refines(m: tree, done: seq<Request>) {
    PrefixClosed(m) && Keeps(m, done) && HoldsOnly(m, done)
  }

  ghost function Start(): tree {
    map[[] := None]
  }

  lemma StartRefines()
    ensures Refines(Start(), [])
  {
  }

  lemma MountClosed(m: tree, p: path, obj: thing, create: bool)
    requires PrefixClosed(m) && p != []
    ensures PrefixClosed(Mount(m, p, obj, create).0)
  {
    var m' := Mount(m, p, obj, create).0;
    DirsMade(m, p, |p| - 1);
    forall q, t | t in m' && q <= t
      ensures q in m'
    {
      if t !in m && q != t {
        PrefixIs(p);
        assert q <= p && |q| < |p|;
        assert q <= p[..|p| - 1];
      }
    }
  }

  lemma MoreMounted(done: seq<Request>, r: Request, p: path)
    ensures MountedAt(done, p) ==> MountedAt(done + [r], p)
    ensures MountedBelow(done, p) ==> MountedBelow(done + [r], p)
    ensures MountedAt(done + [r], r.at) && (p <= r.at ==> MountedBelow(done + [r], p))
  {
    var done' := done + [r];
    assert done'[|done|] == r;
    if MountedAt(done, p) {
      var i :| 0 <= i < |done| && done[i].at == p;
      assert done'[i].at == p;
    }
    if MountedBelow(done, p) {
      var i :| 0 <= i < |done| && p <= done[i].at;
      assert p <= done'[i].at;
    }
  }

  lemma MountHoldsOnly(m: tree, done: seq<Request>, r: Request)
    requires HoldsOnly(m, done) && r.at != [] && Mount(m, r.at, r.obj, r.create).1
    ensures HoldsOnly(Mount(m, r.at, r.obj, r.create).0, done + [r])
  {
    var m' := Mount(m, r.at, r.obj, r.create).0;
    DirsMade(m, r.at, |r.at| - 1);
    forall p | p in m'
      ensures (m'[p].Some? ==> MountedAt(done + [r], p)) && (p != [] ==> MountedBelow(done + [r], p))
    {
      MoreMounted(done, r, p);
    }
  }

  /** What was there before stays, a refused mount changes nothing, and this is when one is refused. */
  lemma MountExtends(m: tree, p: path, obj: thing, create: bool)
    requires p != []
    ensures var (m', ok) := Mount(m, p, obj, create);
            && (forall q :: q in m ==> q in m' && m'[q] == m[q])
            && (!ok ==> m' == m) && (ok ==> p in m' && m'[p] == Some(obj))
            && (ok <==> p !in m && (create || p[..|p| - 1] in m))
  {
    DirsMade(m, p, |p| - 1);
  }

  lemma MountKeeps(m: tree, done: seq<Request>, r: Request)
    requires Keeps(m, done) && r.at != [] && Mount(m, r.at, r.obj, r.create).1
    ensures Keeps(Mount(m, r.at, r.obj, r.create).0, done + [r])
  {
    MountExtends(m, r.at, r.obj, r.create);
    var done' := done + [r];
    forall i | 0 <= i < |done'|
      ensures done'[i].at in Mount(m, r.at, r.obj, r.create).0
      ensures Mount(m, r.at, r.obj, r.create).0[done'[i].at] == Some(done'[i].obj)
    {
      if i < |done| {
        assert done'[i] == done[i];
      }
    }
  }

  lemma MountRefines(m: tree, done: seq<Request>, r: Request)
    requires Refines(m, done) && r.at != []
    ensures var (m', ok) := Mount(m, r.at, r.obj, r.create);
            Refines(m', if ok then done + [r] else done)
  {
    if Mount(m, r.at, r.obj, r.create).1 {
      MountClosed(m, r.at, r.obj, r.create);
      MountHoldsOnly(m, done, r);
      MountKeeps(m, done, r);
    } else {
      MountExtends(m, r.at, r.obj, r.create);
    }
  }

  // ---- runs ----

  /** The tree and the accepted requests after a run. */
  ghost function Run(reqs: seq<Request>): (r: (tree, seq<Request>))
    requires forall i :: 0 <= i < |reqs| ==> reqs[i].at != []
    decreases |reqs|
  {
    if reqs == [] then (Start(), [])
    else
      var (m, done) := Run(reqs[..|reqs| - 1]);
      var last := reqs[|reqs| - 1];
      var (m', ok) := Mount(m, last.at, last.obj, last.create);
      (m', if ok then done + [last] else done)
  }

  lemma {:induction false} RunRefines(reqs: seq<Request>)
    requires forall i :: 0 <= i < |reqs| ==> reqs[i].at != []
    ensures Refines(Run(reqs).0, Run(reqs).1)
    decreases |reqs|
  {
    if reqs == [] {
      StartRefines();
    } else {
      RunRefines(reqs[..|reqs| - 1]);
      MountRefines(Run(reqs[..|reqs| - 1]).0, Run(reqs[..|reqs| - 1]).1, reqs[|reqs| - 1]);
    }
  }

  /**
    A path resolves if and only if it leads to something mounted, and it holds
    an object if and only if one was mounted there.
   */
  lemma RunResolves(reqs: seq<Request>, p: path)
    requires forall i :: 0 <= i < |reqs| ==> reqs[i].at != []
    ensures var (m, done) := Run(reqs);
            && (p in m <==> p == [] || MountedBelow(done, p))
            && (p in m && m[p].Some? <==> MountedAt(done, p))
            && forall i :: 0 <= i < |done| && done[i].at == p ==> p in m && m[p] == Some(done[i].obj)
  {
    RunRefines(reqs);
    var (m, done) := Run(reqs);
    if MountedBelow(done, p) {
      var i :| 0 <= i < |done| && p <= done[i].at;
      assert done[i].at in m;
    }
    if MountedAt(done, p) {
      var i :| 0 <= i < |done| && done[i].at == p;
      assert done[i].at in m;
    }
  }
}
