/** The nodes of api/fs/vfs.hpp: each owns a list of children; walking and mounting change the lists in place. */
module Vfs {
  import opened Common
  import opened VfsSpec

  class Entry {
    const name: string
    const held: Option<thing>
    var children: seq<Entry>
    ghost const place: path

    constructor (n: string, h: Option<thing>, ghost p: path)
      ensures name == n && held == h && children == [] && place == p
    {
      name, held, children, place := n, h, [], p;
    }

    /** The first child of a name, or null. */
    method GetChild(n: string) returns (c: Entry?)
      ensures c == null ==> forall i :: 0 <= i < |children| ==> children[i].name != n
      ensures c != null ==> c in children && c.name == n
    {
      for i := 0 to |children|
        invariant forall j :: 0 <= j < i ==> children[j].name != n
      {
        if children[i].name == n {
          return children[i];
        }
      }
      return null;
    }
  }

  /** Where every node of a tree is. */
  type places = map<path, Entry>

  /** These are the nodes one name further on than p, each name once. */
  ghost predicate KidsOk(nodes: places, p: path, cs: seq<Entry>) {
    && (forall i :: 0 <= i < |cs| ==> p + [cs[i].name] in nodes && nodes[p + [cs[i].name]] == cs[i])
    && (forall i, j :: 0 <= i < j < |cs| ==> cs[i].name != cs[j].name)
  }

  ghost predicate ChildrenOk(nodes: places, p: path)
    requires p in nodes
    reads nodes[p]
  {
    nodes[p].place == p && KidsOk(nodes, p, nodes[p].children)
  }

  /** A node other than the root is the child its path says of the node before. */
  ghost predicate ParentOk(nodes: places, p: path)
    requires p in nodes && p != []
    reads if p[..|p| - 1] in nodes then {nodes[p[..|p| - 1]]} else {}
  {
    p[..|p| - 1] in nodes && nodes[p].name == p[|p| - 1] && nodes[p] in nodes[p[..|p| - 1]].children
  }

  ghost predicate TreeOk(nodes: places)
    reads nodes.Values
  {
    && [] in nodes
    && (forall p :: p in nodes ==> ChildrenOk(nodes, p))
    && (forall p :: p in nodes && p != [] ==> ParentOk(nodes, p))
  }

  ghost function Contents(nodes: places): tree {
    map p | p in nodes :: nodes[p].held
  }

  /** A path leads on to a child if and only if there is a node further on. */
  lemma ChildAt(nodes: places, p: path, n: string)
    requires TreeOk(nodes) && p in nodes
    ensures p + [n] in nodes ==> nodes[p + [n]] in nodes[p].children && nodes[p + [n]].name == n
    ensures (exists i :: 0 <= i < |nodes[p].children| && nodes[p].children[i].name == n) ==> p + [n] in nodes
  {
    if p + [n] in nodes {
      assert ParentOk(nodes, p + [n]);
      assert (p + [n])[..|p|] == p;
    }
    assert ChildrenOk(nodes, p);
  }

  /** Trees that agree where the first one reaches; the other's further nodes are new. */
  twostate predicate Grows(nodes: places, new nodes': places) {
    && (forall q :: q in nodes ==> q in nodes' && nodes'[q] == nodes[q])
    && (forall q :: q in nodes' && q !in nodes ==> fresh(nodes'[q]))
  }

  lemma KidsKept(nodes: places, q: path, cs: seq<Entry>, at: path, e: Entry)
    requires KidsOk(nodes, q, cs) && at !in nodes
    ensures KidsOk(nodes[at := e], q, cs)
  {
  }

  lemma KidsAppended(nodes: places, q: path, cs: seq<Entry>, e: Entry)
    requires KidsOk(nodes, q, cs) && q + [e.name] !in nodes
    ensures KidsOk(nodes[q + [e.name] := e], q, cs + [e])
  {
    var more := cs + [e];
    forall i | 0 <= i < |more|
      ensures q + [more[i].name] in nodes[q + [e.name] := e] && nodes[q + [e.name] := e][q + [more[i].name]] == more[i]
    {
      if i < |cs| {
        assert q + [cs[i].name] in nodes;
      }
    }
    forall i, j | 0 <= i < j < |more|
      ensures more[i].name != more[j].name
    {
      assert q + [cs[i].name] in nodes;
    }
  }

  /** Append a new node to the children of the one at p. */
  method Insert(ghost nodes: places, ghost p: path, parent: Entry, n: string, h: Option<thing>)
    returns (e: Entry, ghost nodes': places)
    requires TreeOk(nodes) && p in nodes && nodes[p] == parent && p + [n] !in nodes
    modifies parent
    ensures fresh(e) && nodes' == nodes[p + [n] := e]
    ensures TreeOk(nodes') && Contents(nodes') == Contents(nodes)[p + [n] := h]
  {
    e := new Entry(n, h, p + [n]);
    nodes' := nodes[p + [n] := e];
    ghost var was := parent.children;
    assert ChildrenOk(nodes, p);
    KidsAppended(nodes, p, was, e);
    parent.children := parent.children + [e];
    forall q | q in nodes'
      ensures ChildrenOk(nodes', q)
    {
      if q != p + [n] && q != p {
        assert old(ChildrenOk(nodes, q)) && nodes[q] != parent;
        KidsKept(nodes, q, nodes[q].children, p + [n], e);
      }
    }
    forall q | q in nodes' && q != []
      ensures ParentOk(nodes', q)
    {
      if q == p + [n] {
        assert q[..|q| - 1] == p;
      } else {
        assert old(ParentOk(nodes, q));
      }
    }
  }

  lemma {:induction false} MissingAbove(nodes: places, p: path, k: nat)
    requires TreeOk(nodes) && k <= |p| && p[..k] !in nodes
    ensures p !in nodes
    decreases |p|
  {
    if k == |p| {
      assert p[..k] == p;
    } else {
      assert p[..|p| - 1][..k] == p[..k];
      MissingAbove(nodes, p[..|p| - 1], k);
      assert p in nodes ==> ParentOk(nodes, p);
    }
  }

  /** One step of a walk: the child one name on, or null. */
  method Next(ghost nodes: places, ghost p: path, current: Entry, n: string) returns (next: Entry?)
    requires TreeOk(nodes) && p in nodes && nodes[p] == current
    ensures if p + [n] in nodes then next == nodes[p + [n]] else next == null
  {
    next := current.GetChild(n);
    ChildAt(nodes, p, n);
    assert ChildrenOk(nodes, p);
  }

  /** Walk a path from the root without making anything; null where a node is missing. */
  method Walk(ghost nodes: places, root: Entry, p: path) returns (node: Entry?)
    requires TreeOk(nodes) && nodes[[]] == root && p != []
    ensures if p in nodes then node == nodes[p] else node == null
  {
    var current: Entry, k := root, 0;
    ghost var here := [];
    while k < |p|
      invariant 0 <= k <= |p| && here == p[..k] && here in nodes && current == nodes[here]
    {
      PathStep(p, k, here);
      var next := Next(nodes, here, current, p[k]);
      if next == null {
        MissingAbove(nodes, p, k + 1);
        return null;
      }
      current := next;
      here := here + [p[k]];
      k := k + 1;
    }
    assert here == p;
    return current;
  }

  /** At most one node has been added, at a path that was free, and it is new. */
  twostate predicate Added(nodes: places, at: path, new nodes': places) {
    nodes' == nodes || (at !in nodes && at in nodes' && fresh(nodes'[at]) && nodes' == nodes[at := nodes'[at]])
  }

  /** One step of a walk, making the directory if it is missing. */
  method Descend(ghost nodes: places, ghost here: path, current: Entry, n: string)
    returns (next: Entry, ghost nodes': places)
    requires TreeOk(nodes) && here in nodes && nodes[here] == current
    modifies current
    ensures TreeOk(nodes') && here + [n] in nodes' && next == nodes'[here + [n]]
    ensures Added(nodes, here + [n], nodes')
    ensures var was := Contents(nodes);
            Contents(nodes') == if here + [n] in was then was else was[here + [n] := None]
  {
    var child := Next(nodes, here, current, n);
    if child == null {
      next, nodes' := Insert(nodes, here, current, n, None);
    } else {
      next, nodes' := child, nodes;
    }
  }

  /** Walk a path from the root, making the directories that are missing. */
  method WalkCreate(ghost nodes: places, root: Entry, p: path) returns (node: Entry, ghost nodes': places)
    requires TreeOk(nodes) && nodes[[]] == root && p != []
    modifies nodes.Values
    ensures TreeOk(nodes') && Grows(nodes, nodes')
    ensures Contents(nodes') == WithDirs(Contents(nodes), p, |p|) && p in nodes' && node == nodes'[p]
  {
    var current: Entry, k := root, 0;
    nodes' := nodes;
    ghost var here, want := [], Contents(nodes);
    while k < |p|
      invariant 0 <= k <= |p| && here == p[..k] && here in nodes' && current == nodes'[here]
      invariant TreeOk(nodes') && Grows(nodes, nodes')
      invariant want == WithDirs(Contents(nodes), p, k) && Contents(nodes') == want
    {
      PathStep(p, k, here);
      DirsStep(Contents(nodes), p, k, here + [p[k]]);
      assert current in nodes.Values || fresh(current);
      current, nodes' := Descend(nodes', here, current, p[k]);
      here := here + [p[k]];
      want := Contents(nodes');
      k := k + 1;
    }
    assert here == p;
    return current, nodes';
  }

  /** Mount an object, making missing directories if asked to; refused when the place is taken or cannot be reached. */
  method Mount(ghost nodes: places, root: Entry, p: path, obj: thing, create: bool)
    returns (ok: bool, ghost nodes': places)
    requires TreeOk(nodes) && nodes[[]] == root && p != []
    modifies nodes.Values
    ensures TreeOk(nodes') && Grows(nodes, nodes')
    ensures (Contents(nodes'), ok) == VfsSpec.Mount(Contents(nodes), p, obj, create)
  {
    var token, dir := p[|p| - 1], p[..|p| - 1];
    ghost var was := Contents(nodes);
    assert PrefixClosed(was) by {
      PathsClosed(nodes);
    }
    var parent;
    ghost var mid;
    parent, mid := FindParent(nodes, root, dir, create);
    if parent == null {
      return false, nodes;
    }
    WholePath(p, dir, token);
    MountVia(was, p, dir, obj, create, Contents(mid));
    ok, nodes' := AttachTo(nodes, mid, dir, parent, token, p, obj);
  }

  /** Put an object into a directory of a tree that has grown. */
  method AttachTo(ghost nodes: places, ghost mid: places, ghost dir: path, parent: Entry, token: string,
                  ghost p: path, obj: thing)
    returns (ok: bool, ghost nodes': places)
    requires TreeOk(mid) && dir in mid && mid[dir] == parent && p == dir + [token]
    requires forall q :: q in nodes ==> q in mid && mid[q] == nodes[q]
    modifies parent
    ensures TreeOk(nodes')
    ensures forall q :: q in nodes ==> q in nodes' && nodes'[q] == nodes[q]
    ensures forall q :: q in nodes' && q !in nodes ==> fresh(nodes'[q]) || (q in mid && nodes'[q] == mid[q])
    ensures var there := Contents(mid);
            (Contents(nodes'), ok) == if p in there then (there, false) else (there[p := Some(obj)], true)
  {
    ok, nodes' := Attach(mid, dir, parent, token, p, obj);
    StillThere(nodes, mid, p, nodes');
  }

  lemma StillThere(nodes: places, mid: places, at: path, nodes': places)
    requires forall q :: q in nodes ==> q in mid && mid[q] == nodes[q]
    requires nodes' == mid || (at !in mid && at in nodes' && nodes' == mid[at := nodes'[at]])
    ensures forall q :: q in nodes ==> q in nodes' && nodes'[q] == nodes[q]
    ensures forall q :: q in nodes' && q !in nodes ==> (q == at && at !in mid) || (q in mid && nodes'[q] == mid[q])
  {
  }

  /** Put an object into a directory unless its name is taken. */
  method Attach(ghost nodes: places, ghost dir: path, parent: Entry, token: string, ghost p: path, obj: thing)
    returns (ok: bool, ghost nodes': places)
    requires TreeOk(nodes) && dir in nodes && nodes[dir] == parent && p == dir + [token]
    modifies parent
    ensures TreeOk(nodes') && Added(nodes, p, nodes')
    ensures var was := Contents(nodes);
            (Contents(nodes'), ok) == if p in was then (was, false) else (was[p := Some(obj)], true)
  {
    var occupied := Next(nodes, dir, parent, token);
    if occupied != null {
      return false, nodes;
    }
    var e;
    e, nodes' := Insert(nodes, dir, parent, token, Some(obj));
    return true, nodes';
  }

  /** The directory to mount in, made if it is missing and that is asked for. */
  method FindParent(ghost nodes: places, root: Entry, dir: path, create: bool)
    returns (parent: Entry?, ghost nodes': places)
    requires TreeOk(nodes) && nodes[[]] == root
    modifies nodes.Values
    ensures TreeOk(nodes') && Grows(nodes, nodes')
    ensures parent == null <==> !create && dir !in nodes
    ensures parent == null ==> nodes' == nodes
    ensures parent != null ==> dir in nodes' && parent == nodes'[dir]
    ensures parent != null ==>
            Contents(nodes') == if create && dir != [] then WithDirs(Contents(nodes), dir, |dir|) else Contents(nodes)
    ensures parent != null && !create ==> dir in nodes
  {
    parent, nodes' := root, nodes;
    if dir != [] {
      if create {
        parent, nodes' := WalkCreate(nodes, root, dir);
      } else {
        parent := Walk(nodes, root, dir);
      }
    }
  }

  lemma WholePath(p: path, dir: path, token: string)
    requires p != [] && dir == p[..|p| - 1] && token == p[|p| - 1]
    ensures dir + [token] == p
  {
  }

  lemma PathsClosed(nodes: places)
    requires TreeOk(nodes)
    ensures PrefixClosed(Contents(nodes))
  {
    forall p, q | q in nodes && p <= q
      ensures p in nodes
    {
      if p !in nodes {
        PrefixIs(q);
        MissingAbove(nodes, q, |p|);
      }
    }
  }

  // ---- every run ----

  ghost predicate NoEmptyPath(reqs: seq<Request>) {
    forall i :: 0 <= i < |reqs| ==> reqs[i].at != []
  }

  /** A tree with nothing but its root. */
  method NewRoot() returns (root: Entry, ghost nodes: places)
    ensures fresh(root) && nodes == map[[] := root] && TreeOk(nodes) && Contents(nodes) == Start()
  {
    root := new Entry("/", None, []);
    nodes := map[[] := root];
    assert ChildrenOk(nodes, []);
  }

  /** All nodes have been made since. */
  twostate predicate AllNew(new nodes: places) {
    forall q :: q in nodes ==> fresh(nodes[q])
  }

  /** Mount one request more; the accepted ones are kept in order. */
  method MountNext(ghost nodes: places, root: Entry, r: Request, accepted: seq<Request>)
    returns (accepted': seq<Request>, ghost nodes': places)
    requires TreeOk(nodes) && nodes[[]] == root && r.at != []
    modifies nodes.Values
    ensures TreeOk(nodes') && nodes'[[]] == root && Grows(nodes, nodes')
    ensures var (m, ok) := VfsSpec.Mount(Contents(nodes), r.at, r.obj, r.create);
            Contents(nodes') == m && accepted' == if ok then accepted + [r] else accepted
  {
    var ok;
    ok, nodes' := Mount(nodes, root, r.at, r.obj, r.create);
    accepted' := if ok then accepted + [r] else accepted;
  }

  /**
    Mount any requests one after the other from an empty tree. The nodes are
    then the map of the run: a path leads to one if and only if it leads to
    something mounted, and that holds an object if and only if one was mounted
    there.
   */
  method MountAll(reqs: seq<Request>) returns (root: Entry, accepted: seq<Request>, ghost nodes: places)
    requires NoEmptyPath(reqs)
    ensures TreeOk(nodes) && nodes[[]] == root && AllNew(nodes)
    ensures Contents(nodes) == Run(reqs).0 && accepted == Run(reqs).1
    ensures forall p {:trigger p in nodes} :: p in nodes <==> p == [] || MountedBelow(accepted, p)
    ensures forall p {:trigger MountedAt(accepted, p)} :: p in nodes && nodes[p].held.Some? <==> MountedAt(accepted, p)
    ensures forall i :: 0 <= i < |accepted| ==>
              accepted[i].at in nodes && nodes[accepted[i].at].held == Some(accepted[i].obj)
  {
    root, nodes := NewRoot();
    accepted := [];
    for i := 0 to |reqs|
      invariant TreeOk(nodes) && nodes[[]] == root && AllNew(nodes)
      invariant Contents(nodes) == Run(reqs[..i]).0 && accepted == Run(reqs[..i]).1
    {
      RunStep(reqs, i);
      accepted, nodes := MountNext(nodes, root, reqs[i], accepted);
    }
    assert reqs[..|reqs|] == reqs;
    forall p
      ensures p in nodes <==> p == [] || MountedBelow(accepted, p)
      ensures p in nodes && nodes[p].held.Some? <==> MountedAt(accepted, p)
    {
      RunResolves(reqs, p);
      assert p in nodes <==> p in Contents(nodes);
    }
    forall i | 0 <= i < |accepted|
      ensures accepted[i].at in nodes && nodes[accepted[i].at].held == Some(accepted[i].obj)
    {
      RunResolves(reqs, accepted[i].at);
      assert accepted[i].at in Contents(nodes);
    }
  }

  lemma RunStep(reqs: seq<Request>, i: nat)
    requires NoEmptyPath(reqs) && i < |reqs|
    ensures var (m, done) := Run(reqs[..i]);
            var (m', ok) := VfsSpec.Mount(m, reqs[i].at, reqs[i].obj, reqs[i].create);
            Run(reqs[..i + 1]) == (m', if ok then done + [reqs[i]] else done)
  {
    assert reqs[..i + 1][..i] == reqs[..i];
  }
}
