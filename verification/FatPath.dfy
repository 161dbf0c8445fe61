/**
  Looking up a path in a mounted image (FAT::traverse and FAT::stat of
  src/fs/fat_sync.cpp) against following it in the tree that was written.
 */
module FatPath {
  import opened Common
  import opened FatEntries
  import opened FatLayout
  import opened FatReader
  import opened FatRoundTrip
  import opened FatImage

  // ---- the lookup ----

  /** The first entry of a name. */
  function First(l: seq<Dirent>, n: name): (r: Option<Dirent>)
    ensures r.None? ==> forall j :: 0 <= j < |l| ==> l[j].name != n
    ensures r.Some? ==> r.value in l && r.value.name == n
  {
    if l == [] then None else if l[0].name == n then Some(l[0]) else First(l[1..], n)
  }

  datatype Listing = Entries(ents: seq<Dirent>) | IoError | NotDir | NoEnt(missing: name)

  /** From a cluster on; found says whether some directory has been found before. */
  function TraverseFrom(disk: Disk, path: seq<name>, cluster: nat, found: bool): Listing
    requires DiskOk(disk)
    decreases |path|
  {
    match ListFrom(disk, ClToSector(GEOMETRY, cluster), 0)
    case None => IoError
    case Some(l) =>
      if path == [] then Entries(l)
      else
        match First(l, path[0])
        case Some(e) => if e.kind == DIR then TraverseFrom(disk, path[1..], e.block, true) else NotDir
        case None => if found then TraverseFrom(disk, path[1..], cluster, true) else NoEnt(path[0])
  }

  /** A directory on the way that cannot be listed is an error of the disk, whatever comes after it. */
  lemma UnlistedFails(disk: Disk, path: seq<name>, cluster: nat, found: bool)
    requires DiskOk(disk)
    ensures var l := ListFrom(disk, ClToSector(GEOMETRY, cluster), 0);
            && (l == None ==> TraverseFrom(disk, path, cluster, found) == IoError)
            && (TraverseFrom(disk, [], cluster, found) == IoError <==> l == None)
  {
  }

  method FindName(l: seq<Dirent>, n: name) returns (r: Option<Dirent>)
    ensures r == First(l, n)
  {
    var i := 0;
    while i < |l|
      invariant 0 <= i <= |l| && First(l[i..], n) == First(l, n)
    {
      if l[i].name == n {
        return Some(l[i]);
      }
      assert l[i..][1..] == l[i + 1..];
      i := i + 1;
    }
    return None;
  }

  /**
    List the directory at a path. An entry found for one name is kept when
    there is none for a later one.
   */
  method Traverse(disk: Disk, path: seq<name>) returns (r: Listing)
    requires DiskOk(disk)
    ensures r == TraverseFrom(disk, path, 0, false)
  {
    var rest, cluster, found: Option<Dirent> := path, 0, None;
    while rest != []
      invariant found.Some? ==> cluster == found.value.block
      invariant TraverseFrom(disk, rest, cluster, found.Some?) == TraverseFrom(disk, path, 0, false)
      decreases |rest|
    {
      var ents := IntLs(disk, ClToSector(GEOMETRY, cluster));
      if ents.None? {
        return IoError;
      }
      var n := rest[0];
      rest := rest[1..];
      var e := FindName(ents.value, n);
      if e.Some? {
        if e.value.kind != DIR {
          return NotDir;
        }
        found := e;
      }
      if found.None? {
        return NoEnt(n);
      }
      cluster := found.value.block;
    }
    var ents := IntLs(disk, ClToSector(GEOMETRY, cluster));
    return if ents.None? then IoError else Entries(ents.value);
  }

  function StatOf(disk: Disk, path: seq<name>): Option<Dirent>
    requires DiskOk(disk)
  {
    if path == [] then Some(Dirent(DIR, [47], 0, 0, 0, 0))
    else
      match TraverseFrom(disk, path[..|path| - 1], 0, false)
      case Entries(l) => First(l, path[|path| - 1])
      case _ => None
  }

  /** The entry at a path, if there is one. */
  method Stat(disk: Disk, path: seq<name>) returns (r: Option<Dirent>)
    requires DiskOk(disk)
    ensures r == StatOf(disk, path)
  {
    if path == [] {
      return Some(Dirent(DIR, [47], 0, 0, 0, 0));
    }
    var dirents := Traverse(disk, path[..|path| - 1]);
    if !dirents.Entries? {
      return None;
    }
    r := FindName(dirents.ents, path[|path| - 1]);
  }

  // ---- paths in a tree ----

  /** A directory together with those above it. */
  datatype Chain = Root(dir: Dir) | Below(up: Chain, dir: Dir)

  /** The names of the directories and then the files of a directory. */
  function Names(d: Dir): (ns: seq<name>)
    ensures |ns| == |d.subs| + |d.files|
    ensures forall k {:trigger ns[k]} :: 0 <= k < |ns| ==> ns[k] == NameOf(d, k)
  {
    seq(|d.subs| + |d.files|, k requires 0 <= k < |d.subs| + |d.files| => NameOf(d, k))
  }

  /** Where a name first occurs, or the length of the list. */
  function FirstIndex(ns: seq<name>, n: name): (i: nat)
    ensures i <= |ns| && forall j :: 0 <= j < i ==> ns[j] != n
    ensures i < |ns| ==> ns[i] == n
  {
    if ns == [] || ns[0] == n then 0 else 1 + FirstIndex(ns[1..], n)
  }

  /** Which of a directory's entries a name stands for: itself, its parent, or one of what is in it, or none. */
  function Position(d: Dir, n: name): nat {
    if n == [46] then 0 else if n == [46, 46] then 1 else 2 + FirstIndex(Names(d), n)
  }

  datatype Node = ADir(at: Chain) | AFile(file: File) | Nothing

  /** What a name stands for in a directory; the root is its own parent. */
  function Child(at: Chain, n: name): Node {
    var subs, files, k := at.dir.subs, at.dir.files, Position(at.dir, n);
    if k == 0 then ADir(at)
    else if k == 1 then ADir(if at.Root? then at else at.up)
    else if k < 2 + |subs| then ADir(Below(at, subs[k - 2]))
    else if k < 2 + |subs| + |files| then AFile(files[k - 2 - |subs|])
    else Nothing
  }

  datatype Outcome = Reached(at: Chain) | HitsFile | Misses(missing: name)

  /** Follow a path, name by name. */
  function Resolve(at: Chain, path: seq<name>): Outcome
    decreases |path|
  {
    if path == [] then Reached(at)
    else
      match Child(at, path[0])
      case ADir(c) => Resolve(c, path[1..])
      case AFile(_) => HitsFile
      case Nothing => Misses(path[0])
  }

  /** The same, but passing over names that are missing. */
  function Skip(at: Chain, path: seq<name>): (o: Outcome)
    ensures !o.Misses?
    decreases |path|
  {
    if path == [] then Reached(at)
    else
      match Child(at, path[0])
      case ADir(c) => Skip(c, path[1..])
      case AFile(_) => HitsFile
      case Nothing => Skip(at, path[1..])
  }

  /** A missing name is noticed only if it is the first. */
  function Reach(at: Chain, path: seq<name>): (o: Outcome) {
    if path != [] && Child(at, path[0]) == Nothing then Misses(path[0]) else Skip(at, path)
  }

  /** What is at a path of the tree. */
  function NodeAt(root: Dir, path: seq<name>): Node {
    if path == [] then ADir(Root(root))
    else
      match Resolve(Root(root), path[..|path| - 1])
      case Reached(c) => Child(c, path[|path| - 1])
      case _ => Nothing
  }

  /** Some name of the path is missing, though its first is not. */
  predicate MissesLater(root: Dir, path: seq<name>) {
    Resolve(Root(root), path).Misses? && Child(Root(root), path[0]) != Nothing
  }

  /** A path whose names all exist, or that meets a file first, is followed as it should be; no other is. */
  lemma {:induction false} SkipExact(at: Chain, path: seq<name>)
    ensures Skip(at, path) == Resolve(at, path) <==> !Resolve(at, path).Misses?
    decreases |path|
  {
    if path != [] && Child(at, path[0]).ADir? {
      SkipExact(Child(at, path[0]).at, path[1..]);
    }
  }

  /** The path without the names that are missing, up to where it meets a file. */
  function Existing(at: Chain, path: seq<name>): seq<name>
    decreases |path|
  {
    if path == [] then []
    else
      match Child(at, path[0])
      case ADir(c) => [path[0]] + Existing(c, path[1..])
      case AFile(_) => path
      case Nothing => Existing(at, path[1..])
  }

  lemma {:induction false} SkipFollowsExisting(at: Chain, path: seq<name>)
    ensures Resolve(at, Existing(at, path)) == Skip(at, path)
    decreases |path|
  {
    if path == [] {
    } else {
      match Child(at, path[0])
      case ADir(c) =>
        SkipFollowsExisting(c, path[1..]);
        var rest := Existing(c, path[1..]);
        assert Existing(at, path)[0] == path[0] && Existing(at, path)[1..] == rest;
      case AFile(_) =>
      case Nothing => SkipFollowsExisting(at, path[1..]);
    }
  }

  /**
    The path that a lookup follows in place of the one it is given: missing
    directories are left out, unless the first is.
   */
  function Followed(root: Dir, path: seq<name>): seq<name> {
    if path == [] then []
    else
      var dirs, last := path[..|path| - 1], [path[|path| - 1]];
      if dirs != [] && Child(Root(root), dirs[0]) == Nothing then path else Existing(Root(root), dirs) + last
  }

  lemma ReachFollowed(root: Dir, path: seq<name>)
    requires path != []
    ensures NodeAt(root, Followed(root, path)) ==
            match Reach(Root(root), path[..|path| - 1])
            case Reached(c) => Child(c, path[|path| - 1])
            case _ => Nothing
  {
    var dirs, last := path[..|path| - 1], [path[|path| - 1]];
    if dirs == [] || Child(Root(root), dirs[0]) != Nothing {
      SkipFollowsExisting(Root(root), dirs);
      var e := Existing(Root(root), dirs);
      assert (e + last)[..|e|] == e;
    }
  }

  // ---- one step ----

  /** The directory is listed at the sector and its parent is at that of the one above it. */
  ghost predicate Placed(disk: Disk, at: Chain, sector: nat)
    requires DiskOk(disk)
  {
    match at
    case Root(d) => Mirrors(disk, d, sector, sector)
    case Below(up, d) => exists parent :: Placed(disk, up, parent) && Mirrors(disk, d, sector, parent)
  }

  /** The entry is that of the node: it leads to the directory, or reads as the file. */
  ghost predicate Stands(disk: Disk, e: Option<Dirent>, node: Node)
    requires DiskOk(disk)
  {
    match node
    case ADir(c) => e.Some? && e.value.kind == DIR && Placed(disk, c, ClToSector(GEOMETRY, e.value.block))
    case AFile(f) => e.Some? && FileMirrors(disk, e.value, f)
    case Nothing => e.None?
  }

  lemma {:induction false} FirstIs(l: seq<Dirent>, n: name, k: nat)
    requires k < |l| && l[k].name == n && forall j :: 0 <= j < k ==> l[j].name != n
    ensures First(l, n) == Some(l[k])
  {
    if k == 0 {
    } else {
      assert l[0].name != n;
      FirstIs(l[1..], n, k - 1);
    }
  }

  /** The names of a listing: the directory itself, its parent, and what is in it. */
  ghost predicate Named(l: seq<Dirent>, d: Dir) {
    && |l| == 2 + |Names(d)| && l[0].name == [46] && l[1].name == [46, 46]
    && forall k {:trigger Names(d)[k]} :: 0 <= k < |Names(d)| ==> l[2 + k].name == Names(d)[k]
  }

  lemma MirrorNamed(disk: Disk, d: Dir, sector: nat, parent: nat)
    requires DiskOk(disk) && Mirrors(disk, d, sector, parent)
    ensures Named(ListFrom(disk, sector, 0).value, d)
  {
    var l := ListFrom(disk, sector, 0).value;
    forall k {:trigger Names(d)[k]} | 0 <= k < |Names(d)|
      ensures l[2 + k].name == Names(d)[k]
    {
      MirroredName(disk, d, sector, parent, k);
    }
  }

  lemma FirstAtPosition(l: seq<Dirent>, d: Dir, n: name)
    requires Named(l, d)
    ensures Position(d, n) <= |l|
    ensures First(l, n) == if Position(d, n) < |l| then Some(l[Position(d, n)]) else None
  {
    var k, ns := Position(d, n), Names(d);
    forall j | 0 <= j < |l| && j < k
      ensures l[j].name != n
    {
      if 2 <= j {
        assert l[2 + (j - 2)].name == ns[j - 2];
      }
    }
    if k < |l| {
      assert 2 <= k ==> l[2 + (k - 2)].name == ns[k - 2];
      FirstIs(l, n, k);
    }
  }

  /** Where the parent of a directory is. */
  lemma ParentPlaced(disk: Disk, at: Chain, sector: nat) returns (parent: nat)
    requires DiskOk(disk) && Placed(disk, at, sector)
    ensures Mirrors(disk, at.dir, sector, parent) && Placed(disk, if at.Root? then at else at.up, parent)
  {
    match at
    case Root(_) => parent := sector;
    case Below(up, d) => parent :| Placed(disk, up, parent) && Mirrors(disk, d, sector, parent);
  }

  lemma DotRead(disk: Disk, at: Chain, sector: nat, parent: nat, n: name, l: seq<Dirent>)
    requires DiskOk(disk) && Placed(disk, at, sector) && Placed(disk, if at.Root? then at else at.up, parent)
    requires Mirrors(disk, at.dir, sector, parent) && ListFrom(disk, sector, 0) == Some(l)
    requires n == [46] || n == [46, 46]
    ensures Stands(disk, First(l, n), Child(at, n))
  {
    MirrorNamed(disk, at.dir, sector, parent);
    FirstAtPosition(l, at.dir, n);
  }

  /** Entry i of a listing after the first two is that of directory i. */
  lemma SubEntry(disk: Disk, d: Dir, sector: nat, parent: nat, l: seq<Dirent>, i: nat)
    requires DiskOk(disk) && Mirrors(disk, d, sector, parent) && ListFrom(disk, sector, 0) == Some(l) && i < |d.subs|
    ensures |l| == 2 + |d.subs| + |d.files| && SubMirrors(disk, l[2 + i], d.subs[i], sector)
  {
  }

  lemma SubPlaced(disk: Disk, at: Chain, sector: nat, d: Dir, e: Dirent)
    requires DiskOk(disk) && Placed(disk, at, sector) && SubMirrors(disk, e, d, sector)
    ensures Stands(disk, Some(e), ADir(Below(at, d)))
  {
  }

  lemma SubRead(disk: Disk, at: Chain, sector: nat, parent: nat, n: name, l: seq<Dirent>)
    requires DiskOk(disk) && Placed(disk, at, sector)
    requires Mirrors(disk, at.dir, sector, parent) && ListFrom(disk, sector, 0) == Some(l)
    requires 2 <= Position(at.dir, n) < 2 + |at.dir.subs|
    ensures Stands(disk, First(l, n), Child(at, n))
  {
    var i := Position(at.dir, n) - 2;
    MirrorNamed(disk, at.dir, sector, parent);
    FirstAtPosition(l, at.dir, n);
    SubEntry(disk, at.dir, sector, parent, l, i);
    SubPlaced(disk, at, sector, at.dir.subs[i], l[2 + i]);
  }

  /** The files come after the directories. */
  lemma FileEntry(disk: Disk, d: Dir, sector: nat, parent: nat, l: seq<Dirent>, j: nat)
    requires DiskOk(disk) && Mirrors(disk, d, sector, parent) && ListFrom(disk, sector, 0) == Some(l) && j < |d.files|
    ensures |l| == 2 + |d.subs| + |d.files| && FileMirrors(disk, l[2 + |d.subs| + j], d.files[j])
  {
  }

  lemma FileRead(disk: Disk, at: Chain, sector: nat, parent: nat, n: name, l: seq<Dirent>)
    requires DiskOk(disk)
    requires Mirrors(disk, at.dir, sector, parent) && ListFrom(disk, sector, 0) == Some(l)
    requires Position(at.dir, n) >= 2 + |at.dir.subs|
    ensures Stands(disk, First(l, n), Child(at, n))
  {
    var j := Position(at.dir, n) - 2 - |at.dir.subs|;
    MirrorNamed(disk, at.dir, sector, parent);
    if j < |at.dir.files| {
      FileEntry(disk, at.dir, sector, parent, l, j);
    }
    FileFound(disk, at, n, l, j);
  }

  lemma FileFound(disk: Disk, at: Chain, n: name, l: seq<Dirent>, j: nat)
    requires DiskOk(disk) && Named(l, at.dir)
    requires Position(at.dir, n) == 2 + |at.dir.subs| + j
    requires j < |at.dir.files| ==> FileMirrors(disk, l[2 + |at.dir.subs| + j], at.dir.files[j])
    ensures Stands(disk, First(l, n), Child(at, n))
  {
    ChildIsFile(at, n, l, j);
    if j < |at.dir.files| {
      FileStands(disk, l[2 + |at.dir.subs| + j], at.dir.files[j]);
    }
  }

  lemma ChildIsFile(at: Chain, n: name, l: seq<Dirent>, j: nat)
    requires Named(l, at.dir) && Position(at.dir, n) == 2 + |at.dir.subs| + j
    ensures if j < |at.dir.files|
            then Child(at, n) == AFile(at.dir.files[j]) && First(l, n) == Some(l[2 + |at.dir.subs| + j])
            else Child(at, n) == Nothing && First(l, n) == None
  {
    FirstAtPosition(l, at.dir, n);
    FileByPosition(at, n, j);
  }

  lemma FileByPosition(at: Chain, n: name, j: nat)
    requires Position(at.dir, n) == 2 + |at.dir.subs| + j
    ensures Child(at, n) == if j < |at.dir.files| then AFile(at.dir.files[j]) else Nothing
  {
  }

  lemma FileStands(disk: Disk, e: Dirent, f: File)
    requires DiskOk(disk) && FileMirrors(disk, e, f)
    ensures Stands(disk, Some(e), AFile(f))
  {
  }

  /** The first entry of a name in a listing is that of what the name stands for. */
  lemma ChildRead(disk: Disk, at: Chain, sector: nat, n: name)
    requires DiskOk(disk) && Placed(disk, at, sector)
    ensures var r := ListFrom(disk, sector, 0); r.Some? && Stands(disk, First(r.value, n), Child(at, n))
  {
    var parent := ParentPlaced(disk, at, sector);
    var l := ListFrom(disk, sector, 0).value;
    if n == [46] || n == [46, 46] {
      DotRead(disk, at, sector, parent, n, l);
    } else if Position(at.dir, n) < 2 + |at.dir.subs| {
      SubRead(disk, at, sector, parent, n, l);
    } else {
      FileRead(disk, at, sector, parent, n, l);
    }
  }

  // ---- whole paths ----

  /** The listing is what following the path comes to. */
  ghost predicate Agrees(disk: Disk, r: Listing, o: Outcome)
    requires DiskOk(disk)
  {
    match o
    case Reached(c) =>
      r.Entries? && exists sector :: Placed(disk, c, sector) && ListFrom(disk, sector, 0) == Some(r.ents)
    case HitsFile => r == NotDir
    case Misses(n) => r == NoEnt(n)
  }

  /** Once a directory has been found, missing names are passed over. */
  lemma {:induction false} SkipRead(disk: Disk, at: Chain, path: seq<name>, cluster: nat)
    requires DiskOk(disk) && Placed(disk, at, ClToSector(GEOMETRY, cluster))
    ensures Agrees(disk, TraverseFrom(disk, path, cluster, true), Skip(at, path))
    decreases |path|
  {
    var sector := ClToSector(GEOMETRY, cluster);
    ChildRead(disk, at, sector, if path == [] then [] else path[0]);
    if path == [] {
    } else {
      var e := First(ListFrom(disk, sector, 0).value, path[0]);
      match Child(at, path[0])
      case ADir(c) => SkipRead(disk, c, path[1..], e.value.block);
      case AFile(_) =>
      case Nothing => SkipRead(disk, at, path[1..], cluster);
    }
  }

  /** Before that, they are not. */
  lemma ReachRead(disk: Disk, at: Chain, path: seq<name>, cluster: nat)
    requires DiskOk(disk) && Placed(disk, at, ClToSector(GEOMETRY, cluster))
    ensures Agrees(disk, TraverseFrom(disk, path, cluster, false), Reach(at, path))
  {
    if path != [] {
      ChildRead(disk, at, ClToSector(GEOMETRY, cluster), path[0]);
    }
    SkipRead(disk, at, path, cluster);
  }

  ghost predicate Readable(disk: Disk, root: Dir) {
    DiskOk(disk) && ImageOf(disk.image, root) && NamesShort(root) && NamesOk(root)
  }

  lemma RootPlaced(disk: Disk, root: Dir)
    requires Readable(disk, root)
    ensures Placed(disk, Root(root), ClToSector(GEOMETRY, 0))
  {
    ImageRoundTrip(disk, root);
    ImageMounts(disk, root);
    MirroredRoot(disk, root, ROOT_SECTOR, 0);
  }

  lemma MirroredRoot(disk: Disk, root: Dir, sector: nat, cluster: nat)
    requires DiskOk(disk) && Mirrors(disk, root, sector, sector) && ClToSector(GEOMETRY, cluster) == sector
    ensures Placed(disk, Root(root), ClToSector(GEOMETRY, cluster))
  {
  }

  /**
    Listing a path of an image gives what following it in the tree that was
    written comes to, unless some name of the path is missing though its first
    is not: the failure is then never reported.
   */
  lemma PathListing(disk: Disk, root: Dir, path: seq<name>)
    requires Readable(disk, root)
    ensures Agrees(disk, TraverseFrom(disk, path, 0, false), Resolve(Root(root), path)) <==> !MissesLater(root, path)
  {
    RootReach(disk, root, path);
    AgreesExactly(disk, root, path, TraverseFrom(disk, path, 0, false));
  }

  lemma AgreesExactly(disk: Disk, root: Dir, path: seq<name>, r: Listing)
    requires DiskOk(disk) && Agrees(disk, r, Reach(Root(root), path))
    ensures Agrees(disk, r, Resolve(Root(root), path)) <==> !MissesLater(root, path)
  {
    SkipExact(Root(root), path);
  }

  lemma RootReach(disk: Disk, root: Dir, path: seq<name>)
    requires Readable(disk, root)
    ensures Agrees(disk, TraverseFrom(disk, path, 0, false), Reach(Root(root), path))
  {
    RootPlaced(disk, root);
    ReachRead(disk, Root(root), path, 0);
  }

  /** The last step of a lookup. */
  lemma LastRead(disk: Disk, c: Chain, l: seq<Dirent>, n: name)
    requires DiskOk(disk) && exists sector :: Placed(disk, c, sector) && ListFrom(disk, sector, 0) == Some(l)
    ensures Stands(disk, First(l, n), Child(c, n))
  {
    var sector :| Placed(disk, c, sector) && ListFrom(disk, sector, 0) == Some(l);
    ChildRead(disk, c, sector, n);
  }

  /** A lookup finds what is at the path it follows. */
  lemma StatFinds(disk: Disk, root: Dir, path: seq<name>)
    requires Readable(disk, root)
    ensures Stands(disk, StatOf(disk, path), NodeAt(root, Followed(root, path)))
  {
    if path == [] {
      RootPlaced(disk, root);
    } else {
      var dirs, n := path[..|path| - 1], path[|path| - 1];
      RootReach(disk, root, dirs);
      ReachFollowed(root, path);
      var o, r := Reach(Root(root), dirs), TraverseFrom(disk, dirs, 0, false);
      if o.Reached? {
        LastRead(disk, o.at, r.ents, n);
      }
    }
  }

  /**
    The path it follows is as good as the one it is given, unless a missing
    directory is left out and something is found.
   */
  lemma FollowedExact(root: Dir, path: seq<name>)
    ensures NodeAt(root, Followed(root, path)) == NodeAt(root, path) <==>
            path == [] || !MissesLater(root, path[..|path| - 1]) || NodeAt(root, Followed(root, path)) == Nothing
  {
    if path != [] {
      ReachFollowed(root, path);
      SkipExact(Root(root), path[..|path| - 1]);
    }
  }

  /**
    Looking up a path gives what is there in the tree that was written, unless
    a directory other than the first is missing and the path without the
    missing ones leads to something: that is then found instead.
   */
  lemma PathStat(disk: Disk, root: Dir, path: seq<name>)
    requires Readable(disk, root)
    ensures Stands(disk, StatOf(disk, path), NodeAt(root, path)) <==>
            path == [] || !MissesLater(root, path[..|path| - 1]) || NodeAt(root, Followed(root, path)) == Nothing
  {
    StatFinds(disk, root, path);
    FollowedExact(root, path);
  }

  /** A directory "a" that holds nothing but a file "b". */
  predicate Sample(root: Dir) {
    root == Dir([], [Dir([97], [], [File([98], [])])], [])
  }

  lemma SampleChildren(root: Dir, a: Chain)
    requires Sample(root) && a == Below(Root(root), root.subs[0])
    ensures Child(Root(root), [97]) == ADir(a) && Child(a, [120]) == Nothing && Child(a, [98]).AFile?
  {
    assert Names(root) == [[97]] && Names(a.dir) == [[98]];
  }

  lemma SampleMisses(root: Dir, dirs: seq<name>, path: seq<name>)
    requires Sample(root) && dirs == [[97], [120]] && path == dirs + [[98]]
    ensures Resolve(Root(root), dirs) == Misses([120]) && Reach(Root(root), dirs).Reached?
    ensures NodeAt(root, path) == Nothing && NodeAt(root, Followed(root, path)).AFile?
  {
    var a := Below(Root(root), root.subs[0]);
    SampleChildren(root, a);
    var rest := dirs[1..];
    assert rest == [[120]] && rest[1..] == [] && path[..|path| - 1] == dirs;
    assert Resolve(a, rest) == Misses([120]) && Skip(a, rest) == Skip(a, rest[1..]) == Reached(a);
    ReachFollowed(root, path);
  }

  lemma FoundAnyway(disk: Disk, root: Dir, dirs: seq<name>, path: seq<name>)
    requires Readable(disk, root) && Reach(Root(root), dirs).Reached? && NodeAt(root, Followed(root, path)) != Nothing
    ensures TraverseFrom(disk, dirs, 0, false).Entries? && StatOf(disk, path).Some?
  {
    RootReach(disk, root, dirs);
    StatFinds(disk, root, path);
  }

  /** In that tree "a/x" is listed and "a/x/b" is found, though neither is there. */
  lemma MissingNamePassedOver(disk: Disk, root: Dir, dirs: seq<name>, path: seq<name>)
    requires Readable(disk, root) && Sample(root) && dirs == [[97], [120]] && path == dirs + [[98]]
    ensures Resolve(Root(root), dirs) == Misses([120]) && TraverseFrom(disk, dirs, 0, false).Entries?
    ensures NodeAt(root, path) == Nothing && StatOf(disk, path).Some?
  {
    SampleMisses(root, dirs, path);
    FoundAnyway(disk, root, dirs, path);
  }
}
