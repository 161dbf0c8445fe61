/**
  What is written by the disk image builder and then read by the file system
  of the running system: the listings, and exactly which trees come back whole.
 */
module FatRoundTrip {
  import opened Bytes
  import opened Common
  import opened FatEntries
  import opened FatLayout
  import opened FatReader
  import opened FatListing

  // ---- one item's entries ----

  ghost predicate GroupAt(ents: seq<Ent>, p: nat, g: seq<Ent>) {
    p + |g| <= |ents| && forall t {:trigger g[t]} :: 0 <= t < |g| ==> ents[p + t] == g[t]
  }

  ghost predicate UnusedFrom(ents: seq<Ent>, p: nat, q: nat) {
    p <= q <= |ents| && forall t {:trigger ents[t]} :: p <= t < q ==> ents[t] == Unused
  }

  lemma {:induction false} PassUnusedRun(view: seq<Option<seq<Dirent>>>, ents: seq<Ent>, p: nat, q: nat)
    requires Walk(view, ents) && UnusedFrom(ents, p, q)
    ensures view[p] == view[q]
    decreases q - p
  {
    if p < q {
      assert ents[p] == Unused && StepOk(view, ents, p);
      PassUnusedRun(view, ents, p + 1, q);
    }
  }

  /** The long entries of a name other than the first are passed over. */
  lemma {:induction false} PassLongRun(view: seq<Option<seq<Dirent>>>, ents: seq<Ent>, p: nat, n: name,
                                       attrib: byte, t: nat)
    requires Walk(view, ents) && GroupAt(ents, p, LongEnts(n, attrib)) && 1 <= t <= LongCount(n) < 64
    ensures view[p + t] == view[p + LongCount(n)]
    decreases LongCount(n) - t
  {
    if t < LongCount(n) {
      var e := LongEnts(n, attrib)[t];
      assert e == LongEnt(n, attrib, LongCount(n) - 1 - t) && ents[p + t] == e;
      assert StepOk(view, ents, p + t);
      PassLongRun(view, ents, p, n, attrib, t + 1);
    }
  }

  /** Where a name's entries start after any unused ones. */
  lemma FilledStart(len: nat, n: name)
    requires LongCount(n) >= 1
    ensures var p := len + Fill(len, n);
            if LongCount(n) < ENTS_PER_SECT then p % ENTS_PER_SECT + LongCount(n) < ENTS_PER_SECT
              else p % ENTS_PER_SECT == 0
  {
  }

  lemma ShortRead(view: seq<Option<seq<Dirent>>>, ents: seq<Ent>, p: nat, it: Item)
    requires Walk(view, ents) && p < |ents| && ents[p] == ShortEnt(it) && it.attrib % 16 != 15 && !Fits(it.name)
    ensures if Ends(it.name) then view[p] == Some([])
            else if Hides(it.name) then view[p] == view[p + 1]
            else view[p] == Prepend([Listed(it)], view[p + 1])
  {
    assert StepOk(view, ents, p);
  }

  lemma FittingRead(view: seq<Option<seq<Dirent>>>, ents: seq<Ent>, p: nat, it: Item)
    requires Walk(view, ents) && Fits(it.name) && GroupAt(ents, p, LongEnts(it.name, it.attrib))
    requires p + LongCount(it.name) < |ents| && ents[p + LongCount(it.name)] == ShortEnt(it)
    requires p % ENTS_PER_SECT + LongCount(it.name) < ENTS_PER_SECT
    ensures view[p] == Prepend([Listed(it)], view[p + LongCount(it.name) + 1])
  {
    assert NameAt(ents, p, LongEnts(it.name, it.attrib));
    assert ChainOk(view, ents, p, it.name, it.attrib);
  }

  lemma OverlongRead(view: seq<Option<seq<Dirent>>>, ents: seq<Ent>, p: nat, it: Item)
    requires Walk(view, ents) && ENTS_PER_SECT <= LongCount(it.name) < 64
    requires GroupAt(ents, p, LongEnts(it.name, it.attrib))
    requires p % ENTS_PER_SECT == 0
    ensures view[p] == view[p + LongCount(it.name)]
  {
    var e := LongEnts(it.name, it.attrib)[0];
    assert e == LongEnt(it.name, it.attrib, LongCount(it.name) - 1) && ents[p + 0] == e;
    assert StepOk(view, ents, p);
    PassLongRun(view, ents, p, it.name, it.attrib, ENTS_PER_SECT);
  }

  /** What the entries of one item add to the listing. */
  lemma GroupRead(view: seq<Option<seq<Dirent>>>, ents: seq<Ent>, len: nat, it: Item)
    requires Walk(view, ents) && GroupAt(ents, len, Group(len, it)) && it.attrib % 16 != 15 && LongCount(it.name) < 64
    ensures var len' := len + |Group(len, it)|;
            if Ends(it.name) then view[len] == Some([])
            else if Hides(it.name) then view[len] == view[len']
            else view[len] == Prepend([Listed(it)], view[len'])
  {
    var fill, c := Fill(len, it.name), LongCount(it.name);
    SplitGroup(ents, len, it);
    PassUnusedRun(view, ents, len, len + fill);
    if c == 0 {
      ShortRead(view, ents, len, it);
    } else {
      FilledStart(len, it.name);
      if c < ENTS_PER_SECT {
        FittingRead(view, ents, len + fill, it);
      } else {
        OverlongRead(view, ents, len + fill, it);
        ShortRead(view, ents, len + fill + c, it);
      }
    }
  }

  lemma SplitGroup(ents: seq<Ent>, len: nat, it: Item)
    requires GroupAt(ents, len, Group(len, it))
    ensures var fill, c := Fill(len, it.name), LongCount(it.name);
            && |Group(len, it)| == fill + c + 1 && len + fill + c + 1 <= |ents|
            && UnusedFrom(ents, len, len + fill)
            && GroupAt(ents, len + fill, LongEnts(it.name, it.attrib))
            && ents[len + fill + c] == ShortEnt(it)
  {
    var fill, c, g := Fill(len, it.name), LongCount(it.name), Group(len, it);
    var un, longs := seq(fill, _ => Unused), LongEnts(it.name, it.attrib);
    assert g == un + longs + [ShortEnt(it)];
    forall t | len <= t < len + fill
      ensures ents[t] == Unused
    {
      assert g[t - len] == un[t - len];
    }
    forall t | 0 <= t < c
      ensures ents[len + fill + t] == longs[t]
    {
      assert g[fill + t] == longs[t];
    }
    assert g[fill + c] == ShortEnt(it);
  }

  // ---- listings ----

  /** Names a directory of the building machine can hold. */
  const NAME_MAX := 255

  ghost predicate Listable(items: seq<Item>) {
    forall k :: 0 <= k < |items| ==> |items[k].name| <= NAME_MAX && items[k].attrib % 16 != 15
  }

  ghost predicate GroupFollows(ents: seq<Ent>, len: nat, it: Item, next: nat) {
    GroupAt(ents, len, Group(len, it)) && next == len + |Group(len, it)|
  }

  /** The entries are those of the items, one after the other from these positions on, and an end mark. */
  ghost predicate Starts(ents: seq<Ent>, items: seq<Item>, starts: seq<nat>) {
    && |starts| == |items| + 1 && starts[|items|] < |ents| && ents[starts[|items|]] == Last
    && forall k {:trigger items[k]} :: 0 <= k < |items| ==> GroupFollows(ents, starts[k], items[k], starts[k + 1])
  }

  lemma {:induction false} SeenFrom(view: seq<Option<seq<Dirent>>>, ents: seq<Ent>, items: seq<Item>,
                                    starts: seq<nat>, k: nat)
    requires Walk(view, ents) && Starts(ents, items, starts) && Listable(items) && k <= |items|
    ensures starts[k] < |ents| && view[starts[k]] == Some(Seen(items[k..]))
    decreases |items| - k
  {
    if k == |items| {
      assert StepOk(view, ents, starts[k]);
    } else {
      SeenFrom(view, ents, items, starts, k + 1);
      GroupRead(view, ents, starts[k], items[k]);
      assert items[k..][1..] == items[k + 1..];
    }
  }

  lemma MakeStarts(pre: seq<Ent>, items: seq<Item>) returns (starts: seq<nat>)
    ensures Starts(PackAll(pre, items) + [Last], items, starts) && starts[0] == |pre|
  {
    starts := seq(|items| + 1, k requires 0 <= k <= |items| => |PackAll(pre, items[..k])|);
    forall k | 0 <= k < |items|
      ensures GroupFollows(PackAll(pre, items) + [Last], starts[k], items[k], starts[k + 1])
    {
      GroupIn(pre, items, k);
    }
    assert items[..|items|] == items && items[..0] == [];
  }

  lemma GroupIn(pre: seq<Ent>, items: seq<Item>, k: nat)
    requires k < |items|
    ensures var len := |PackAll(pre, items[..k])|;
            && GroupAt(PackAll(pre, items) + [Last], len, Group(len, items[k]))
            && |PackAll(pre, items[..k + 1])| == len + |Group(len, items[k])|
  {
    assert items[..k + 1][..k] == items[..k];
    PackStep(pre, items[..k + 1], PackAll(pre, items[..k]));
    PackPrefix(pre, items, k + 1);
  }

  lemma ShortNameRead(n: name)
    requires |n| <= SHORTNAME_LEN
    ensures TrimRight(ShortName(n)) == n <==> n == [] || !Blank(n[|n| - 1])
  {
    var s := ShortName(n);
    var r := TrimRight(s);
    assert n <= s && forall j :: |n| <= j < |s| ==> s[j] == SPACE;
    assert |r| < |n| ==> Blank(s[|n| - 1]);
    assert r == [] || r[|r| - 1] == s[|r| - 1];
  }

  /** The entries for a directory itself and its parent, as read. */
  function Dots(sec: nat, parent: nat): seq<Dirent> {
    [Dirent(DIR, [46], Block(sec), 0, ATTR_DIRECTORY, 0), Dirent(DIR, [46, 46], Block(parent), 0, ATTR_DIRECTORY, 0)]
  }

  lemma DotsRead(view: seq<Option<seq<Dirent>>>, ents: seq<Ent>, sec: nat, parent: nat)
    requires Walk(view, ents) && Preamble(sec, parent) <= ents
    ensures view[0] == Prepend(Dots(sec, parent), view[2])
  {
    assert ents[0] == Preamble(sec, parent)[0] && ents[1] == Preamble(sec, parent)[1];
    ShortNameRead([46]);
    ShortNameRead([46, 46]);
    assert StepOk(view, ents, 0) && StepOk(view, ents, 1);
    var dots := Dots(sec, parent);
    assert view[1] == Prepend([dots[1]], view[2]) && view[0] == Prepend([dots[0]], view[1]);
    PrependTwice([dots[0]], [dots[1]], view[2]);
    assert [dots[0]] + [dots[1]] == dots;
  }

  /** The reader lists what Seen says of every directory the writer laid out. */
  lemma DirectoryListing(disk: Disk, d: Dir, sec: nat, parent: nat)
    requires DiskOk(disk) && TableAt(disk.image, SECT_SIZE * sec, Entries(d, sec, parent)) && Listable(Items(d, sec))
    ensures ListFrom(disk, sec, 0) == Some(Dots(sec, parent) + Seen(Items(d, sec)))
  {
    var pre, items := Preamble(sec, parent), Items(d, sec);
    var view := MakeWalk(disk, sec, Entries(d, sec, parent));
    PackPrefix(pre, items, 0);
    DotsRead(view, Entries(d, sec, parent), sec, parent);
    var starts := MakeStarts(pre, items);
    SeenFrom(view, Entries(d, sec, parent), items, starts, 0);
    assert items[0..] == items && items[..0] == [];
  }

  // ---- which names come back ----

  /** Bytes a long name loses: zero ends a name, and 0xFF widens to the end mark 0xFFFF. */
  predicate Lost(b: byte) {
    b == 0 || b == 0xFF
  }

  predicate Kept(n: name, lo: nat, hi: nat)
    requires lo <= hi <= |n|
  {
    forall q {:trigger n[q]} :: lo <= q < hi ==> !Lost(n[q])
  }

  predicate NameOk(n: name) {
    if |n| > SHORTNAME_LEN
    then LongCount(n) < ENTS_PER_SECT && Kept(n, 0, |n|)
    else n == [] || (n[0] != 0 && n[0] != UNUSED_ENTRY && !Blank(n[|n| - 1]))
  }

  /** End of the c-th piece of a name. */
  function PieceEnd(n: name, c: nat): (e: nat)
    requires c < LongCount(n)
    ensures LONG_CHARS_PER_ENTRY * c < e <= |n| && e <= LONG_CHARS_PER_ENTRY * (c + 1)
    ensures c + 1 < LongCount(n) ==> e == LONG_CHARS_PER_ENTRY * (c + 1)
    ensures c + 1 == LongCount(n) ==> e == |n|
  {
    if LONG_CHARS_PER_ENTRY * (c + 1) < |n| then LONG_CHARS_PER_ENTRY * (c + 1) else |n|
  }

  /** A piece reads as a prefix of the name's bytes, all of them if and only if none is lost. */
  lemma {:induction false} CharsRead(n: name, c: nat, j: nat, from: nat, mid: nat)
    requires c < LongCount(n) && j <= LONG_CHARS_PER_ENTRY
    requires from == LONG_CHARS_PER_ENTRY * c + j <= mid == PieceEnd(n, c)
    ensures Chars(n, c, j) <= n[from..mid]
    ensures Chars(n, c, j) == n[from..mid] <==> Kept(n, from, mid)
    decreases LONG_CHARS_PER_ENTRY - j
  {
    if from < mid {
      assert LongChar(n, c, j) == Wide(n[from]);
      if !Lost(n[from]) {
        CharsRead(n, c, j + 1, from + 1, mid);
        assert n[from..mid] == [n[from]] + n[from + 1..mid];
      }
    }
  }

  /** A long name reads as itself if and only if it has no lost byte; else it reads as something shorter. */
  lemma {:induction false} PiecesRead(n: name, c: nat, from: nat)
    requires c < LongCount(n) && from == LONG_CHARS_PER_ENTRY * c
    ensures |Pieces(n, c)| <= |n| - from
    ensures if Kept(n, from, |n|) then Pieces(n, c) == n[from..] else |Pieces(n, c)| < |n| - from
    decreases LongCount(n) - c
  {
    var mid := PieceEnd(n, c);
    CharsRead(n, c, 0, from, mid);
    PiecesStep(n, c);
    if c + 1 < LongCount(n) {
      PiecesRead(n, c + 1, mid);
      assert n[from..] == n[from..mid] + n[mid..];
    } else {
      assert Pieces(n, c + 1) == [];
    }
  }

  /** An item comes back under its own name if and only if the name is fine. */
  lemma NameRead(n: name)
    ensures !Ends(n) && !Hides(n) && ReadName(n) == n <==> NameOk(n)
  {
    if Fits(n) {
      PiecesRead(n, 0, 0);
      assert n[0..] == n;
    } else if |n| <= SHORTNAME_LEN {
      ShortNameRead(n);
    }
  }

  ghost predicate AllOk(items: seq<Item>) {
    forall k {:trigger items[k]} :: 0 <= k < |items| ==> NameOk(items[k].name)
  }

  lemma SeenStep(items: seq<Item>)
    requires items != [] && NameOk(items[0].name)
    ensures Seen(items) == [Listed(items[0])] + Seen(items[1..]) && ReadName(items[0].name) == items[0].name
  {
    NameRead(items[0].name);
  }

  lemma {:induction false} SeenAt(items: seq<Item>, k: nat)
    requires AllOk(items) && k <= |items|
    ensures |Seen(items)| == |items|
    ensures k < |items| ==> Seen(items)[k] == Listed(items[k]) && ReadName(items[k].name) == items[k].name
    decreases |items|
  {
    if items == [] {
    } else {
      SeenStep(items);
      SeenAt(items[1..], if k == 0 then 0 else k - 1);
    }
  }

  lemma {:induction false} SeenOnly(items: seq<Item>)
    requires |Seen(items)| == |items|
    requires forall k {:trigger Seen(items)[k]} :: 0 <= k < |items| ==> Seen(items)[k].name == items[k].name
    ensures forall k :: 0 <= k < |items| ==> NameOk(items[k].name)
    decreases |items|
  {
    if items == [] {
    } else {
      NameRead(items[0].name);
      var rest := items[1..];
      assert Seen(items) == [Listed(items[0])] + Seen(rest) && Seen(items)[0] == Listed(items[0]);
      forall k | 0 <= k < |rest|
        ensures Seen(rest)[k].name == rest[k].name
      {
        assert Seen(items)[k + 1] == Seen(rest)[k];
      }
      SeenOnly(rest);
      assert forall k :: 1 <= k < |items| ==> items[k] == rest[k - 1];
    }
  }

  // ---- whole trees ----

  /** The geometry the boot sector of an image describes. */
  const GEOMETRY := Geometry(SECT_SIZE, 1, 0, 3)

  lemma ClusterRoundTrip(sector: nat)
    requires 3 <= sector < 0x1_0000_0000
    ensures ClToSector(GEOMETRY, Block(sector)) == sector
  {
  }

  /** Reading part of a file gives that part of its data. */
  ghost predicate FileMirrors(disk: Disk, e: Dirent, f: File) {
    && e.kind == FILE && e.name == f.name && e.size == |f.data|
    && forall pos: nat, n: nat {:trigger Read(disk, GEOMETRY, e, pos, n)} :: pos + n < 0x1_0000_0000_0000_0000 ==>
         Read(disk, GEOMETRY, e, pos, n) == Some(f.data[Min(|f.data|, pos)..Min(|f.data|, pos + n)])
  }

  /**
    The directory listed at a sector is d: itself and its parent, then its
    directories and files in order and under their names; the cluster of each
    directory leads to a sector where that directory is listed in turn, and
    every part of every file reads as that part of its data.
   */
  ghost predicate Mirrors(disk: Disk, d: Dir, sector: nat, parent: nat)
    requires DiskOk(disk)
    decreases d, 0
  {
    && ListFrom(disk, sector, 0).Some?
    && var l := ListFrom(disk, sector, 0).value;
       && |l| == 2 + |d.subs| + |d.files|
       && l[0].kind == DIR && l[0].name == [46] && ClToSector(GEOMETRY, l[0].block) == sector
       && l[1].kind == DIR && l[1].name == [46, 46] && ClToSector(GEOMETRY, l[1].block) == parent
       && (forall k {:trigger d.subs[k]} :: 0 <= k < |d.subs| ==> SubMirrors(disk, l[2 + k], d.subs[k], sector))
       && (forall k {:trigger d.files[k]} :: 0 <= k < |d.files| ==> FileMirrors(disk, l[2 + |d.subs| + k], d.files[k]))
  }

  ghost predicate SubMirrors(disk: Disk, e: Dirent, d: Dir, parent: nat)
    requires DiskOk(disk)
    decreases d, 1
  {
    e.kind == DIR && e.name == d.name && Mirrors(disk, d, ClToSector(GEOMETRY, e.block), parent)
  }

  predicate NamesOk(d: Dir) {
    && (forall k :: 0 <= k < |d.subs| ==> NameOk(d.subs[k].name) && NamesOk(d.subs[k]))
    && (forall k :: 0 <= k < |d.files| ==> NameOk(d.files[k].name))
  }

  /** No name is longer than the building machine allows. */
  predicate NamesShort(d: Dir) {
    && (forall k :: 0 <= k < |d.subs| ==> |d.subs[k].name| <= NAME_MAX && NamesShort(d.subs[k]))
    && (forall k :: 0 <= k < |d.files| ==> |d.files[k].name| <= NAME_MAX)
  }

  lemma FileReads(disk: Disk, f: File, sec: nat, e: Dirent, pos: nat, n: nat)
    requires DiskOk(disk) && 3 <= sec < 0x1_0000_0000 && FileAt(disk.image, sec, f)
    requires e.block == Block(sec) && e.size == |f.data| && pos + n < 0x1_0000_0000_0000_0000
    ensures Read(disk, GEOMETRY, e, pos, n) == Some(f.data[Min(|f.data|, pos)..Min(|f.data|, pos + n)])
  {
    ClusterRoundTrip(sec);
    var sta, end := Min(|f.data|, pos), Min(|f.data|, pos + n);
    ReadIs(disk, GEOMETRY, e, pos, n);
    PartOfPart(disk.image, SECT_SIZE * sec, SECT_SIZE * sec + |f.data|, sta, end);
  }

  /** The k-th name in a directory, its directories before its files. */
  function NameOf(d: Dir, k: nat): name
    requires k < |d.subs| + |d.files|
  {
    if k < |d.subs| then d.subs[k].name else d.files[k - |d.subs|].name
  }

  lemma ItemIs(d: Dir, sec: nat, k: nat)
    requires k < |d.subs| + |d.files|
    ensures Items(d, sec)[k].attrib % 16 != 15 && Items(d, sec)[k].name == NameOf(d, k)
  {
    if k < |d.subs| {
      assert Items(d, sec)[k] == SubItems(d, sec)[k];
    } else {
      assert Items(d, sec)[k] == FileItems(d, sec)[k - |d.subs|];
    }
  }

  lemma ItemsListable(d: Dir, sec: nat)
    requires NamesShort(d)
    ensures Listable(Items(d, sec))
  {
    forall k | 0 <= k < |d.subs| + |d.files|
      ensures |Items(d, sec)[k].name| <= NAME_MAX && Items(d, sec)[k].attrib % 16 != 15
    {
      ItemIs(d, sec, k);
    }
  }

  ghost predicate LevelNamesOk(d: Dir) {
    && (forall k {:trigger d.subs[k]} :: 0 <= k < |d.subs| ==> NameOk(d.subs[k].name))
    && (forall k {:trigger d.files[k]} :: 0 <= k < |d.files| ==> NameOk(d.files[k].name))
  }

  lemma LevelItemsOk(d: Dir, sec: nat)
    requires LevelNamesOk(d)
    ensures AllOk(Items(d, sec))
  {
    forall k | 0 <= k < |Items(d, sec)|
      ensures NameOk(Items(d, sec)[k].name)
    {
      ItemIs(d, sec, k);
    }
  }

  lemma ItemsLevelOk(d: Dir, sec: nat)
    requires forall k :: 0 <= k < |Items(d, sec)| ==> NameOk(Items(d, sec)[k].name)
    ensures LevelNamesOk(d)
  {
    forall k | 0 <= k < |d.subs|
      ensures NameOk(d.subs[k].name)
    {
      ItemIs(d, sec, k);
    }
    forall k | 0 <= k < |d.files|
      ensures NameOk(d.files[k].name)
    {
      ItemIs(d, sec, |d.subs| + k);
    }
  }

  function ListedSub(d: Dir, sec: nat, k: nat): Dirent
    requires k < |d.subs|
  {
    Dirent(DIR, d.subs[k].name, Block(SubSector(d, sec, k)), 0, ATTR_DIRECTORY, 0)
  }

  function ListedFile(d: Dir, sec: nat, k: nat): Dirent
    requires k < |d.files|
  {
    Dirent(FILE, d.files[k].name, Block(FileSector(d, sec, k)), |d.files[k].data|, ATTR_READ_ONLY, 0)
  }

  lemma SubListed(d: Dir, sec: nat, k: nat)
    requires k < |d.subs| && ReadName(d.subs[k].name) == d.subs[k].name
    ensures Listed(Items(d, sec)[k]) == ListedSub(d, sec, k)
  {
    assert Items(d, sec)[k] == SubItems(d, sec)[k];
  }

  lemma FileListed(d: Dir, sec: nat, k: nat)
    requires k < |d.files| && ReadName(d.files[k].name) == d.files[k].name
    ensures Listed(Items(d, sec)[|d.subs| + k]) == ListedFile(d, sec, k)
  {
    assert Items(d, sec)[|d.subs| + k] == FileItems(d, sec)[k];
  }

  /** What is listed for the directories and files of d when all their names are fine. */
  ghost predicate LevelListed(l: seq<Dirent>, d: Dir, sec: nat, parent: nat) {
    && |l| == 2 + |d.subs| + |d.files|
    && l[0] == Dots(sec, parent)[0] && l[1] == Dots(sec, parent)[1]
    && (forall k {:trigger ListedSub(d, sec, k)} :: 0 <= k < |d.subs| ==> l[2 + k] == ListedSub(d, sec, k))
    && (forall k {:trigger ListedFile(d, sec, k)} :: 0 <= k < |d.files| ==>
          l[2 + |d.subs| + k] == ListedFile(d, sec, k))
  }

  /** The same without the entries for the directory itself and its parent. */
  ghost predicate SubsListed(seen: seq<Dirent>, d: Dir, sec: nat) {
    && |seen| >= |d.subs|
    && forall k {:trigger ListedSub(d, sec, k)} :: 0 <= k < |d.subs| ==> seen[k] == ListedSub(d, sec, k)
  }

  ghost predicate FilesListed(seen: seq<Dirent>, d: Dir, sec: nat) {
    && |seen| == |d.subs| + |d.files|
    && forall k {:trigger ListedFile(d, sec, k)} :: 0 <= k < |d.files| ==> seen[|d.subs| + k] == ListedFile(d, sec, k)
  }

  lemma SubSeen(d: Dir, sec: nat, k: nat)
    requires LevelNamesOk(d) && AllOk(Items(d, sec)) && k < |d.subs|
    ensures |Seen(Items(d, sec))| == |d.subs| + |d.files| && Seen(Items(d, sec))[k] == ListedSub(d, sec, k)
  {
    SeenAt(Items(d, sec), k);
    assert Listed(Items(d, sec)[k]) == ListedSub(d, sec, k) by {
      NameRead(d.subs[k].name);
      SubListed(d, sec, k);
    }
  }

  lemma FileSeen(d: Dir, sec: nat, k: nat)
    requires LevelNamesOk(d) && AllOk(Items(d, sec)) && k < |d.files|
    ensures |Seen(Items(d, sec))| == |d.subs| + |d.files|
    ensures Seen(Items(d, sec))[|d.subs| + k] == ListedFile(d, sec, k)
  {
    SeenAt(Items(d, sec), |d.subs| + k);
    assert Listed(Items(d, sec)[|d.subs| + k]) == ListedFile(d, sec, k) by {
      NameRead(d.files[k].name);
      FileListed(d, sec, k);
    }
  }

  lemma LevelItems(d: Dir, sec: nat, seen: seq<Dirent>)
    requires LevelNamesOk(d) && AllOk(Items(d, sec)) && seen == Seen(Items(d, sec))
    ensures SubsListed(seen, d, sec) && FilesListed(seen, d, sec)
  {
    SeenAt(Items(d, sec), 0);
    forall k {:trigger ListedSub(d, sec, k)} | 0 <= k < |d.subs|
      ensures seen[k] == ListedSub(d, sec, k)
    {
      SubSeen(d, sec, k);
    }
    forall k {:trigger ListedFile(d, sec, k)} | 0 <= k < |d.files|
      ensures seen[|d.subs| + k] == ListedFile(d, sec, k)
    {
      FileSeen(d, sec, k);
    }
  }

  lemma LevelSeen(d: Dir, sec: nat, parent: nat, seen: seq<Dirent>, l: seq<Dirent>)
    requires SubsListed(seen, d, sec) && FilesListed(seen, d, sec) && l == Dots(sec, parent) + seen
    ensures LevelListed(l, d, sec, parent)
  {
    forall k {:trigger ListedSub(d, sec, k)} | 0 <= k < |d.subs|
      ensures l[2 + k] == ListedSub(d, sec, k)
    {
      assert l[2 + k] == seen[k];
    }
    forall k {:trigger ListedFile(d, sec, k)} | 0 <= k < |d.files|
      ensures l[2 + |d.subs| + k] == ListedFile(d, sec, k)
    {
      assert l[2 + |d.subs| + k] == seen[|d.subs| + k];
    }
    assert l[0] == Dots(sec, parent)[0] && l[1] == Dots(sec, parent)[1];
  }

  lemma LevelReads(disk: Disk, d: Dir, sec: nat, parent: nat) returns (l: seq<Dirent>)
    requires DiskOk(disk) && TableAt(disk.image, SECT_SIZE * sec, Entries(d, sec, parent)) && NamesShort(d)
    requires LevelNamesOk(d)
    ensures ListFrom(disk, sec, 0) == Some(l) && LevelListed(l, d, sec, parent)
  {
    var seen := Seen(Items(d, sec));
    l := Dots(sec, parent) + seen;
    ItemsListable(d, sec);
    DirectoryListing(disk, d, sec, parent);
    LevelItemsOk(d, sec);
    LevelItems(d, sec, seen);
    LevelSeen(d, sec, parent, seen, l);
  }

  // ---- the round trip ----

  lemma SubInside(disk: Disk, d: Dir, sec: nat, parent: nat, k: nat)
    requires DiskOk(disk) && Holds(disk.image, d, sec, parent) && 3 <= sec && k < |d.subs|
    ensures 3 <= SubSector(d, sec, k) < 0x1_0000_0000
  {
    assert Holds(disk.image, d.subs[k], SubSector(d, sec, k), sec);
  }

  lemma FileInside(disk: Disk, d: Dir, sec: nat, parent: nat, k: nat)
    requires DiskOk(disk) && Holds(disk.image, d, sec, parent) && 3 <= sec && k < |d.files|
    ensures 3 <= FileSector(d, sec, k) < 0x1_0000_0000
  {
    assert FileAt(disk.image, FileSector(d, sec, k), d.files[k]);
  }

  lemma FileMirrored(disk: Disk, d: Dir, sec: nat, parent: nat, k: nat)
    requires DiskOk(disk) && Holds(disk.image, d, sec, parent) && 3 <= sec && k < |d.files|
    ensures FileMirrors(disk, ListedFile(d, sec, k), d.files[k])
  {
    FileInside(disk, d, sec, parent, k);
    var f, e := d.files[k], ListedFile(d, sec, k);
    forall pos: nat, n: nat | pos + n < 0x1_0000_0000_0000_0000
      ensures Read(disk, GEOMETRY, e, pos, n) == Some(f.data[Min(|f.data|, pos)..Min(|f.data|, pos + n)])
    {
      FileReads(disk, f, FileSector(d, sec, k), e, pos, n);
    }
  }

  /** A tree whose names are fine comes back whole. */
  lemma {:induction false} ReadsBack(disk: Disk, d: Dir, sec: nat, parent: nat)
    requires DiskOk(disk) && Holds(disk.image, d, sec, parent) && 3 <= sec < 0x1_0000_0000
    requires 3 <= parent < 0x1_0000_0000
    requires NamesShort(d) && NamesOk(d)
    ensures Mirrors(disk, d, sec, parent)
    decreases d, 0
  {
    var l := LevelReads(disk, d, sec, parent);
    ClusterRoundTrip(sec);
    ClusterRoundTrip(parent);
    forall k {:trigger d.subs[k]} | 0 <= k < |d.subs|
      ensures SubMirrors(disk, l[2 + k], d.subs[k], sec)
    {
      SubMirrored(disk, d, sec, parent, k);
    }
    forall k {:trigger d.files[k]} | 0 <= k < |d.files|
      ensures FileMirrors(disk, l[2 + |d.subs| + k], d.files[k])
    {
      FileMirrored(disk, d, sec, parent, k);
    }
  }

  lemma {:induction false} SubMirrored(disk: Disk, d: Dir, sec: nat, parent: nat, k: nat)
    requires DiskOk(disk) && Holds(disk.image, d, sec, parent) && 3 <= sec < 0x1_0000_0000 && k < |d.subs|
    requires NamesShort(d.subs[k]) && NamesOk(d.subs[k])
    ensures SubMirrors(disk, ListedSub(d, sec, k), d.subs[k], sec)
    decreases d.subs[k], 1
  {
    SubInside(disk, d, sec, parent, k);
    ClusterRoundTrip(SubSector(d, sec, k));
    ReadsBack(disk, d.subs[k], SubSector(d, sec, k), sec);
  }

  lemma MirroredSub(disk: Disk, d: Dir, sec: nat, parent: nat, k: nat)
    requires DiskOk(disk) && Mirrors(disk, d, sec, parent) && k < |d.subs|
    ensures ListFrom(disk, sec, 0).value[2 + k].name == d.subs[k].name
  {
    assert SubMirrors(disk, ListFrom(disk, sec, 0).value[2 + k], d.subs[k], sec);
  }

  lemma MirroredFile(disk: Disk, d: Dir, sec: nat, parent: nat, j: nat)
    requires DiskOk(disk) && Mirrors(disk, d, sec, parent) && j < |d.files|
    ensures ListFrom(disk, sec, 0).value[2 + |d.subs| + j].name == d.files[j].name
  {
    assert FileMirrors(disk, ListFrom(disk, sec, 0).value[2 + |d.subs| + j], d.files[j]);
  }

  /** The names of a mirrored directory are listed in order. */
  lemma MirroredName(disk: Disk, d: Dir, sec: nat, parent: nat, k: nat)
    requires DiskOk(disk) && Mirrors(disk, d, sec, parent) && k < |d.subs| + |d.files|
    ensures ListFrom(disk, sec, 0).value[2 + k].name == NameOf(d, k)
  {
    if k < |d.subs| {
      MirroredSub(disk, d, sec, parent, k);
    } else {
      MirroredFile(disk, d, sec, parent, k - |d.subs|);
    }
  }

  lemma MirroredLevel(disk: Disk, d: Dir, sec: nat, parent: nat)
    requires DiskOk(disk) && TableAt(disk.image, SECT_SIZE * sec, Entries(d, sec, parent))
    requires NamesShort(d) && Mirrors(disk, d, sec, parent)
    ensures LevelNamesOk(d)
  {
    ItemsListable(d, sec);
    DirectoryListing(disk, d, sec, parent);
    var items, l := Items(d, sec), ListFrom(disk, sec, 0).value;
    assert |Seen(items)| == |items|;
    forall k {:trigger Seen(items)[k]} | 0 <= k < |items|
      ensures Seen(items)[k].name == items[k].name
    {
      MirroredName(disk, d, sec, parent, k);
      ItemIs(d, sec, k);
      assert l[2 + k] == Seen(items)[k];
    }
    SeenOnly(items);
    ItemsLevelOk(d, sec);
  }

  /** Only such trees do. */
  lemma {:induction false} ReadsBackOnly(disk: Disk, d: Dir, sec: nat, parent: nat)
    requires DiskOk(disk) && Holds(disk.image, d, sec, parent) && 3 <= sec < 0x1_0000_0000
    requires NamesShort(d) && Mirrors(disk, d, sec, parent)
    ensures NamesOk(d)
    decreases d
  {
    MirroredLevel(disk, d, sec, parent);
    var l := LevelReads(disk, d, sec, parent);
    forall k | 0 <= k < |d.subs|
      ensures NamesOk(d.subs[k])
    {
      SubInside(disk, d, sec, parent, k);
      ClusterRoundTrip(SubSector(d, sec, k));
      assert l[2 + k] == ListedSub(d, sec, k);
      ReadsBackOnly(disk, d.subs[k], SubSector(d, sec, k), sec);
    }
  }

  /** The tree is read back, name for name and byte for byte, if and only if every name in it is fine. */
  lemma TreeRoundTrip(disk: Disk, d: Dir, sec: nat, parent: nat)
    requires DiskOk(disk) && Holds(disk.image, d, sec, parent) && 3 <= sec < 0x1_0000_0000
    requires 3 <= parent < 0x1_0000_0000
    requires NamesShort(d)
    ensures Mirrors(disk, d, sec, parent) <==> NamesOk(d)
  {
    if NamesOk(d) {
      ReadsBack(disk, d, sec, parent);
    } else if Mirrors(disk, d, sec, parent) {
      ReadsBackOnly(disk, d, sec, parent);
    }
  }
}
