/** The sectors that the directories and files of an image take up. */
module FatExtents {
  import opened FatLayout

  datatype Extent = Extent(start: nat, count: nat)

  /** The extents of a tree at a sector: of its own entries, and at the sectors those entries name. */
  ghost function Extents(d: Dir, sec: nat): seq<Extent>
    decreases d, |d.subs| + 1
  {
    [Extent(sec, DirSectors(d))] + SubExtents(d, sec, |d.subs|) + FileExtents(d, sec, |d.files|)
  }

  ghost function SubExtents(d: Dir, sec: nat, k: nat): seq<Extent>
    requires k <= |d.subs|
    decreases d, k
  {
    if k == 0 then [] else SubExtents(d, sec, k - 1) + Extents(d.subs[k - 1], SubItems(d, sec)[k - 1].sector)
  }

  ghost function FileExtents(d: Dir, sec: nat, k: nat): seq<Extent>
    requires k <= |d.files|
  {
    if k == 0 then []
    else FileExtents(d, sec, k - 1) + [Extent(FileItems(d, sec)[k - 1].sector, FileSectors(d.files[k - 1]))]
  }

  /** Extents that adjoin, the first starting at one sector and the last ending at another. */
  ghost predicate Tiles(exts: seq<Extent>, from: nat, to: nat) {
    if exts == [] then from == to
    else var last := exts[|exts| - 1];
         last.start + last.count == to && Tiles(exts[..|exts| - 1], from, last.start)
  }

  lemma {:induction false} TilesConcat(a: seq<Extent>, b: seq<Extent>, from: nat, mid: nat, to: nat)
    requires Tiles(a, from, mid) && Tiles(b, mid, to)
    ensures Tiles(a + b, from, to)
    decreases |b|
  {
    if b == [] {
      assert a + b == a;
    } else {
      TilesConcat(a, b[..|b| - 1], from, mid, b[|b| - 1].start);
      assert (a + b)[..|a + b| - 1] == a + b[..|b| - 1];
    }
  }

  lemma TilesOne(e: Extent)
    ensures Tiles([e], e.start, e.start + e.count)
  {
    assert [e][..0] == [];
  }

  lemma {:induction false} SubsTile(d: Dir, sec: nat, k: nat)
    requires k <= |d.subs|
    ensures Tiles(SubExtents(d, sec, k), sec + DirSectors(d), SubSector(d, sec, k))
    decreases d, k
  {
    if k == 0 {
    } else {
      var sub, at := d.subs[k - 1], SubSector(d, sec, k - 1);
      SubsTile(d, sec, k - 1);
      ExtentsTile(sub, at);
      assert d.subs[..k][..k - 1] == d.subs[..k - 1];
      assert SubSector(d, sec, k) == at + Span(sub);
      TilesConcat(SubExtents(d, sec, k - 1), Extents(sub, at), sec + DirSectors(d), at, SubSector(d, sec, k));
    }
  }

  lemma {:induction false} FilesTile(d: Dir, sec: nat, k: nat)
    requires k <= |d.files|
    ensures Tiles(FileExtents(d, sec, k), FileSector(d, sec, 0), FileSector(d, sec, k))
    decreases k
  {
    if k == 0 {
    } else {
      var e := Extent(FileSector(d, sec, k - 1), FileSectors(d.files[k - 1]));
      FilesTile(d, sec, k - 1);
      assert d.files[..k][..k - 1] == d.files[..k - 1];
      TilesOne(e);
      TilesConcat(FileExtents(d, sec, k - 1), [e], FileSector(d, sec, 0), e.start, FileSector(d, sec, k));
    }
  }

  /** A tree takes up every sector from its own to the end of its span, each for one thing. */
  lemma {:induction false} ExtentsTile(d: Dir, sec: nat)
    ensures Tiles(Extents(d, sec), sec, sec + Span(d))
    decreases d, |d.subs| + 1
  {
    var own := Extent(sec, DirSectors(d));
    TilesOne(own);
    SubsTile(d, sec, |d.subs|);
    FilesTile(d, sec, |d.files|);
    assert d.subs[..|d.subs|] == d.subs && d.files[..|d.files|] == d.files;
    TilesConcat([own], SubExtents(d, sec, |d.subs|), sec, sec + own.count, FileSector(d, sec, 0));
    TilesConcat([own] + SubExtents(d, sec, |d.subs|), FileExtents(d, sec, |d.files|), sec, FileSector(d, sec, 0),
      sec + Span(d));
  }

  lemma {:induction false} TilesApart(exts: seq<Extent>, from: nat, to: nat, i: nat, j: nat)
    requires Tiles(exts, from, to) && i < j < |exts|
    ensures exts[i].start + exts[i].count <= exts[j].start && exts[j].start + exts[j].count <= to
    decreases |exts|
  {
    var n := |exts| - 1;
    if j < n {
      TilesApart(exts[..n], from, exts[n].start, i, j);
    } else if i < n - 1 {
      TilesApart(exts[..n], from, exts[n].start, i, n - 1);
    }
  }

  /** No two directories or files of an image share a sector. */
  lemma ExtentsDisjoint(d: Dir, sec: nat, i: nat, j: nat)
    requires i < j < |Extents(d, sec)|
    ensures Extents(d, sec)[i].start + Extents(d, sec)[i].count <= Extents(d, sec)[j].start
  {
    ExtentsTile(d, sec);
    TilesApart(Extents(d, sec), sec, sec + Span(d), i, j);
  }
}
