/** The disk image writer of diskimagebuild/writer.cpp, with the output file held in memory. */
module FatWriter {
  import opened Bytes
  import opened FatEntries
  import opened FatLayout

  /** File contents after seeking to a position and writing; a gap before it reads as zeros. */
  function Overwritten(b: seq<byte>, pos: nat, data: seq<byte>): (r: seq<byte>)
    ensures data != [] ==> |r| == if pos + |data| > |b| then pos + |data| else |b|
    ensures data == [] ==> r == b
    ensures forall p {:trigger r[p]} :: 0 <= p < |r| ==>
              r[p] == if pos <= p < pos + |data| then data[p - pos] else if p < |b| then b[p] else 0
  {
    if data == [] then b
    else
      seq(if pos + |data| > |b| then pos + |data| else |b|, p requires p >= 0 =>
        if pos <= p < pos + |data| then data[p - pos] else if p < |b| then b[p] else 0)
  }

  class ImageFile {
    var bytes: seq<byte>

    constructor ()
      ensures bytes == []
    {
      bytes := [];
    }

    method WriteAt(pos: nat, data: seq<byte>)
      modifies this
      ensures bytes == Overwritten(old(bytes), pos, data)
    {
      bytes := Overwritten(bytes, pos, data);
    }
  }

  /** Split a name of more than 11 bytes over long entries, the final piece first. */
  method CreateLongname(n: name, attrib: byte) returns (longs: seq<Ent>)
    requires |n| > SHORTNAME_LEN
    ensures longs == LongEnts(n, attrib)
  {
    var padded := n;
    if |n| % LONG_CHARS_PER_ENTRY != 0 {
      padded := n + seq(LONG_CHARS_PER_ENTRY - |n| % LONG_CHARS_PER_ENTRY, _ => 0);
    }
    var entmax := |padded| / LONG_CHARS_PER_ENTRY;
    assert entmax == LongCount(n) && |padded| == LONG_CHARS_PER_ENTRY * entmax;
    longs := [];
    var current := 0;
    var i := 1;
    while i <= entmax
      invariant 1 <= i <= entmax + 1 && current == LONG_CHARS_PER_ENTRY * (i - 1)
      invariant |longs| == i - 1
      invariant forall t {:trigger longs[t]} :: 0 <= t < |longs| ==> longs[t] == LongEnt(n, attrib, i - 2 - t)
    {
      var chars := seq(LONG_CHARS_PER_ENTRY, j requires 0 <= j < LONG_CHARS_PER_ENTRY && current + j < |padded| =>
        Wide(padded[current + j]));
      forall j | 0 <= j < LONG_CHARS_PER_ENTRY
        ensures chars[j] == LongChunk(n, i - 1)[j]
      {
        assert padded[current + j] == if current + j < |n| then n[current + j] else 0;
        assert chars[j] == Wide(padded[current + j]) == LongChar(n, i - 1, j);
      }
      assert chars == LongChunk(n, i - 1);
      longs := [Long(if i == entmax then MarkLast(entmax) else i % 256, attrib - attrib % 16 + 15, chars)] + longs;
      current := current + LONG_CHARS_PER_ENTRY;
      i := i + 1;
    }
  }

  method FillUnused(ents: seq<Ent>, num: nat) returns (r: seq<Ent>)
    ensures r == ents + seq(num, _ => Unused)
  {
    r := ents;
    var k := 0;
    while k < num
      invariant 0 <= k <= num && r == ents + seq(k, _ => Unused)
    {
      r := r + [Unused];
      k := k + 1;
    }
  }

  /** Start a new sector if a name's entries would not fit in the current one; mod16 counts the entries so far. */
  method Mod16Test(ents: seq<Ent>, mod16: nat, longEntries: nat) returns (r: seq<Ent>, m: nat)
    requires mod16 == |ents|
    ensures var x := |ents| % ENTS_PER_SECT;
            var fill := if x + longEntries + 1 > ENTS_PER_SECT then ENTS_PER_SECT - x else 0;
            r == ents + seq(fill, _ => Unused) && m == |r| + longEntries
  {
    r, m := ents, mod16;
    var x := mod16 % ENTS_PER_SECT;
    if x + longEntries + 1 > ENTS_PER_SECT {
      x := ENTS_PER_SECT - x;
      r := FillUnused(ents, x);
      m := m + x;
    }
    m := m + longEntries;
  }

  /** Append the entries of one item; mod16 stays the entry count. */
  method AddItem(ents: seq<Ent>, mod16: nat, it: Item) returns (r: seq<Ent>, m: nat, idx: nat)
    requires mod16 == |ents|
    ensures r == ents + Group(|ents|, it) && m == |r| && idx == |r| - 1
  {
    r, m := ents, mod16;
    if |it.name| > SHORTNAME_LEN {
      var longs := CreateLongname(it.name, it.attrib);
      r, m := Mod16Test(r, m, |longs|);
      r := r + longs;
    }
    m := m + 1;
    idx := |r|;
    r := r + [ShortEnt(it)];
    assert r == ents + Group(|ents|, it);
  }

  /** The source rounds file sizes up in an int. */
  predicate SizeOk(f: File) {
    |f.data| + SECT_SIZE - 1 < 0x8000_0000
  }

  /**
    Trees the writer handles: no directory name needs more than 16 long
    entries, where the source would go on with an index it never set, and no
    file size overflows.
   */
  predicate Writable(d: Dir)
    decreases d
  {
    && (forall k :: 0 <= k < |d.subs| ==> LongCount(d.subs[k].name) <= ENTS_PER_SECT && Writable(d.subs[k]))
    && (forall k :: 0 <= k < |d.files| ==> SizeOk(d.files[k]))
  }

  /**
    Write a file's bytes and fill the last sector.  The filler is whatever
    follows a two-byte literal in memory: two zeros, then anything.  A size
    that is a multiple of the sector fills one whole sector past the file.
   */
  method WriteFile(img: ImageFile, f: File, sec: nat) returns (next: nat)
    requires SizeOk(f)
    modifies img
    ensures next == sec + FileSectors(f)
    ensures FileAt(img.bytes, sec, f)
    ensures Agree(old(img.bytes), img.bytes, 0, SECT_SIZE * sec)
  {
    var pos := SECT_SIZE * sec;
    if |f.data| > 0 {
      img.WriteAt(pos, f.data);
    }
    var rem := SECT_SIZE - |f.data| % SECT_SIZE;
    ghost var zeros: seq<byte> := seq(rem, _ => 0);
    assert zeros[0] == 0;
    var tail: seq<byte> :| |tail| == rem && tail[0] == 0 && (rem > 1 ==> tail[1] == 0);
    img.WriteAt(pos + |f.data|, tail);
    next := sec + FileSectors(f);
  }

  /** Slots for a list of entries exist; the writer's unset bytes make them one of many. */
  lemma {:induction false} TableExists(ents: seq<Ent>)
    requires forall i :: 0 <= i < |ents| ==> EntOk(ents[i])
    ensures exists t: seq<byte> :: |t| == ENT_SIZE * |ents| && TableAt(t, 0, ents)
    decreases |ents|
  {
    if ents == [] {
      var t: seq<byte> := [];
      assert |t| == ENT_SIZE * |ents| && TableAt(t, 0, ents);
    } else {
      var n := |ents| - 1;
      TableExists(ents[..n]);
      var t: seq<byte> :| |t| == ENT_SIZE * n && TableAt(t, 0, ents[..n]);
      SlotOfEncodes(ents[n]);
      TableAppend(t, ents[..n], SlotOf(ents[n]), ents[n]);
      assert ents[..n] + [ents[n]] == ents;
      var u := t + SlotOf(ents[n]);
      assert |u| == ENT_SIZE * |ents| && TableAt(u, 0, ents);
    }
  }

  lemma TableAppend(t: seq<byte>, ents: seq<Ent>, slot: seq<byte>, e: Ent)
    requires |t| == ENT_SIZE * |ents| && TableAt(t, 0, ents) && Encodes(slot, e)
    ensures TableAt(t + slot, 0, ents + [e])
  {
    var u := t + slot;
    forall i | 0 <= i < |ents| + 1
      ensures Encodes(u[0 + ENT_SIZE * i..0 + ENT_SIZE * i + ENT_SIZE], (ents + [e])[i])
    {
      if i < |ents| {
        assert u[ENT_SIZE * i..ENT_SIZE * i + ENT_SIZE] == t[ENT_SIZE * i..ENT_SIZE * i + ENT_SIZE];
        assert Encodes(t[0 + ENT_SIZE * i..0 + ENT_SIZE * i + ENT_SIZE], ents[i]);
      } else {
        assert u[ENT_SIZE * i..ENT_SIZE * i + ENT_SIZE] == slot;
      }
    }
  }

  /** `index` tells where the short entry of each item is. */
  ghost predicate Indexed(pre: seq<Ent>, items: seq<Item>, index: seq<nat>) {
    |index| == |items| && forall k :: 0 <= k < |items| ==> index[k] == IndexOf(pre, items, k)
  }

  /** Packing one item more. */
  lemma PackMore(pre: seq<Ent>, all: seq<Item>, k: nat)
    requires k < |all|
    ensures var ents := PackAll(pre, all[..k]);
            PackAll(pre, all[..k + 1]) == ents + Group(|ents|, all[k])
  {
    assert all[..k + 1][..k] == all[..k];
    PackStep(pre, all[..k + 1], PackAll(pre, all[..k]));
  }

  /** The indices of the first k items. */
  ghost predicate IndexedTo(pre: seq<Ent>, all: seq<Item>, index: seq<nat>, k: nat)
    requires k <= |all|
    decreases k
  {
    |index| == k && (k > 0 ==> index[k - 1] == IndexOf(pre, all, k - 1) && IndexedTo(pre, all, index[..k - 1], k - 1))
  }

  lemma {:induction false} IndexedAt(pre: seq<Ent>, all: seq<Item>, index: seq<nat>, k: nat, j: nat)
    requires j < k <= |all| && IndexedTo(pre, all, index, k)
    ensures index[j] == IndexOf(pre, all, j)
    decreases k
  {
    if j < k - 1 {
      IndexedAt(pre, all, index[..k - 1], k - 1, j);
    }
  }

  lemma IndexMore(pre: seq<Ent>, all: seq<Item>, index: seq<nat>, k: nat, idx: nat)
    requires k < |all| && IndexedTo(pre, all, index, k) && idx == |PackAll(pre, all[..k + 1])| - 1
    ensures IndexedTo(pre, all, index + [idx], k + 1)
  {
    assert (index + [idx])[..k] == index;
  }

  method AddNext(ents: seq<Ent>, mod16: nat, index: seq<nat>, all: seq<Item>, k: nat, ghost pre: seq<Ent>)
    returns (r: seq<Ent>, m: nat, index': seq<nat>)
    requires k < |all| && ents == PackAll(pre, all[..k]) && IndexedTo(pre, all, index, k) && mod16 == |ents|
    ensures r == PackAll(pre, all[..k + 1]) && IndexedTo(pre, all, index', k + 1) && m == |r|
  {
    var idx;
    r, m, idx := AddItem(ents, mod16, all[k]);
    PackMore(pre, all, k);
    IndexMore(pre, all, index, k, idx);
    index' := index + [idx];
  }

  /** Append the entries of the items from one place to another, remembering where each short entry goes. */
  method AddAll(ents: seq<Ent>, index: seq<nat>, all: seq<Item>, from: nat, to: nat, ghost pre: seq<Ent>)
    returns (r: seq<Ent>, index': seq<nat>)
    requires from <= to <= |all| && ents == PackAll(pre, all[..from]) && IndexedTo(pre, all, index, from)
    ensures r == PackAll(pre, all[..to]) && IndexedTo(pre, all, index', to)
  {
    r, index' := ents, index;
    var mod16, k := |ents|, from;
    while k < to
      invariant from <= k <= to && mod16 == |r|
      invariant r == PackAll(pre, all[..k]) && IndexedTo(pre, all, index', k)
    {
      r, mod16, index' := AddNext(r, mod16, index', all, k, pre);
      k := k + 1;
    }
  }

  /** The entries of some items, first the n that are directories and then the files. */
  method AddBoth(pre: seq<Ent>, all: seq<Item>, n: nat) returns (ents: seq<Ent>, index: seq<nat>)
    requires n <= |all|
    ensures ents == PackAll(pre, all) && Indexed(pre, all, index)
  {
    ents, index := AddAll(pre, [], all, 0, n, pre);
    ents, index := AddAll(ents, index, all, n, |all|, pre);
    assert all[..|all|] == all;
    AllIndexed(pre, all, index);
  }

  lemma Rejoined(index: seq<nat>, n: nat)
    requires n <= |index|
    ensures index[..n] + index[n..] == index
  {
  }

  /** The entries of some directories and some files, an end mark, and where the short entries are. */
  method CollectItems(pre: seq<Ent>, subs: seq<Item>, files: seq<Item>)
    returns (ents: seq<Ent>, subIndex: seq<nat>, fileIndex: seq<nat>)
    ensures ents == PackAll(pre, subs + files) + [Last] && |subIndex| == |subs| && |fileIndex| == |files|
    ensures Indexed(pre, subs + files, subIndex + fileIndex)
  {
    var index;
    ents, index := AddBoth(pre, subs + files, |subs|);
    ents := ents + [Last];
    Rejoined(index, |subs|);
    subIndex, fileIndex := index[..|subs|], index[|subs|..];
  }

  lemma AllIndexed(pre: seq<Ent>, all: seq<Item>, index: seq<nat>)
    requires IndexedTo(pre, all, index, |all|)
    ensures Indexed(pre, all, index)
  {
    forall j | 0 <= j < |all|
      ensures index[j] == IndexOf(pre, all, j)
    {
      IndexedAt(pre, all, index, |all|, j);
    }
  }

  /** Collect the entries of a directory: itself, its parent, its directories, its files, an end mark. */
  method CollectEntries(d: Dir, sec: nat, parent: nat) returns (ents: seq<Ent>, subIndex: seq<nat>, fileIndex: seq<nat>)
    ensures ents == PackAll(Preamble(sec, parent), Unplaced(d)) + [Last]
    ensures |subIndex| == |d.subs| && |fileIndex| == |d.files|
    ensures Indexed(Preamble(sec, parent), Unplaced(d), subIndex + fileIndex)
  {
    ents, subIndex, fileIndex := CollectItems(Preamble(sec, parent), UnplacedSubs(d), UnplacedFiles(d));
  }

  /** Two lists of the same items, apart from their sectors. */
  ghost predicate SameButSectors(a: seq<Item>, b: seq<Item>) {
    |a| == |b| && forall k {:trigger a[k]} :: 0 <= k < |a| ==> a[k] == b[k].(sector := a[k].sector)
  }

  /** The first k items taken from `placed`, the rest from `unplaced`. */
  function Mixed(placed: seq<Item>, unplaced: seq<Item>, k: nat): (items: seq<Item>)
    requires |placed| == |unplaced| && k <= |placed|
    ensures |items| == |placed|
  {
    placed[..k] + unplaced[k..]
  }

  lemma PlacementDiffersInSectors(d: Dir, sec: nat)
    ensures SameButSectors(Items(d, sec), Unplaced(d))
  {
  }

  /** Giving item k its sector in a table where the first k are placed. */
  lemma PlaceNext(pre: seq<Ent>, placed: seq<Item>, unplaced: seq<Item>, index: seq<nat>, k: nat)
    requires SameButSectors(placed, unplaced) && k < |placed| && Indexed(pre, unplaced, index)
    ensures var ents := PackAll(pre, Mixed(placed, unplaced, k));
            && index[k] < |ents| && ents[index[k]].Short?
            && PackAll(pre, Mixed(placed, unplaced, k + 1)) ==
               ents[index[k] := ents[index[k]].(cluster := Cluster(placed[k].sector))]
  {
    var items := Mixed(placed, unplaced, k);
    assert items[k] == unplaced[k] && items[k := placed[k]] == Mixed(placed, unplaced, k + 1);
    IndexStable(pre, placed, unplaced, k);
    PlaceOne(pre, items, k, placed[k].sector);
    assert items[k].(sector := placed[k].sector) == placed[k];
  }

  lemma IndexStable(pre: seq<Ent>, placed: seq<Item>, unplaced: seq<Item>, k: nat)
    requires SameButSectors(placed, unplaced) && k < |placed|
    ensures IndexOf(pre, Mixed(placed, unplaced, k), k) == IndexOf(pre, unplaced, k)
  {
    var a, b := Mixed(placed, unplaced, k)[..k + 1], unplaced[..k + 1];
    forall j | 0 <= j < |a|
      ensures a[j].name == b[j].name
    {
      assert a[j] == if j < k then placed[j] else unplaced[j];
    }
    PackLen(pre, a);
    PackLen(pre, b);
    LenBySameNames(|pre|, a, b);
  }

  lemma {:induction false} PackAllOk(pre: seq<Ent>, items: seq<Item>)
    requires forall i :: 0 <= i < |pre| ==> EntOk(pre[i])
    requires forall k :: 0 <= k < |items| ==> items[k].size < 0x1_0000_0000
    ensures forall i :: 0 <= i < |PackAll(pre, items)| ==> EntOk(PackAll(pre, items)[i])
    decreases |items|
  {
    if items == [] {
    } else {
      var n := |items| - 1;
      PackAllOk(pre, items[..n]);
      GroupOk(|PackAll(pre, items[..n])|, items[n]);
    }
  }

  lemma GroupOk(len: nat, it: Item)
    requires it.size < 0x1_0000_0000
    ensures forall i :: 0 <= i < |Group(len, it)| ==> EntOk(Group(len, it)[i])
  {
    var fill, longs := Fill(len, it.name), LongEnts(it.name, it.attrib);
    forall i | 0 <= i < |Group(len, it)|
      ensures EntOk(Group(len, it)[i])
    {
      if fill <= i < fill + |longs| {
        assert Group(len, it)[i] == longs[i - fill];
      }
    }
  }

  lemma EntriesOk(d: Dir, sec: nat, parent: nat)
    requires Writable(d)
    ensures forall i :: 0 <= i < |Entries(d, sec, parent)| ==> EntOk(Entries(d, sec, parent)[i])
  {
    forall k | 0 <= k < |Items(d, sec)|
      ensures Items(d, sec)[k].size < 0x1_0000_0000
    {
      if k >= |d.subs| {
        assert SizeOk(d.files[k - |d.subs|]);
      }
    }
    PackAllOk(Preamble(sec, parent), Items(d, sec));
  }

  // ---- things written one after the other ----

  /** Sectors of directories that adjoin. */
  ghost predicate SubRun(ds: seq<Dir>, secs: seq<nat>) {
    |secs| == |ds| + 1 && forall j {:trigger ds[j]} :: 0 <= j < |ds| ==> secs[j + 1] == secs[j] + Span(ds[j])
  }

  /** Sectors of files that adjoin. */
  ghost predicate FileRun(fs: seq<File>, secs: seq<nat>) {
    |secs| == |fs| + 1 && forall j {:trigger fs[j]} :: 0 <= j < |fs| ==> secs[j + 1] == secs[j] + FileSectors(fs[j])
  }

  /** The first k directories are in the image at these sectors. */
  ghost predicate SubsHeld(mem: seq<byte>, ds: seq<Dir>, secs: seq<nat>, parent: nat, k: nat)
    requires k <= |ds| && |secs| == |ds| + 1
  {
    forall j {:trigger ds[j]} :: 0 <= j < k ==> Holds(mem, ds[j], secs[j], parent)
  }

  /** The first k files are in the image at these sectors. */
  ghost predicate FilesHeld(mem: seq<byte>, fs: seq<File>, secs: seq<nat>, k: nat)
    requires k <= |fs| && |secs| == |fs| + 1
  {
    forall j {:trigger fs[j]} :: 0 <= j < k ==> FileAt(mem, secs[j], fs[j])
  }

  lemma {:induction false} SubRunOrder(ds: seq<Dir>, secs: seq<nat>, j: nat, k: nat)
    requires SubRun(ds, secs) && j <= k <= |ds|
    ensures secs[j] <= secs[k] && (j < k ==> secs[j] + Span(ds[j]) <= secs[k])
    decreases k
  {
    if j < k {
      SubRunOrder(ds, secs, j, k - 1);
      assert secs[(k - 1) + 1] == secs[k - 1] + Span(ds[k - 1]);
    }
  }

  lemma {:induction false} FileRunOrder(fs: seq<File>, secs: seq<nat>, j: nat, k: nat)
    requires FileRun(fs, secs) && j <= k <= |fs|
    ensures secs[j] <= secs[k] && (j < k ==> secs[j] + FileSectors(fs[j]) <= secs[k])
    decreases k
  {
    if j < k {
      FileRunOrder(fs, secs, j, k - 1);
      assert secs[(k - 1) + 1] == secs[k - 1] + FileSectors(fs[k - 1]);
    }
  }

  lemma SubsKept(a: seq<byte>, b: seq<byte>, ds: seq<Dir>, secs: seq<nat>, parent: nat, k: nat, lo: nat, hi: nat)
    requires SubRun(ds, secs) && k <= |ds| && SubsHeld(a, ds, secs, parent, k) && Agree(a, b, lo, hi)
    requires lo <= SECT_SIZE * secs[0] && SECT_SIZE * secs[k] <= hi
    ensures SubsHeld(b, ds, secs, parent, k)
  {
    forall j | 0 <= j < k
      ensures Holds(b, ds[j], secs[j], parent)
    {
      SubRunOrder(ds, secs, 0, j);
      SubRunOrder(ds, secs, j, k);
      HoldsKept(a, b, ds[j], secs[j], parent, lo, hi);
    }
  }

  lemma NextSubHeld(a: seq<byte>, b: seq<byte>, ds: seq<Dir>, secs: seq<nat>, parent: nat, k: nat)
    requires SubRun(ds, secs) && k < |ds| && SubsHeld(a, ds, secs, parent, k)
    requires Agree(a, b, 0, SECT_SIZE * secs[k]) && Holds(b, ds[k], secs[k], parent)
    ensures SubsHeld(b, ds, secs, parent, k + 1) && secs[k + 1] == secs[k] + Span(ds[k])
  {
    forall j | 0 <= j < k + 1
      ensures Holds(b, ds[j], secs[j], parent)
    {
      if j < k {
        SubRunOrder(ds, secs, j, k);
        HoldsKept(a, b, ds[j], secs[j], parent, 0, SECT_SIZE * secs[k]);
      }
    }
  }

  lemma FilesKept(a: seq<byte>, b: seq<byte>, fs: seq<File>, secs: seq<nat>, k: nat, lo: nat, hi: nat)
    requires FileRun(fs, secs) && k <= |fs| && FilesHeld(a, fs, secs, k) && Agree(a, b, lo, hi)
    requires lo <= SECT_SIZE * secs[0] && SECT_SIZE * secs[k] <= hi
    ensures FilesHeld(b, fs, secs, k)
  {
    forall j | 0 <= j < k
      ensures FileAt(b, secs[j], fs[j])
    {
      FileRunOrder(fs, secs, 0, j);
      FileRunOrder(fs, secs, j, k);
      FileKept(a, b, secs[j], fs[j], lo, hi);
    }
  }

  /** The sectors of the directories of d. */
  lemma SubRunOf(d: Dir, sec: nat) returns (subs: seq<nat>)
    ensures SubRun(d.subs, subs)
    ensures forall k {:trigger subs[k]} :: 0 <= k <= |d.subs| ==> subs[k] == SubSector(d, sec, k)
  {
    subs := seq(|d.subs| + 1, k requires 0 <= k <= |d.subs| => SubSector(d, sec, k));
    forall k | 0 <= k < |d.subs|
      ensures subs[k + 1] == subs[k] + Span(d.subs[k])
    {
      assert d.subs[..k + 1][..k] == d.subs[..k];
    }
  }

  /** The sectors of the files of d. */
  lemma FileRunOf(d: Dir, sec: nat) returns (files: seq<nat>)
    ensures FileRun(d.files, files)
    ensures forall k {:trigger files[k]} :: 0 <= k <= |d.files| ==> files[k] == FileSector(d, sec, k)
  {
    files := seq(|d.files| + 1, k requires 0 <= k <= |d.files| => FileSector(d, sec, k));
    forall k | 0 <= k < |d.files|
      ensures files[k + 1] == files[k] + FileSectors(d.files[k])
    {
      assert d.files[..k + 1][..k] == d.files[..k];
    }
  }

  /** The sectors of everything directly in d, a directory at `sec`. */
  ghost predicate Runs(d: Dir, sec: nat, subs: seq<nat>, files: seq<nat>) {
    && SubRun(d.subs, subs) && FileRun(d.files, files)
    && subs[0] == sec + DirSectors(d) && subs[|d.subs|] == files[0] && files[|d.files|] == sec + Span(d)
    && (forall k {:trigger subs[k]} :: 0 <= k <= |d.subs| ==> subs[k] == SubSector(d, sec, k))
    && (forall k {:trigger files[k]} :: 0 <= k <= |d.files| ==> files[k] == FileSector(d, sec, k))
  }

  lemma MakeRuns(d: Dir, sec: nat) returns (subs: seq<nat>, files: seq<nat>)
    ensures Runs(d, sec, subs, files)
  {
    subs := SubRunOf(d, sec);
    files := FileRunOf(d, sec);
    assert d.subs[..|d.subs|] == d.subs && d.files[..|d.files|] == d.files;
  }

  /** Write a directory's slots; bytes the writer leaves unset come out as anything. */
  method WriteTable(img: ImageFile, ents: seq<Ent>, sec: nat, ghost hi: nat)
    requires ents != [] && forall i :: 0 <= i < |ents| ==> EntOk(ents[i])
    modifies img
    ensures TableAt(img.bytes, SECT_SIZE * sec, ents)
    ensures Agree(old(img.bytes), img.bytes, 0, SECT_SIZE * sec)
    ensures Agree(old(img.bytes), img.bytes, SECT_SIZE * sec + ENT_SIZE * |ents|, hi)
  {
    TableExists(ents);
    var table: seq<byte> :| |table| == ENT_SIZE * |ents| && TableAt(table, 0, ents);
    img.WriteAt(SECT_SIZE * sec, table);
    forall i | 0 <= i < |ents|
      ensures Encodes(img.bytes[SECT_SIZE * sec + ENT_SIZE * i..SECT_SIZE * sec + ENT_SIZE * i + ENT_SIZE], ents[i])
    {
      assert img.bytes[SECT_SIZE * sec + ENT_SIZE * i..SECT_SIZE * sec + ENT_SIZE * i + ENT_SIZE] ==
             table[0 + ENT_SIZE * i..0 + ENT_SIZE * i + ENT_SIZE];
    }
  }

  /** Note a sector in the short entry at an index. */
  function PutCluster(ents: seq<Ent>, at: nat, sector: nat): seq<Ent>
    requires at < |ents| && ents[at].Short?
  {
    ents[at := ents[at].(cluster := Cluster(sector))]
  }

  /** Tables in which one item after the other is given its sector. */
  ghost predicate Steps(tables: seq<seq<Ent>>, index: seq<nat>, sectors: seq<nat>) {
    && |tables| == |index| + 1 && |sectors| >= |index|
    && forall i {:trigger index[i]} :: 0 <= i < |index| ==> StepAt(tables, index, sectors, i)
  }

  ghost predicate StepAt(tables: seq<seq<Ent>>, index: seq<nat>, sectors: seq<nat>, i: nat)
    requires |tables| == |index| + 1 && |sectors| >= |index| > i
  {
    && index[i] < |tables[i]| && tables[i][index[i]].Short?
    && tables[i + 1] == PutCluster(tables[i], index[i], sectors[i])
  }

  /** The table of a directory with the first k items placed. */
  ghost function TableUpTo(d: Dir, sec: nat, parent: nat, k: nat): seq<Ent>
    requires k <= |d.subs| + |d.files|
  {
    PackAll(Preamble(sec, parent), Mixed(Items(d, sec), Unplaced(d), k)) + [Last]
  }

  lemma TableStep(d: Dir, sec: nat, parent: nat, index: seq<nat>, k: nat, sector: nat, t0: seq<Ent>, t1: seq<Ent>)
    requires k < |d.subs| + |d.files| && Indexed(Preamble(sec, parent), Unplaced(d), index)
    requires sector == Items(d, sec)[k].sector
    requires t0 == TableUpTo(d, sec, parent, k) && t1 == TableUpTo(d, sec, parent, k + 1)
    ensures index[k] < |t0| && t0[index[k]].Short? && t1 == PutCluster(t0, index[k], sector)
  {
    PlacementDiffersInSectors(d, sec);
    PlaceNext(Preamble(sec, parent), Items(d, sec), Unplaced(d), index, k);
  }

  ghost predicate TablesFrom(tables: seq<seq<Ent>>, d: Dir, sec: nat, parent: nat, first: nat) {
    && first + |tables| <= |d.subs| + |d.files| + 1
    && forall i {:trigger tables[i]} :: 0 <= i < |tables| ==> tables[i] == TableUpTo(d, sec, parent, first + i)
  }

  ghost predicate SectorsFrom(sectors: seq<nat>, d: Dir, sec: nat, first: nat, n: nat) {
    && n <= |sectors| && first + n <= |d.subs| + |d.files|
    && forall i {:trigger sectors[i]} :: 0 <= i < n ==> sectors[i] == Items(d, sec)[first + i].sector
  }

  lemma MakeTablesFrom(d: Dir, sec: nat, parent: nat, first: nat, n: nat) returns (tables: seq<seq<Ent>>)
    requires first + n <= |d.subs| + |d.files|
    ensures |tables| == n + 1 && TablesFrom(tables, d, sec, parent, first)
  {
    tables := seq(n + 1, i requires 0 <= i <= n => TableUpTo(d, sec, parent, first + i));
  }

  /** The tables from item `first` on, while a run of items is written. */
  lemma MakeSteps(d: Dir, sec: nat, parent: nat, index: seq<nat>, first: nat, part: seq<nat>, sectors: seq<nat>)
    returns (tables: seq<seq<Ent>>)
    requires Indexed(Preamble(sec, parent), Unplaced(d), index)
    requires first + |part| <= |index| && part == index[first..first + |part|]
    requires SectorsFrom(sectors, d, sec, first, |part|)
    ensures Steps(tables, part, sectors) && TablesFrom(tables, d, sec, parent, first)
  {
    tables := MakeTablesFrom(d, sec, parent, first, |part|);
    forall i | 0 <= i < |part|
      ensures StepAt(tables, part, sectors, i)
    {
      MakeStep(d, sec, parent, index, first, part, sectors[i], tables, i);
    }
  }

  lemma MakeStep(d: Dir, sec: nat, parent: nat, index: seq<nat>, first: nat, part: seq<nat>, sector: nat,
                 tables: seq<seq<Ent>>, i: nat)
    requires Indexed(Preamble(sec, parent), Unplaced(d), index)
    requires i < |part| && first + |part| <= |index| && part == index[first..first + |part|]
    requires |tables| == |part| + 1 && TablesFrom(tables, d, sec, parent, first)
    requires sector == Items(d, sec)[first + i].sector
    ensures part[i] < |tables[i]| && tables[i][part[i]].Short?
    ensures tables[i + 1] == PutCluster(tables[i], part[i], sector)
  {
    assert part[i] == index[first + i];
    TableStep(d, sec, parent, index, first + i, sector, tables[i], tables[i + 1]);
  }

  lemma TableEnds(d: Dir, sec: nat, parent: nat, early: seq<seq<Ent>>, late: seq<seq<Ent>>)
    requires |early| == |d.subs| + 1 && TablesFrom(early, d, sec, parent, 0)
    requires |late| == |d.files| + 1 && TablesFrom(late, d, sec, parent, |d.subs|)
    ensures early[0] == PackAll(Preamble(sec, parent), Unplaced(d)) + [Last]
    ensures early[|d.subs|] == late[0] && late[|d.files|] == Entries(d, sec, parent)
  {
    assert Mixed(Items(d, sec), Unplaced(d), |d.subs| + |d.files|) == Items(d, sec);
    assert Mixed(Items(d, sec), Unplaced(d), 0) == Unplaced(d);
  }

  lemma SectorsOfSubs(d: Dir, sec: nat, subs: seq<nat>, files: seq<nat>)
    requires Runs(d, sec, subs, files)
    ensures SectorsFrom(subs, d, sec, 0, |d.subs|)
  {
    forall i {:trigger subs[i]} | 0 <= i < |d.subs|
      ensures subs[i] == Items(d, sec)[0 + i].sector
    {
      SubItemSector(d, sec, i);
    }
  }

  lemma SectorsOfFiles(d: Dir, sec: nat, subs: seq<nat>, files: seq<nat>)
    requires Runs(d, sec, subs, files)
    ensures SectorsFrom(files, d, sec, |d.subs|, |d.files|)
  {
    forall i {:trigger files[i]} | 0 <= i < |d.files|
      ensures files[i] == Items(d, sec)[|d.subs| + i].sector
    {
      FileItemSector(d, sec, i);
    }
  }

  lemma SubItemSector(d: Dir, sec: nat, i: nat)
    requires i < |d.subs|
    ensures Items(d, sec)[i].sector == SubSector(d, sec, i)
  {
    assert Items(d, sec)[i] == SubItems(d, sec)[i];
  }

  lemma FileItemSector(d: Dir, sec: nat, i: nat)
    requires i < |d.files|
    ensures Items(d, sec)[|d.subs| + i].sector == FileSector(d, sec, i)
  {
    assert Items(d, sec)[|d.subs| + i] == FileItems(d, sec)[i];
  }

  lemma SplitParts(a: seq<nat>, b: seq<nat>)
    ensures a == (a + b)[0..0 + |a|] && b == (a + b)[|a|..|a| + |b|]
  {
  }

  lemma EarlyTables(d: Dir, sec: nat, parent: nat, subIndex: seq<nat>, fileIndex: seq<nat>, subs: seq<nat>)
    returns (early: seq<seq<Ent>>)
    requires |subIndex| == |d.subs| && Indexed(Preamble(sec, parent), Unplaced(d), subIndex + fileIndex)
    requires SectorsFrom(subs, d, sec, 0, |d.subs|)
    ensures Steps(early, subIndex, subs) && TablesFrom(early, d, sec, parent, 0)
  {
    SplitParts(subIndex, fileIndex);
    early := MakeSteps(d, sec, parent, subIndex + fileIndex, 0, subIndex, subs);
  }

  lemma LateTables(d: Dir, sec: nat, parent: nat, subIndex: seq<nat>, fileIndex: seq<nat>, files: seq<nat>)
    returns (late: seq<seq<Ent>>)
    requires |subIndex| == |d.subs| && Indexed(Preamble(sec, parent), Unplaced(d), subIndex + fileIndex)
    requires SectorsFrom(files, d, sec, |d.subs|, |d.files|)
    ensures Steps(late, fileIndex, files) && TablesFrom(late, d, sec, parent, |d.subs|)
  {
    SplitParts(subIndex, fileIndex);
    late := MakeSteps(d, sec, parent, subIndex + fileIndex, |d.subs|, fileIndex, files);
  }

  /** The entries of d, where its items are among them, and the tables while directories and then files are placed. */
  ghost predicate Planned(d: Dir, sec: nat, ents: seq<Ent>, subIndex: seq<nat>, fileIndex: seq<nat>,
                          early: seq<seq<Ent>>, late: seq<seq<Ent>>, subs: seq<nat>, files: seq<nat>)
  {
    && |subIndex| == |d.subs| && |fileIndex| == |d.files| && Runs(d, sec, subs, files)
    && Steps(early, subIndex, subs) && Steps(late, fileIndex, files)
    && ents == early[0] && early[|d.subs|] == late[0]
  }

  lemma MakePlan(d: Dir, sec: nat, parent: nat, ents: seq<Ent>, subIndex: seq<nat>, fileIndex: seq<nat>)
    returns (early: seq<seq<Ent>>, late: seq<seq<Ent>>, subs: seq<nat>, files: seq<nat>)
    requires |subIndex| == |d.subs| && |fileIndex| == |d.files|
    requires ents == PackAll(Preamble(sec, parent), Unplaced(d)) + [Last]
    requires Indexed(Preamble(sec, parent), Unplaced(d), subIndex + fileIndex)
    ensures Planned(d, sec, ents, subIndex, fileIndex, early, late, subs, files)
    ensures late[|d.files|] == Entries(d, sec, parent)
  {
    subs, files := MakeRuns(d, sec);
    SectorsOfSubs(d, sec, subs, files);
    SectorsOfFiles(d, sec, subs, files);
    early := EarlyTables(d, sec, parent, subIndex, fileIndex, subs);
    late := LateTables(d, sec, parent, subIndex, fileIndex, files);
    TableEnds(d, sec, parent, early, late);
  }

  /** The entries collected, and how many sectors they take. */
  method Plan(d: Dir, sec: nat, parent: nat)
    returns (ents: seq<Ent>, subIndex: seq<nat>, fileIndex: seq<nat>, ssize: nat, ghost early: seq<seq<Ent>>,
             ghost late: seq<seq<Ent>>, ghost subs: seq<nat>, ghost files: seq<nat>)
    ensures Planned(d, sec, ents, subIndex, fileIndex, early, late, subs, files) && ssize == DirSectors(d)
    ensures late[|d.files|] == Entries(d, sec, parent)
  {
    ents, subIndex, fileIndex := CollectEntries(d, sec, parent);
    early, late, subs, files := MakePlan(d, sec, parent, ents, subIndex, fileIndex);
    ssize := |ents| / ENTS_PER_SECT + (if |ents| % ENTS_PER_SECT != 0 then 1 else 0);
    SectorsNeeded(d, sec, parent, |ents|);
  }

  /** Write directories one after the other, noting each one's place in the parent's table. */
  method WriteSubs(img: ImageFile, ds: seq<Dir>, sec: nat, ents: seq<Ent>, index: seq<nat>, from: nat,
                   ghost tables: seq<seq<Ent>>, ghost secs: seq<nat>)
    returns (r: seq<Ent>, next: nat)
    requires forall k :: 0 <= k < |ds| ==> Writable(ds[k])
    requires |index| == |ds| && Steps(tables, index, secs) && SubRun(ds, secs)
    requires ents == tables[0] && from == secs[0]
    modifies img
    ensures r == tables[|ds|] && next == secs[|ds|]
    ensures SubsHeld(img.bytes, ds, secs, sec, |ds|)
    ensures Agree(old(img.bytes), img.bytes, 0, SECT_SIZE * from)
    decreases ds, 0
  {
    r, next := ents, from;
    var k := 0;
    while k < |ds|
      invariant 0 <= k <= |ds| && r == tables[k] && next == secs[k] >= from
      invariant SubsHeld(img.bytes, ds, secs, sec, k)
      invariant Agree(old(img.bytes), img.bytes, 0, SECT_SIZE * from)
    {
      r := PutCluster(r, index[k], next);
      ghost var before := img.bytes;
      next := WriteDir(img, ds[k], next, sec);
      NextSubHeld(before, img.bytes, ds, secs, sec, k);
      k := k + 1;
    }
  }

  /** Write files one after the other, noting each one's place in the parent's table. */
  method WriteFiles(img: ImageFile, fs: seq<File>, ents: seq<Ent>, index: seq<nat>, from: nat,
                    ghost tables: seq<seq<Ent>>, ghost secs: seq<nat>)
    returns (r: seq<Ent>, next: nat)
    requires forall k :: 0 <= k < |fs| ==> SizeOk(fs[k])
    requires |index| == |fs| && Steps(tables, index, secs) && FileRun(fs, secs)
    requires ents == tables[0] && from == secs[0]
    modifies img
    ensures r == tables[|fs|] && next == secs[|fs|]
    ensures FilesHeld(img.bytes, fs, secs, |fs|)
    ensures Agree(old(img.bytes), img.bytes, 0, SECT_SIZE * from)
  {
    r, next := ents, from;
    var k := 0;
    while k < |fs|
      invariant 0 <= k <= |fs| && r == tables[k] && next == secs[k] >= from
      invariant FilesHeld(img.bytes, fs, secs, k)
      invariant Agree(old(img.bytes), img.bytes, 0, SECT_SIZE * from)
    {
      r := PutCluster(r, index[k], next);
      ghost var before := img.bytes;
      next := WriteFile(img, fs[k], next);
      FilesKept(before, img.bytes, fs, secs, k, 0, SECT_SIZE * secs[k]);
      k := k + 1;
    }
  }

  /**
    Write a directory and everything below it: collect its entries, then write
    its directories and files one after the other, noting each one's place in
    the entries, and last the entries themselves.
   */
  method WriteDir(img: ImageFile, d: Dir, sec: nat, parent: nat) returns (next: nat)
    requires Writable(d)
    modifies img
    ensures next == sec + Span(d)
    ensures Holds(img.bytes, d, sec, parent)
    ensures Agree(old(img.bytes), img.bytes, 0, SECT_SIZE * sec)
    decreases d, 1
  {
    var ents, subIndex, fileIndex, ssize;
    ghost var early, late, subs, files;
    ents, subIndex, fileIndex, ssize, early, late, subs, files := Plan(d, sec, parent);
    ents, next := WriteBelow(img, d, sec, ents, subIndex, fileIndex, sec + ssize, early, late, subs, files);
    WriteOwnTable(img, d, ents, sec, parent, subs, files);
  }

  lemma SectorsNeeded(d: Dir, sec: nat, parent: nat, n: nat)
    requires n == |PackAll(Preamble(sec, parent), Unplaced(d))| + 1
    ensures n / ENTS_PER_SECT + (if n % ENTS_PER_SECT != 0 then 1 else 0) == DirSectors(d)
  {
    PackLen(Preamble(sec, parent), Unplaced(d));
  }

  /** The directories of d, then its files. */
  method WriteBelow(img: ImageFile, d: Dir, sec: nat, ents: seq<Ent>, subIndex: seq<nat>,
                    fileIndex: seq<nat>, from: nat, ghost early: seq<seq<Ent>>, ghost late: seq<seq<Ent>>,
                    ghost subs: seq<nat>, ghost files: seq<nat>)
    returns (r: seq<Ent>, next: nat)
    requires Writable(d) && Planned(d, sec, ents, subIndex, fileIndex, early, late, subs, files) && from == subs[0]
    modifies img
    ensures r == late[|d.files|] && next == sec + Span(d)
    ensures SubsHeld(img.bytes, d.subs, subs, sec, |d.subs|) && FilesHeld(img.bytes, d.files, files, |d.files|)
    ensures Agree(old(img.bytes), img.bytes, 0, SECT_SIZE * from)
    decreases d, 0
  {
    r, next := WriteSubs(img, d.subs, sec, ents, subIndex, from, early, subs);
    ghost var before := img.bytes;
    r, next := WriteFiles(img, d.files, r, fileIndex, next, late, files);
    SubsKept(before, img.bytes, d.subs, subs, sec, |d.subs|, 0, SECT_SIZE * files[0]);
    SubRunOrder(d.subs, subs, 0, |d.subs|);
    AgreeBoth(old(img.bytes), before, img.bytes, SECT_SIZE * from, SECT_SIZE * files[0]);
  }

  lemma AgreeBoth(a: seq<byte>, b: seq<byte>, c: seq<byte>, lo: nat, hi: nat)
    requires Agree(a, b, 0, lo) && Agree(b, c, 0, hi) && lo <= hi
    ensures Agree(a, c, 0, lo)
  {
  }

  /** Last, the directory's own entries, in the sectors left for them. */
  method WriteOwnTable(img: ImageFile, ghost d: Dir, ents: seq<Ent>, sec: nat, ghost parent: nat,
                       ghost subs: seq<nat>, ghost files: seq<nat>)
    requires Writable(d) && ents == Entries(d, sec, parent)
    requires Runs(d, sec, subs, files)
    requires SubsHeld(img.bytes, d.subs, subs, sec, |d.subs|) && FilesHeld(img.bytes, d.files, files, |d.files|)
    modifies img
    ensures Holds(img.bytes, d, sec, parent)
    ensures Agree(old(img.bytes), img.bytes, 0, SECT_SIZE * sec)
  {
    EntriesOk(d, sec, parent);
    EntryCount(d, sec, parent);
    ghost var before, lo := img.bytes, SECT_SIZE * sec + ENT_SIZE * |ents|;
    ghost var hi := SECT_SIZE * (subs[|d.subs|] + files[|d.files|]);
    WriteTable(img, ents, sec, hi);
    SubsKept(before, img.bytes, d.subs, subs, sec, |d.subs|, lo, hi);
    FilesKept(before, img.bytes, d.files, files, |d.files|, lo, hi);
  }
}
