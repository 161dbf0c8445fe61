/**
  Where diskimagebuild/writer.cpp puts things: the entries of each directory,
  the sectors of each directory and file, and when an image holds a tree.
  Positions are counted in sectors.
 */
module FatLayout {
  import opened Bytes
  import opened FatEntries

  datatype File = File(name: name, data: seq<byte>)

  datatype Dir = Dir(name: name, subs: seq<Dir>, files: seq<File>)

  // ---- names ----

  /** Long entries a name needs; names of up to 11 bytes need none. */
  function LongCount(n: name): nat {
    if |n| > SHORTNAME_LEN then (|n| + LONG_CHARS_PER_ENTRY - 1) / LONG_CHARS_PER_ENTRY else 0
  }

  /** A signed char stored in 16 bits. */
  function Wide(b: byte): nat {
    if b < 128 then b else 0xFF00 + b
  }

  /** Character j of the c-th piece of a long name, zero past the name's end. */
  function LongChar(n: name, c: nat, j: nat): (x: nat)
    ensures x < 0x1_0000
  {
    if 13 * c + j < |n| then Wide(n[13 * c + j]) else 0
  }

  function LongChunk(n: name, c: nat): (chars: seq<nat>)
    ensures |chars| == LONG_CHARS_PER_ENTRY
    ensures forall j {:trigger chars[j]} :: 0 <= j < |chars| ==> chars[j] == LongChar(n, c, j)
  {
    seq(LONG_CHARS_PER_ENTRY, j requires 0 <= j < LONG_CHARS_PER_ENTRY => LongChar(n, c, j))
  }

  /** An index byte with the last-entry bit set. */
  function MarkLast(i: nat): byte {
    var b := i % 256;
    if 64 <= b < 128 || b >= 192 then b else b + 64
  }

  /** The entry for the c-th piece; pieces are numbered from one on disk and the final one is marked. */
  function LongEnt(n: name, attrib: byte, c: nat): (e: Ent)
    ensures EntOk(e)
  {
    Long(if c + 1 == LongCount(n) then MarkLast(c + 1) else (c + 1) % 256, attrib - attrib % 16 + 15, LongChunk(n, c))
  }

  /** All long entries of a name, the final piece first. */
  function LongEnts(n: name, attrib: byte): (longs: seq<Ent>)
    ensures |longs| == LongCount(n)
    ensures forall t {:trigger longs[t]} :: 0 <= t < |longs| ==> longs[t] == LongEnt(n, attrib, LongCount(n) - 1 - t)
  {
    seq(LongCount(n), t requires 0 <= t < LongCount(n) => LongEnt(n, attrib, LongCount(n) - 1 - t))
  }

  /**
    The long entries on disk: there are as many as pieces of 13 characters,
    their numbers count down to one, only the first has the last mark, and in
    the order of their numbers their characters are the name, each in the low
    byte and its sign in the high one, filled up with zeros.
   */
  lemma LongEntries(n: name, attrib: byte, t: nat, j: nat)
    requires |n| > 11 && LongCount(n) < 64 && t < LongCount(n) && j < 13
    ensures var longs := LongEnts(n, attrib);
            && |n| <= 13 * |longs| < |n| + 13
            && longs[t].Long? && longs[t].index == |longs| - t + (if t == 0 then 64 else 0)
            && longs[t].attrib / 16 == attrib / 16 && longs[t].attrib % 16 == 15 && |longs[t].chars| == 13
    ensures var longs := LongEnts(n, attrib);
            var c, at := longs[t].chars[j], 13 * (|longs| - t - 1) + j;
            if at < |n| then c % 256 == n[at] && c / 256 == (if n[at] >= 0x80 then 0xFF else 0) else c == 0
  {
    var longs := LongEnts(n, attrib);
    assert longs[t] == LongEnt(n, attrib, LongCount(n) - 1 - t);
    assert longs[t].chars[j] == LongChar(n, LongCount(n) - 1 - t, j);
  }

  /** The first 11 bytes of a name, filled up with spaces. */
  function ShortName(n: name): (s: name)
    ensures |s| == SHORTNAME_LEN
  {
    if |n| >= SHORTNAME_LEN then n[..SHORTNAME_LEN] else n + seq(SHORTNAME_LEN - |n|, _ => SPACE)
  }

  // ---- packing entries ----

  /** The cluster number stored for a sector. */
  function Cluster(sector: nat): (c: nat)
    ensures c < 0x1_0000_0000
  {
    (if sector >= 1 then sector - 1 else 0) % 0x1_0000_0000
  }

  /** What a directory lists: a name, its attribute and size, and the sector it starts at (one while not yet placed). */
  datatype Item = Item(name: name, attrib: byte, size: nat, sector: nat)

  function ShortEnt(it: Item): (e: Ent)
    ensures it.size < 0x1_0000_0000 ==> EntOk(e)
  {
    Short(ShortName(it.name), it.attrib, Cluster(it.sector), it.size)
  }

  /** Unused entries put before a name so that its entries stay in one sector. */
  function Fill(len: nat, n: name): nat {
    if |n| > SHORTNAME_LEN && len % ENTS_PER_SECT + LongCount(n) + 1 > ENTS_PER_SECT
    then ENTS_PER_SECT - len % ENTS_PER_SECT else 0
  }

  /** Entries added for one item to a directory of len entries. */
  function Group(len: nat, it: Item): (g: seq<Ent>)
    ensures |g| >= 1 && g[|g| - 1] == ShortEnt(it)
  {
    seq(Fill(len, it.name), _ => Unused) + LongEnts(it.name, it.attrib) + [ShortEnt(it)]
  }

  function PackAll(pre: seq<Ent>, items: seq<Item>): (ents: seq<Ent>)
    ensures |ents| >= |pre| + |items|
  {
    if items == [] then pre
    else
      var ents := PackAll(pre, items[..|items| - 1]);
      ents + Group(|ents|, items[|items| - 1])
  }

  /** Entry count after packing some items. */
  function LenAfter(len: nat, items: seq<Item>): (r: nat) {
    if items == [] then len
    else
      var l := LenAfter(len, items[..|items| - 1]);
      var n := items[|items| - 1].name;
      l + Fill(l, n) + LongCount(n) + 1
  }

  lemma {:induction false} PackLen(pre: seq<Ent>, items: seq<Item>)
    ensures |PackAll(pre, items)| == LenAfter(|pre|, items)
    decreases |items|
  {
    if items == [] {
    } else {
      PackLen(pre, items[..|items| - 1]);
    }
  }

  /** Packing some items is a prefix of packing more. */
  lemma {:induction false} PackPrefix(pre: seq<Ent>, items: seq<Item>, k: nat)
    requires k <= |items|
    ensures PackAll(pre, items[..k]) <= PackAll(pre, items)
    decreases |items|
  {
    if k == |items| {
      assert items[..k] == items;
    } else {
      var most := items[..|items| - 1];
      PackPrefix(pre, most, k);
      assert most[..k] == items[..k];
    }
  }

  ghost predicate SameNames(a: seq<Item>, b: seq<Item>) {
    |a| == |b| && forall k :: 0 <= k < |a| ==> a[k].name == b[k].name
  }

  lemma {:induction false} LenBySameNames(len: nat, a: seq<Item>, b: seq<Item>)
    requires SameNames(a, b)
    ensures LenAfter(len, a) == LenAfter(len, b)
    decreases |a|
  {
    if a == [] {
    } else {
      LenBySameNames(len, a[..|a| - 1], b[..|b| - 1]);
    }
  }

  /** Where the short entry of item k ends up. */
  function IndexOf(pre: seq<Ent>, items: seq<Item>, k: nat): (i: nat)
    requires k < |items|
  {
    |PackAll(pre, items[..k + 1])| - 1
  }

  /** Placing one item changes its short entry and nothing else. */
  ghost predicate PlacedBy(pre: seq<Ent>, items: seq<Item>, k: nat, placed: Item)
    requires k < |items|
  {
    && IndexOf(pre, items, k) < |PackAll(pre, items)|
    && PackAll(pre, items)[IndexOf(pre, items, k)] == ShortEnt(items[k])
    && PackAll(pre, items[k := placed]) == PackAll(pre, items)[IndexOf(pre, items, k) := ShortEnt(placed)]
  }

  lemma {:induction false} PlaceOne(pre: seq<Ent>, items: seq<Item>, k: nat, sector: nat)
    requires k < |items|
    ensures PlacedBy(pre, items, k, items[k].(sector := sector))
    decreases |items|
  {
    var n := |items| - 1;
    if k == n {
      PlaceLast(pre, items, sector);
    } else {
      PlaceOne(pre, items[..n], k, sector);
      PlaceEarlier(pre, items, k, sector);
    }
  }

  lemma PlaceLast(pre: seq<Ent>, items: seq<Item>, sector: nat)
    requires items != []
    ensures PlacedBy(pre, items, |items| - 1, items[|items| - 1].(sector := sector))
  {
    var n := |items| - 1;
    var placed := items[n].(sector := sector);
    var ents, items' := PackAll(pre, items[..n]), items[n := placed];
    var g := Group(|ents|, items[n]);
    PackStep(pre, items, ents);
    assert items[..n + 1] == items && items'[..n] == items[..n];
    LastRepacked(pre, items', ents, g, items[n], sector);
  }

  lemma LastRepacked(pre: seq<Ent>, items: seq<Item>, ents: seq<Ent>, g: seq<Ent>, it: Item, sector: nat)
    requires items != [] && items[|items| - 1] == it.(sector := sector) && g == Group(|ents|, it)
    requires PackAll(pre, items[..|items| - 1]) == ents
    ensures PackAll(pre, items) == (ents + g)[|ents| + |g| - 1 := ShortEnt(it.(sector := sector))]
  {
    PackStep(pre, items, ents);
    RegroupPlaced(|ents|, it, sector);
    UpdateRight(ents, g, |g| - 1, ShortEnt(it.(sector := sector)));
  }

  lemma PlaceEarlier(pre: seq<Ent>, items: seq<Item>, k: nat, sector: nat)
    requires k < |items| - 1
    requires PlacedBy(pre, items[..|items| - 1], k, items[k].(sector := sector))
    ensures PlacedBy(pre, items, k, items[k].(sector := sector))
  {
    var n := |items| - 1;
    var placed := items[k].(sector := sector);
    var most, items' := items[..n], items[k := placed];
    var ents, at, v := PackAll(pre, most), IndexOf(pre, most, k), ShortEnt(placed);
    assert most[k] == items[k] && at < |ents| && ents[at] == ShortEnt(items[k]);
    SamePrefix(pre, items, k);
    PackStep(pre, items, ents);
    assert items'[..n] == most[k := placed] && items'[n] == items[n];
    OneMorePacked(pre, items', ents, at, v, items[n]);
  }

  lemma SamePrefix(pre: seq<Ent>, items: seq<Item>, k: nat)
    requires k < |items| - 1
    ensures IndexOf(pre, items, k) == IndexOf(pre, items[..|items| - 1], k)
  {
    assert items[..k + 1] == items[..|items| - 1][..k + 1];
  }

  lemma OneMorePacked(pre: seq<Ent>, items: seq<Item>, ents: seq<Ent>, at: nat, v: Ent, last: Item)
    requires items != [] && last == items[|items| - 1] && at < |ents|
    requires PackAll(pre, items[..|items| - 1]) == ents[at := v]
    ensures PackAll(pre, items) == (ents + Group(|ents|, last))[at := v]
  {
    PackStep(pre, items, ents[at := v]);
    UpdateLeft(ents, Group(|ents|, last), at, v);
  }

  lemma PackStep(pre: seq<Ent>, items: seq<Item>, ents: seq<Ent>)
    requires items != [] && ents == PackAll(pre, items[..|items| - 1])
    ensures PackAll(pre, items) == ents + Group(|ents|, items[|items| - 1])
  {
  }

  lemma RegroupPlaced(len: nat, it: Item, sector: nat)
    ensures var placed := it.(sector := sector);
            Group(len, placed) == Group(len, it)[|Group(len, it)| - 1 := ShortEnt(placed)]
  {
  }

  lemma UpdateLeft<T>(a: seq<T>, b: seq<T>, at: nat, v: T)
    requires at < |a|
    ensures a[at := v] + b == (a + b)[at := v]
  {
  }

  lemma UpdateRight<T>(a: seq<T>, b: seq<T>, at: nat, v: T)
    requires at < |b|
    ensures a + b[at := v] == (a + b)[|a| + at := v]
  {
  }

  // ---- sectors ----

  function UnplacedSubs(d: Dir): seq<Item> {
    seq(|d.subs|, k requires 0 <= k < |d.subs| => Item(d.subs[k].name, ATTR_DIRECTORY, 0, 1))
  }

  function UnplacedFiles(d: Dir): seq<Item> {
    seq(|d.files|, k requires 0 <= k < |d.files| => Item(d.files[k].name, ATTR_READ_ONLY, |d.files[k].data|, 1))
  }

  /** The items of a directory before their sectors are known. */
  function Unplaced(d: Dir): (items: seq<Item>)
    ensures |items| == |d.subs| + |d.files|
  {
    UnplacedSubs(d) + UnplacedFiles(d)
  }

  /** Sectors of a directory's own entries: two for itself and its parent, those of its items, and an end mark. */
  function DirSectors(d: Dir): (n: nat)
    ensures ENTS_PER_SECT * n >= LenAfter(2, Unplaced(d)) + 1
  {
    (LenAfter(2, Unplaced(d)) + 1 + ENTS_PER_SECT - 1) / ENTS_PER_SECT
  }

  function FileSectors(f: File): (n: nat)
    ensures |f.data| <= 512 * n < |f.data| + 512
  {
    (|f.data| + SECT_SIZE - 1) / SECT_SIZE
  }

  /** Sectors from the start of a directory to just past everything below it. */
  function Span(d: Dir): nat
    decreases d, 1
  {
    DirSectors(d) + SpanSubs(d.subs) + SpanFiles(d.files)
  }

  function SpanSubs(ds: seq<Dir>): nat
    decreases ds, 0
  {
    if ds == [] then 0 else SpanSubs(ds[..|ds| - 1]) + Span(ds[|ds| - 1])
  }

  function SpanFiles(fs: seq<File>): nat {
    if fs == [] then 0 else SpanFiles(fs[..|fs| - 1]) + FileSectors(fs[|fs| - 1])
  }

  function SubSector(d: Dir, sec: nat, k: nat): nat
    requires k <= |d.subs|
  {
    sec + DirSectors(d) + SpanSubs(d.subs[..k])
  }

  function FileSector(d: Dir, sec: nat, k: nat): nat
    requires k <= |d.files|
  {
    sec + DirSectors(d) + SpanSubs(d.subs) + SpanFiles(d.files[..k])
  }

  function SubItems(d: Dir, sec: nat): (items: seq<Item>)
    ensures |items| == |d.subs|
    ensures forall k {:trigger items[k]} :: 0 <= k < |items| ==>
              items[k] == Item(d.subs[k].name, ATTR_DIRECTORY, 0, SubSector(d, sec, k))
  {
    seq(|d.subs|, k requires 0 <= k < |d.subs| => Item(d.subs[k].name, ATTR_DIRECTORY, 0, SubSector(d, sec, k)))
  }

  function FileItems(d: Dir, sec: nat): (items: seq<Item>)
    ensures |items| == |d.files|
    ensures forall k {:trigger items[k]} :: 0 <= k < |items| ==>
              items[k] == Item(d.files[k].name, ATTR_READ_ONLY, |d.files[k].data|, FileSector(d, sec, k))
  {
    seq(|d.files|, k requires 0 <= k < |d.files| =>
      Item(d.files[k].name, ATTR_READ_ONLY, |d.files[k].data|, FileSector(d, sec, k)))
  }

  /** The items of a directory at a sector, each with the sector it starts at. */
  function Items(d: Dir, sec: nat): (items: seq<Item>)
    ensures |items| == |d.subs| + |d.files|
  {
    SubItems(d, sec) + FileItems(d, sec)
  }

  /** The entries for a directory itself and its parent. */
  function Preamble(sec: nat, parent: nat): (pre: seq<Ent>)
    ensures |pre| == 2
  {
    [Short(ShortName([46]), ATTR_DIRECTORY, Cluster(sec), 0),
     Short(ShortName([46, 46]), ATTR_DIRECTORY, Cluster(parent), 0)]
  }

  /** All entries of a directory, as finally written. */
  function Entries(d: Dir, sec: nat, parent: nat): seq<Ent> {
    PackAll(Preamble(sec, parent), Items(d, sec)) + [Last]
  }

  /** A directory has as few sectors as hold its entries, 16 in each. */
  lemma EntryCount(d: Dir, sec: nat, parent: nat)
    ensures |Entries(d, sec, parent)| == LenAfter(2, Unplaced(d)) + 1
    ensures |Entries(d, sec, parent)| <= 16 * DirSectors(d) < |Entries(d, sec, parent)| + 16
  {
    PackLen(Preamble(sec, parent), Items(d, sec));
    LenBySameNames(2, Items(d, sec), Unplaced(d));
  }

  // ---- images ----

  /** The slots from an address on hold these entries. */
  predicate TableAt(mem: seq<byte>, at: nat, ents: seq<Ent>) {
    && at + ENT_SIZE * |ents| <= |mem|
    && forall i {:trigger ents[i]} :: 0 <= i < |ents| ==>
         Encodes(mem[at + ENT_SIZE * i..at + ENT_SIZE * i + ENT_SIZE], ents[i])
  }

  ghost predicate FileAt(mem: seq<byte>, sec: nat, f: File) {
    SECT_SIZE * (sec + FileSectors(f)) <= |mem| && mem[SECT_SIZE * sec..SECT_SIZE * sec + |f.data|] == f.data
  }

  /** The image holds the tree d from a sector on. */
  ghost predicate Holds(mem: seq<byte>, d: Dir, sec: nat, parent: nat)
    decreases d
  {
    && TableAt(mem, SECT_SIZE * sec, Entries(d, sec, parent))
    && (forall k :: 0 <= k < |d.subs| ==> Holds(mem, d.subs[k], SubSector(d, sec, k), sec))
    && (forall k :: 0 <= k < |d.files| ==> FileAt(mem, FileSector(d, sec, k), d.files[k]))
  }

  /** Images of at least the same length that agree between two addresses. */
  ghost predicate Agree(a: seq<byte>, b: seq<byte>, lo: nat, hi: nat) {
    |a| <= |b| && forall p :: lo <= p < hi && p < |a| ==> b[p] == a[p]
  }

  lemma {:induction false} SpanSubsPrefix(ds: seq<Dir>, k: nat)
    requires k <= |ds|
    ensures SpanSubs(ds[..k]) <= SpanSubs(ds)
    ensures k < |ds| ==> SpanSubs(ds[..k]) + Span(ds[k]) <= SpanSubs(ds)
    decreases |ds|
  {
    if k == |ds| {
      assert ds[..k] == ds;
    } else if k == |ds| - 1 {
    } else {
      SpanSubsPrefix(ds[..|ds| - 1], k);
      assert ds[..|ds| - 1][..k] == ds[..k];
    }
  }

  lemma {:induction false} SpanFilesPrefix(fs: seq<File>, k: nat)
    requires k <= |fs|
    ensures SpanFiles(fs[..k]) <= SpanFiles(fs)
    ensures k < |fs| ==> SpanFiles(fs[..k]) + FileSectors(fs[k]) <= SpanFiles(fs)
    decreases |fs|
  {
    if k == |fs| {
      assert fs[..k] == fs;
    } else if k < |fs| - 1 {
      SpanFilesPrefix(fs[..|fs| - 1], k);
      assert fs[..|fs| - 1][..k] == fs[..k];
    }
  }

  lemma TableKept(a: seq<byte>, b: seq<byte>, at: nat, ents: seq<Ent>, lo: nat, hi: nat)
    requires TableAt(a, at, ents) && Agree(a, b, lo, hi) && lo <= at && at + ENT_SIZE * |ents| <= hi
    ensures TableAt(b, at, ents)
  {
    forall i | 0 <= i < |ents|
      ensures Encodes(b[at + ENT_SIZE * i..at + ENT_SIZE * i + ENT_SIZE], ents[i])
    {
      assert b[at + ENT_SIZE * i..at + ENT_SIZE * i + ENT_SIZE] == a[at + ENT_SIZE * i..at + ENT_SIZE * i + ENT_SIZE];
    }
  }

  lemma FileKept(a: seq<byte>, b: seq<byte>, sec: nat, f: File, lo: nat, hi: nat)
    requires FileAt(a, sec, f) && Agree(a, b, lo, hi) && lo <= SECT_SIZE * sec
    requires SECT_SIZE * (sec + FileSectors(f)) <= hi
    ensures FileAt(b, sec, f)
  {
    assert b[SECT_SIZE * sec..SECT_SIZE * sec + |f.data|] == a[SECT_SIZE * sec..SECT_SIZE * sec + |f.data|];
  }

  /** Writes outside the span of a tree leave it in place. */
  lemma {:induction false} HoldsKept(a: seq<byte>, b: seq<byte>, d: Dir, sec: nat, parent: nat, lo: nat, hi: nat)
    requires Holds(a, d, sec, parent) && Agree(a, b, lo, hi)
    requires lo <= SECT_SIZE * sec && SECT_SIZE * (sec + Span(d)) <= hi
    ensures Holds(b, d, sec, parent)
    decreases d
  {
    EntryCount(d, sec, parent);
    TableKept(a, b, SECT_SIZE * sec, Entries(d, sec, parent), lo, hi);
    forall k | 0 <= k < |d.subs|
      ensures Holds(b, d.subs[k], SubSector(d, sec, k), sec)
    {
      SpanSubsPrefix(d.subs, k);
      HoldsKept(a, b, d.subs[k], SubSector(d, sec, k), sec, lo, hi);
    }
    forall k | 0 <= k < |d.files|
      ensures FileAt(b, FileSector(d, sec, k), d.files[k])
    {
      SpanFilesPrefix(d.files, k);
      FileKept(a, b, FileSector(d, sec, k), d.files[k], lo, hi);
    }
  }
}
