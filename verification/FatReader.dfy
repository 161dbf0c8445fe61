/**
  The file system reader: mounting, listing a directory and reading a file
  from a memory disk (src/fs/fat.cpp, src/fs/fat_sync.cpp, src/fs/memdisk.cpp).
 */
module FatReader {
  import opened Bytes
  import opened Common
  import opened FatEntries

  /**
    A disk image in memory, and what memory holds after it: a sector that
    starts inside the image is read in full.
   */
  datatype Disk = Disk(image: seq<byte>, after: seq<byte>)

  predicate DiskOk(disk: Disk) {
    |disk.after| >= SECT_SIZE && |disk.image| < SECT_SIZE * 0x1_0000_0000
  }

  function ReadSector(disk: Disk, sector: nat): (r: Option<seq<byte>>)
    requires DiskOk(disk)
    ensures r.Some? <==> SECT_SIZE * sector < |disk.image|
    ensures r.Some? ==> |r.value| == SECT_SIZE
  {
    if SECT_SIZE * sector >= |disk.image| then None
    else Some((disk.image + disk.after)[SECT_SIZE * sector..SECT_SIZE * sector + SECT_SIZE])
  }

  /** A sector is read as it is in the image; one that runs past its end goes on with what follows in memory. */
  lemma SectorRead(disk: Disk, sector: nat)
    requires DiskOk(disk)
    ensures ReadSector(disk, sector) ==
            var at, n := SECT_SIZE * sector, |disk.image|;
            if at + SECT_SIZE <= n then Some(disk.image[at..at + SECT_SIZE])
            else if at < n then Some(disk.image[at..] + disk.after[..SECT_SIZE - (n - at)])
            else None
  {
    var at, all := SECT_SIZE * sector, disk.image + disk.after;
    if at + SECT_SIZE <= |disk.image| {
      assert all[at..at + SECT_SIZE] == disk.image[at..at + SECT_SIZE];
    } else if at < |disk.image| {
      assert all[at..at + SECT_SIZE] == disk.image[at..] + disk.after[..SECT_SIZE - (|disk.image| - at)];
    }
  }

  function ReadSectors(disk: Disk, sector: nat, count: nat): (r: Option<seq<byte>>) {
    if SECT_SIZE * sector + SECT_SIZE * count > |disk.image| then None
    else Some(disk.image[SECT_SIZE * sector..SECT_SIZE * sector + SECT_SIZE * count])
  }

  // ---- directory entries ----

  datatype Enttype = FILE | DIR | VOLUME_ID

  datatype Dirent = Dirent(kind: Enttype, name: name, block: nat, size: nat, attrib: byte, modified: nat)

  function Type(attrib: byte): Enttype {
    if (attrib / 8) % 2 == 1 then VOLUME_ID else if (attrib / 16) % 2 == 1 then DIR else FILE
  }

  /** By the attribute bits: 8 makes a volume label, else 16 a directory. */
  lemma TypeBits(attrib: byte)
    ensures Type(attrib) == VOLUME_ID <==> attrib % 16 >= 8
    ensures Type(attrib) == DIR <==> attrib % 16 < 8 && attrib % 32 >= 16
    ensures Type(attrib) == FILE <==> attrib % 32 < 8
  {
    assert attrib % 16 == attrib / 8 % 2 * 8 + attrib % 8;
    assert attrib % 32 == attrib / 16 % 2 * 16 + attrib % 16;
  }

  /** The stored cluster number; zero stands for the root, cluster 2. */
  function DirCluster(slot: seq<byte>): nat
    requires |slot| == ENT_SIZE
  {
    var cl := U16(slot, 26) + 0x1_0000 * U16(slot, 20);
    if cl != 0 then cl else 2
  }

  /** Its low half is at byte 26 and its high half at byte 20; zero stands for the root. */
  lemma DirClusterIs(slot: seq<byte>)
    requires |slot| == 32
    ensures var n := Two(slot[26], slot[27]) + 0x1_0000 * Two(slot[20], slot[21]);
            DirCluster(slot) == if n == 0 then 2 else n
  {
  }

  /** Two bytes as a number, the lower one first. */
  function Two(lo: int, hi: int): int {
    lo + 256 * hi
  }

  function DirentOf(slot: seq<byte>, n: name): Dirent
    requires |slot| == ENT_SIZE
  {
    Dirent(Type(slot[11]), n, DirCluster(slot), U32(slot, 28), slot[11], U32(slot, 22))
  }

  function Slot(sect: seq<byte>, i: nat): (slot: seq<byte>)
    requires |sect| == SECT_SIZE && i < ENTS_PER_SECT
    ensures |slot| == ENT_SIZE
  {
    sect[ENT_SIZE * i..ENT_SIZE * i + ENT_SIZE]
  }

  predicate IsLongname(slot: seq<byte>)
    requires |slot| == ENT_SIZE
  {
    slot[11] % 16 == 15
  }

  predicate IsLast(slot: seq<byte>)
    requires |slot| == ENT_SIZE
  {
    (slot[0] / 64) % 2 == 1
  }

  /** Spaces, form feeds, newlines, carriage returns, tabs and vertical tabs. */
  predicate Blank(b: byte) {
    b == 32 || b == 12 || b == 10 || b == 13 || b == 9 || b == 11
  }

  function TrimRight(s: name): (r: name)
    ensures r <= s
    ensures r != [] ==> !Blank(r[|r| - 1])
    ensures forall j :: |r| <= j < |s| ==> Blank(s[j])
  {
    if s != [] && Blank(s[|s| - 1]) then TrimRight(s[..|s| - 1]) else s
  }

  /** Characters of one long entry from the j-th on, up to a zero or 0xFFFF. */
  function Piece(slot: seq<byte>, j: nat): (r: name)
    requires |slot| == ENT_SIZE && j <= LONG_CHARS_PER_ENTRY
    ensures |r| <= LONG_CHARS_PER_ENTRY - j
    decreases |slot| - j
  {
    if j == LONG_CHARS_PER_ENTRY then []
    else
      var c := U16(slot, CharOffset(j));
      if c == 0xFFFF || c == 0 then [] else [c % 256] + Piece(slot, j + 1)
  }

  /** A long name spread over the entries from the i-th on: read from the total-th entry back to the first. */
  function LongName(sect: seq<byte>, i: nat, total: nat): (r: name)
    requires |sect| == SECT_SIZE && i + total <= ENTS_PER_SECT
    ensures |r| <= LONG_CHARS_PER_ENTRY * total
  {
    if total == 0 then [] else Piece(Slot(sect, i + total - 1), 0) + LongName(sect, i, total - 1)
  }

  /**
    What one slot of a sector amounts to: the directory's end, nothing more in
    this sector, or go on at a later slot.
   */
  datatype Visit = End | Stop | Go(found: seq<Dirent>, next: nat)

  function VisitSlot(sect: seq<byte>, i: nat): (v: Visit)
    requires |sect| == SECT_SIZE && i < ENTS_PER_SECT
    ensures v.Go? ==> i < v.next <= ENTS_PER_SECT
  {
    var slot := Slot(sect, i);
    if slot[0] == 0 then End
    else if slot[0] == UNUSED_ENTRY then Go([], i + 1)
    else if !IsLongname(slot) then Go([DirentOf(slot, TrimRight(slot[..SHORTNAME_LEN]))], i + 1)
    else if !IsLast(slot) then Go([], i + 1)
    else
      var total := slot[0] - 64;
      if i + total >= ENTS_PER_SECT then Stop
      else Go([DirentOf(Slot(sect, i + total), LongName(sect, i, total))], i + total + 1)
  }

  /** The entries of a sector from the i-th slot on, and whether the directory's end was met. */
  function Scan(sect: seq<byte>, i: nat): (seq<Dirent>, bool)
    requires |sect| == SECT_SIZE && i <= ENTS_PER_SECT
    decreases |sect| - i
  {
    if i == ENTS_PER_SECT then ([], false)
    else
      match VisitSlot(sect, i)
      case End => ([], true)
      case Stop => ([], false)
      case Go(found, next) => var (rest, last) := Scan(sect, next); (found + rest, last)
  }

  method ReadPiece(slot: seq<byte>, before: name) returns (r: name)
    requires |slot| == ENT_SIZE
    ensures r == before + Piece(slot, 0) && |r| <= |before| + LONG_CHARS_PER_ENTRY
  {
    r := before;
    var j := 0;
    while j < LONG_CHARS_PER_ENTRY
      invariant 0 <= j <= LONG_CHARS_PER_ENTRY
      invariant r + Piece(slot, j) == before + Piece(slot, 0)
    {
      var c := U16(slot, CharOffset(j));
      if c == 0xFFFF || c == 0 {
        break;
      }
      assert r + ([c % 256] + Piece(slot, j + 1)) == r + [c % 256] + Piece(slot, j + 1);
      r := r + [c % 256];
      j := j + 1;
    }
  }

  lemma LongNameStep(sect: seq<byte>, i: nat, total: nat, before: name)
    requires |sect| == SECT_SIZE && i + total < ENTS_PER_SECT
    ensures before + LongName(sect, i, total + 1) == before + Piece(Slot(sect, i + total), 0) + LongName(sect, i, total)
  {
  }

  /** Read a long name backwards from its final entry, giving up past 240 characters. */
  method ReadLongName(sect: seq<byte>, i: nat, total: nat) returns (r: name)
    requires |sect| == SECT_SIZE && i + total < ENTS_PER_SECT
    ensures r == LongName(sect, i, total)
  {
    r := [];
    var idx := total;
    ghost var want := LongName(sect, i, total);
    while idx > 0
      invariant 0 <= idx <= total && |r| <= LONG_CHARS_PER_ENTRY * (total - idx)
      invariant r + LongName(sect, i, idx) == want
    {
      idx := idx - 1;
      LongNameStep(sect, i, idx, r);
      r := ReadPiece(Slot(sect, i + idx), r);
      if |r| > 240 {
        break;
      }
    }
  }

  /** One turn of the loop over a sector's slots. */
  method ReadSlot(sect: seq<byte>, i: nat) returns (v: Visit)
    requires |sect| == SECT_SIZE && i < ENTS_PER_SECT
    ensures v == VisitSlot(sect, i)
  {
    var slot := Slot(sect, i);
    if slot[0] == 0 {
      return End;
    } else if slot[0] != UNUSED_ENTRY {
      if IsLongname(slot) {
        if IsLast(slot) {
          var total := slot[0] - 64;
          if i + total >= ENTS_PER_SECT {
            return Stop;
          }
          var n := ReadLongName(sect, i, total);
          return Go([DirentOf(Slot(sect, i + total), n)], i + total + 1);
        }
      } else {
        return Go([DirentOf(slot, TrimRight(slot[..SHORTNAME_LEN]))], i + 1);
      }
    }
    return Go([], i + 1);
  }

  /** Turn one sector of a directory into entries; says whether its end was met. */
  method IntDirent(sect: seq<byte>) returns (dirents: seq<Dirent>, foundLast: bool)
    requires |sect| == SECT_SIZE
    ensures dirents == Scan(sect, 0).0 && foundLast == Scan(sect, 0).1
  {
    dirents, foundLast := [], false;
    var i := 0;
    while i < ENTS_PER_SECT
      invariant 0 <= i <= ENTS_PER_SECT && !foundLast
      invariant dirents + Scan(sect, i).0 == Scan(sect, 0).0 && Scan(sect, i).1 == Scan(sect, 0).1
    {
      var v := ReadSlot(sect, i);
      match v
      case End =>
        foundLast := true;
        break;
      case Stop =>
        return;
      case Go(found, next) =>
        assert dirents + (found + Scan(sect, next).0) == dirents + found + Scan(sect, next).0;
        dirents, i := dirents + found, next;
    }
  }

  function Prepend(ds: seq<Dirent>, r: Option<seq<Dirent>>): Option<seq<Dirent>> {
    if r.Some? then Some(ds + r.value) else None
  }

  lemma PrependNothing(r: Option<seq<Dirent>>)
    ensures Prepend([], r) == r
  {
    if r.Some? {
      assert [] + r.value == r.value;
    }
  }

  lemma PrependTwice(a: seq<Dirent>, b: seq<Dirent>, r: Option<seq<Dirent>>)
    ensures Prepend(a, Prepend(b, r)) == Prepend(a + b, r)
  {
    if r.Some? {
      assert a + (b + r.value) == a + b + r.value;
    }
  }

  /** The listing of the directory whose entries go on at slot i of a sector. */
  function ListFrom(disk: Disk, sector: nat, i: nat): Option<seq<Dirent>>
    requires DiskOk(disk) && i <= ENTS_PER_SECT
    decreases |disk.image| - SECT_SIZE * sector
  {
    match ReadSector(disk, sector)
    case None => None
    case Some(sect) =>
      var (ds, last) := Scan(sect, i);
      if last then Some(ds) else Prepend(ds, ListFrom(disk, sector + 1, 0))
  }

  /** Sector t can be read, and a directory that goes on at slot i of sector s has its end in it. */
  ghost predicate EndsIn(disk: Disk, s: nat, i: nat, t: nat)
    requires DiskOk(disk) && i <= ENTS_PER_SECT
  {
    t >= s && ReadSector(disk, t).Some? && Scan(ReadSector(disk, t).value, if t == s then i else 0).1
  }

  /** A directory is listed if and only if one of its sectors holds its end before the disk does. */
  lemma {:induction false} ListedExactly(disk: Disk, s: nat, i: nat)
    requires DiskOk(disk) && i <= ENTS_PER_SECT
    ensures ListFrom(disk, s, i).Some? <==> EndReached(disk, s, i)
    decreases |disk.image| - SECT_SIZE * s
  {
    if ReadSector(disk, s).None? {
      forall t: nat
        ensures !EndsIn(disk, s, i, t)
      {
        NoneAfterDisk(disk, s, i, t);
      }
    } else if Scan(ReadSector(disk, s).value, i).1 {
      assert EndsIn(disk, s, i, s);
    } else {
      ListedLater(disk, s, i);
      EndsNext(disk, s, i, s + 1);
      ListedExactly(disk, s + 1, 0);
    }
  }

  ghost predicate EndReached(disk: Disk, s: nat, i: nat)
    requires DiskOk(disk) && i <= ENTS_PER_SECT
  {
    exists t: nat :: EndsIn(disk, s, i, t)
  }

  lemma ListedLater(disk: Disk, s: nat, i: nat)
    requires DiskOk(disk) && i <= ENTS_PER_SECT && ReadSector(disk, s).Some?
    requires !Scan(ReadSector(disk, s).value, i).1
    ensures ListFrom(disk, s, i).Some? <==> ListFrom(disk, s + 1, 0).Some?
  {
  }

  lemma EndsNext(disk: Disk, s: nat, i: nat, next: nat)
    requires DiskOk(disk) && i <= ENTS_PER_SECT && ReadSector(disk, s).Some? && next == s + 1
    requires !Scan(ReadSector(disk, s).value, i).1
    ensures EndReached(disk, s, i) <==> EndReached(disk, next, 0)
  {
    if t: nat :| EndsIn(disk, next, 0, t) {
      EndsLater(disk, s, i, t);
      assert EndsIn(disk, s, i, t);
    }
    if t: nat :| EndsIn(disk, s, i, t) {
      EndsLater(disk, s, i, t);
      assert EndsIn(disk, next, 0, t);
    }
  }

  lemma NoneAfterDisk(disk: Disk, s: nat, i: nat, t: nat)
    requires DiskOk(disk) && i <= ENTS_PER_SECT && ReadSector(disk, s).None?
    ensures !EndsIn(disk, s, i, t)
  {
  }

  lemma EndsLater(disk: Disk, s: nat, i: nat, t: nat)
    requires DiskOk(disk) && i <= ENTS_PER_SECT && ReadSector(disk, s).Some?
    requires !Scan(ReadSector(disk, s).value, i).1
    ensures EndsIn(disk, s, i, t) <==> EndsIn(disk, s + 1, 0, t)
  {
  }

  lemma ListStep(disk: Disk, s: nat, ents: seq<Dirent>)
    requires DiskOk(disk) && ReadSector(disk, s).Some?
    ensures var (more, last) := Scan(ReadSector(disk, s).value, 0);
            Prepend(ents, ListFrom(disk, s, 0)) == if last then Some(ents + more)
              else Prepend(ents + more, ListFrom(disk, s + 1, 0))
  {
    var (more, last) := Scan(ReadSector(disk, s).value, 0);
    PrependTwice(ents, more, ListFrom(disk, s + 1, 0));
  }

  /** The entries so far, and those from a sector on unless this is all, are what is wanted. */
  ghost predicate Remaining(disk: Disk, want: Option<seq<Dirent>>, ents: seq<Dirent>, s: nat, done: bool)
    requires DiskOk(disk)
  {
    want == if done then Some(ents) else Prepend(ents, ListFrom(disk, s, 0))
  }

  /** One turn of the loop over a directory's sectors; None where the disk ends. */
  method ReadMore(disk: Disk, s: nat, ents: seq<Dirent>, ghost want: Option<seq<Dirent>>)
    returns (r: Option<seq<Dirent>>, done: bool)
    requires DiskOk(disk) && Remaining(disk, want, ents, s, false)
    ensures r.None? ==> want == None
    ensures r.Some? ==> SECT_SIZE * s < |disk.image| && Remaining(disk, want, r.value, s + 1, done)
  {
    var data := ReadSector(disk, s);
    if data.None? {
      return None, true;
    }
    var more;
    more, done := IntDirent(data.value);
    ListStep(disk, s, ents);
    r := Some(ents + more);
  }

  /** List a directory: sector after sector until its end mark, or None where the disk ends first. */
  method IntLs(disk: Disk, sector: nat) returns (r: Option<seq<Dirent>>)
    requires DiskOk(disk)
    ensures r == ListFrom(disk, sector, 0)
  {
    var ents, s := [], sector;
    ghost var want := ListFrom(disk, sector, 0);
    assert Remaining(disk, want, ents, s, false) by {
      PrependNothing(want);
    }
    while true
      invariant Remaining(disk, want, ents, s, false)
      decreases |disk.image| - SECT_SIZE * s
    {
      var more, done := ReadMore(disk, s, ents, want);
      if more.None? || done {
        return more;
      }
      ents, s := more.value, s + 1;
    }
  }

  // ---- mounting ----

  datatype Geometry = Geometry(sectorSize: nat, sectorsPerCluster: nat, rootDirSectors: nat, dataIndex: nat)

  datatype Mount = Mounted(geometry: Geometry) | BadSignature | BadSectorSize | NoClusterSize

  /** Read the boot sector's parameter block, which starts at byte 11. */
  function Init(mbr: seq<byte>): Mount
    requires |mbr| == SECT_SIZE
  {
    var sectorSize := U16(mbr, 11);
    if U16(mbr, 510) != 0xAA55 then BadSignature
    else if sectorSize < 512 then BadSectorSize
    else if mbr[13] == 0 then NoClusterSize
    else
      var sectorsPerFat := if U16(mbr, 22) != 0 then U16(mbr, 22) else U32(mbr, 36);
      var rootDirSectors := (U16(mbr, 17) * 32 + sectorSize - 1) / sectorSize;
      Mounted(Geometry(sectorSize, mbr[13], rootDirSectors,
        (U16(mbr, 14) + mbr[16] * sectorsPerFat + rootDirSectors) % 0x1_0000_0000))
  }

  /**
    Mounting fails if and only if the last two bytes are not 0x55 and 0xAA, a
    sector has fewer than 512 bytes, or a cluster has no sectors, in this
    order.  Else the data begins after the reserved sectors, the allocation
    tables and as many sectors as hold the root entries of 32 bytes each.
   */
  lemma InitExact(mbr: seq<byte>)
    requires |mbr| == 512
    ensures var m := Init(mbr);
            && (m == BadSignature <==> !(mbr[510] == 0x55 && mbr[511] == 0xAA))
            && (m == BadSectorSize <==> m != BadSignature && mbr[12] < 2)
            && (m == NoClusterSize <==> m != BadSignature && mbr[12] >= 2 && mbr[13] == 0)
    ensures Init(mbr).Mounted? ==>
              var g, entries := Init(mbr).geometry, Two(mbr[17], mbr[18]);
              var perFat := if Two(mbr[22], mbr[23]) != 0 then Two(mbr[22], mbr[23])
                            else Two(mbr[36], mbr[37]) + 0x1_0000 * Two(mbr[38], mbr[39]);
              && g.sectorSize == Two(mbr[11], mbr[12]) && g.sectorsPerCluster == mbr[13]
              && 32 * entries <= g.rootDirSectors * g.sectorSize < 32 * entries + g.sectorSize
              && g.dataIndex == (Two(mbr[14], mbr[15]) + mbr[16] * perFat + g.rootDirSectors) % 0x1_0000_0000
  {
    var sectorSize, entries := U16(mbr, 11), U16(mbr, 17);
    if sectorSize > 0 {
      CeilingOf(entries * 32, sectorSize);
    }
  }

  lemma CeilingOf(x: nat, m: nat)
    requires m > 0
    ensures x <= (x + m - 1) / m * m < x + m
  {
    var y := x + m - 1;
    assert y == y / m * m + y % m;
  }

  /** The sector of a cluster, for a partition that starts the disk. */
  function ClToSector(g: Geometry, cl: nat): nat {
    (if cl <= 2 then g.dataIndex - g.rootDirSectors else g.dataIndex + (cl - 2) * g.sectorsPerCluster) % 0x1_0000_0000
  }

  /** Up to n bytes of a file from a position on; None when its sectors are not on the disk. */
  function Read(disk: Disk, g: Geometry, ent: Dirent, pos: nat, n: nat): (r: Option<seq<byte>>)
    requires g.sectorSize == SECT_SIZE && pos + n < 0x1_0000_0000_0000_0000
  {
    var stapos := Min(ent.size, pos);
    var endpos := Min(ent.size, pos + n);
    var sector := stapos / SECT_SIZE;
    var nsect := (endpos + SECT_SIZE - 1) / SECT_SIZE - sector;
    match ReadSectors(disk, ClToSector(g, ent.block) + sector, nsect)
    case None => None
    case Some(data) =>
      var ofs := stapos % SECT_SIZE;
      Some(data[ofs..ofs + (endpos - stapos)])
  }

  /**
    Reading part of any entry: the bytes of the image from its first sector on,
    cut to its size, and nothing if and only if the sectors up to the end of
    the part do not lie in the image.
   */
  lemma ReadIs(disk: Disk, g: Geometry, ent: Dirent, pos: nat, n: nat)
    requires g.sectorSize == SECT_SIZE && pos + n < 0x1_0000_0000_0000_0000
    ensures var at, sta, end := 512 * ClToSector(g, ent.block), Min(ent.size, pos), Min(ent.size, pos + n);
            var r := Read(disk, g, ent, pos, n);
            && (r.Some? <==> at + 512 * ((end + 511) / 512) <= |disk.image|)
            && (r.Some? ==> at + end <= |disk.image| && r.value == disk.image[at + sta..at + end])
  {
    var first, sta, end := ClToSector(g, ent.block), Min(ent.size, pos), Min(ent.size, pos + n);
    SectorsCover(sta, end);
    if 512 * (first + (end + 511) / 512) <= |disk.image| {
      SectorsRead(disk.image, first, sta, end);
    }
  }

  lemma SectorsRead(image: seq<byte>, first: nat, sta: nat, end: nat)
    requires sta <= end && 512 * (first + (end + 511) / 512) <= |image|
    ensures var from, ofs := 512 * (first + sta / 512), sta % 512;
            var to := 512 * (first + (end + 511) / 512);
            && from <= to && ofs + (end - sta) <= to - from && 512 * first + end <= |image|
            && image[from..to][ofs..ofs + (end - sta)] == image[512 * first + sta..512 * first + end]
  {
    SectorsCover(sta, end);
    var from, to, ofs := 512 * (first + sta / 512), 512 * (first + (end + 511) / 512), sta % 512;
    PartOfPart(image, from, to, ofs, ofs + (end - sta));
  }

  lemma SectorsCover(sta: nat, end: nat)
    requires sta <= end
    ensures var sector, last := sta / 512, (end + 511) / 512;
            sector <= last && sta == 512 * sector + sta % 512 && sta % 512 + (end - sta) <= 512 * (last - sector)
  {
  }

  lemma PartOfPart<T>(a: seq<T>, from: nat, to: nat, o: nat, e: nat)
    requires from <= to <= |a| && o <= e <= to - from
    ensures a[from..to][o..e] == a[from + o..from + e]
  {
    var m := a[from..to];
    var x, y := m[o..e], a[from + o..from + e];
    forall k | 0 <= k < e - o
      ensures x[k] == y[k]
    {
      assert m[o + k] == a[from + (o + k)];
    }
  }
}
