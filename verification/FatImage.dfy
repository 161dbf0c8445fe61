/** Whole images: FileSys::write of diskimagebuild/writer.cpp, and what mounting its output gives. */
module FatImage {
  import opened Bytes
  import opened Common
  import opened FatEntries
  import opened FatLayout
  import opened FatWriter
  import opened FatReader
  import opened FatListing
  import opened FatRoundTrip

  /** The fields set in the boot sector; the rest of it, such as the sector count, may be anything. */
  predicate BootSector(mbr: seq<byte>) {
    && |mbr| == SECT_SIZE && U16(mbr, 510) == 0xAA55
    && mbr[3..11] == [0x49, 0x4E, 0x43, 0x4C, 0x55, 0x44, 0x4F, 0x53]
    && U16(mbr, 11) == SECT_SIZE && mbr[13] == 1 && U16(mbr, 14) == 1 && mbr[16] == 2
    && U16(mbr, 17) == 0 && U16(mbr, 19) == 0 && mbr[21] == 0xF8 && U16(mbr, 22) == 1
    && mbr[36] == 0 && mbr[38] == 0x29
    && forall i :: 446 <= i < 510 ==> mbr[i] == 0
  }

  lemma BootSectorExists()
    ensures exists mbr :: BootSector(mbr)
  {
    var params: seq<byte> := [0, 2, 1, 1, 0, 2, 0, 0, 0, 0, 0xF8, 1, 0];
    var oem: seq<byte> := [0x49, 0x4E, 0x43, 0x4C, 0x55, 0x44, 0x4F, 0x53];
    var mbr: seq<byte> := [0, 0, 0] + oem + params + seq(12, _ => 0) + [0, 0, 0x29] + seq(471, _ => 0) + [0x55, 0xAA];
    assert mbr[3..11] == oem;
    assert mbr[11] == 0 && mbr[12] == 2 && mbr[13] == 1 && mbr[14] == 1 && mbr[15] == 0 && mbr[16] == 2;
    assert mbr[17] == 0 && mbr[18] == 0 && mbr[19] == 0 && mbr[20] == 0;
    assert mbr[21] == 0xF8 && mbr[22] == 1 && mbr[23] == 0;
    assert mbr[36] == 0 && mbr[38] == 0x29 && mbr[510] == 0x55 && mbr[511] == 0xAA;
    assert BootSector(mbr);
  }

  /** Where the root directory is. */
  const ROOT_SECTOR: nat := 3

  ghost predicate ImageOf(image: seq<byte>, root: Dir) {
    |image| >= SECT_SIZE && BootSector(image[..SECT_SIZE]) && Holds(image, root, ROOT_SECTOR, ROOT_SECTOR)
  }

  /** Write the tree from sector 3 on, the root being its own parent, and then the boot sector. */
  method WriteImage(img: ImageFile, root: Dir) returns (total: nat)
    requires Writable(root) && img.bytes == []
    modifies img
    ensures ImageOf(img.bytes, root) && total == SECT_SIZE * (ROOT_SECTOR + Span(root))
  {
    BootSectorExists();
    var mbr: seq<byte> :| BootSector(mbr);
    var next := WriteDir(img, root, ROOT_SECTOR, ROOT_SECTOR);
    ghost var before := img.bytes;
    img.WriteAt(0, mbr);
    BootWritten(before, img.bytes, mbr, root, next);
    total := SECT_SIZE * next;
  }

  lemma BootWritten(before: seq<byte>, image: seq<byte>, mbr: seq<byte>, root: Dir, next: nat)
    requires Holds(before, root, ROOT_SECTOR, ROOT_SECTOR) && next == ROOT_SECTOR + Span(root)
    requires BootSector(mbr) && image == Overwritten(before, 0, mbr)
    ensures ImageOf(image, root)
  {
    assert image[..SECT_SIZE] == mbr;
    HoldsKept(before, image, root, ROOT_SECTOR, ROOT_SECTOR, SECT_SIZE, SECT_SIZE * next);
  }

  /** Mounting an image finds its geometry, and with it the root: cluster zero is its sector. */
  lemma ImageMounts(disk: Disk, root: Dir)
    requires DiskOk(disk) && ImageOf(disk.image, root)
    ensures ReadSector(disk, 0).Some? && Init(ReadSector(disk, 0).value) == Mounted(GEOMETRY)
    ensures ClToSector(GEOMETRY, 0) == ROOT_SECTOR
  {
    FirstSector(disk);
    BootGeometry(disk.image[..SECT_SIZE]);
  }

  lemma FirstSector(disk: Disk)
    requires DiskOk(disk) && |disk.image| >= SECT_SIZE
    ensures ReadSector(disk, 0) == Some(disk.image[..SECT_SIZE])
  {
    SectorRead(disk, 0);
  }

  lemma BootGeometry(mbr: seq<byte>)
    requires BootSector(mbr)
    ensures Init(mbr) == Mounted(GEOMETRY) && ClToSector(GEOMETRY, 0) == ROOT_SECTOR
  {
  }

  /**
    The tree that was written is what is read back, name for name and byte for
    byte, if and only if every name in it is fine.
   */
  lemma ImageRoundTrip(disk: Disk, root: Dir)
    requires DiskOk(disk) && ImageOf(disk.image, root) && NamesShort(root)
    ensures Mirrors(disk, root, ROOT_SECTOR, ROOT_SECTOR) <==> NamesOk(root)
  {
    TreeRoundTrip(disk, root, ROOT_SECTOR, ROOT_SECTOR);
  }

  /** A file called "a " comes back as "a". */
  lemma TrailingBlankLost(disk: Disk, root: Dir)
    requires DiskOk(disk) && ImageOf(disk.image, root) && root == Dir([], [], [File([97, 32], [])])
    ensures !Mirrors(disk, root, ROOT_SECTOR, ROOT_SECTOR)
    ensures var l := ListFrom(disk, ROOT_SECTOR, 0); l.Some? && |l.value| == 3 && l.value[2].name == [97]
  {
    assert !NameOk(root.files[0].name);
    ImageRoundTrip(disk, root);
    BlankListing(disk, root, ROOT_SECTOR);
  }

  lemma BlankListing(disk: Disk, root: Dir, sec: nat)
    requires root == Dir([], [], [File([97, 32], [])])
    requires DiskOk(disk) && TableAt(disk.image, SECT_SIZE * sec, Entries(root, sec, sec))
    ensures var l := ListFrom(disk, sec, 0); l.Some? && |l.value| == 3 && l.value[2].name == [97]
  {
    ItemsListable(root, sec);
    DirectoryListing(disk, root, sec, sec);
    ItemIs(root, sec, 0);
    BlankSeen(Items(root, sec));
  }

  lemma BlankSeen(items: seq<Item>)
    requires |items| == 1 && items[0].name == [97, 32]
    ensures |Seen(items)| == 1 && Seen(items)[0].name == [97]
  {
    var s := ShortName(items[0].name);
    var r := TrimRight(s);
    assert s[0] == 97 && forall j :: 1 <= j < |s| ==> s[j] == SPACE;
    assert Blank(SPACE) && forall j :: 0 <= j < |r| ==> r[j] == s[j];
    assert r == s[..|r|] && |r| == 1;
    assert items[1..] == [];
  }
}
