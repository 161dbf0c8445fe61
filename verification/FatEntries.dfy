/**
  Directory entries of the disk image: the 32-byte slots of
  diskimagebuild/fat_internal.hpp, the long names that
  diskimagebuild/writer.cpp spreads over several of them, and how a directory
  is packed into 16-entry sectors.
 */
module FatEntries {
  import opened Bytes

  const SECT_SIZE := 512
  const ENT_SIZE := 32
  const ENTS_PER_SECT := 16
  const SHORTNAME_LEN := 11
  const LONG_CHARS_PER_ENTRY := 13

  const ATTR_READ_ONLY: byte := 0x01
  const ATTR_DIRECTORY: byte := 0x10
  const UNUSED_ENTRY: byte := 0xE5
  const SPACE: byte := 32

  type name = seq<byte>

  datatype Ent =
    | Short(shortname: name, attrib: byte, cluster: nat, size: nat)
    | Long(index: byte, attrib: byte, chars: seq<nat>)
    | Unused
    | Last

  predicate EntOk(e: Ent) {
    match e
    case Short(n, _, cluster, size) => |n| == SHORTNAME_LEN && cluster < 0x1_0000_0000 && size < 0x1_0000_0000
    case Long(_, _, chars) => |chars| == LONG_CHARS_PER_ENTRY && forall j :: 0 <= j < |chars| ==> chars[j] < 0x1_0000
    case Unused => true
    case Last => true
  }

  // ---- slots ----

  /** Little-endian 16-bit field. */
  function U16(s: seq<byte>, off: nat): nat
    requires off + 2 <= |s|
  {
    (s[off] as int) + 256 * (s[off + 1] as int)
  }

  function U32(s: seq<byte>, off: nat): nat
    requires off + 4 <= |s|
  {
    U16(s, off) + 0x1_0000 * U16(s, off + 2)
  }

  /** Where the j-th of the 13 characters of a long entry lies: runs of 5, 6 and 2. */
  function CharOffset(j: nat): (off: nat)
    requires j < LONG_CHARS_PER_ENTRY
    ensures off + 2 <= ENT_SIZE
  {
    if j < 5 then 1 + 2 * j else if j < 11 then 14 + 2 * (j - 5) else 28 + 2 * (j - 11)
  }

  /** The slot holds the fields of the entry; bytes the writer never sets may be anything. */
  predicate Encodes(slot: seq<byte>, e: Ent) {
    && |slot| == ENT_SIZE
    && match e
       case Short(n, attrib, cluster, size) =>
         && slot[..SHORTNAME_LEN] == n && slot[11] == attrib
         && U16(slot, 20) == cluster / 0x1_0000 && U16(slot, 26) == cluster % 0x1_0000
         && U32(slot, 22) == 0 && U32(slot, 28) == size
       case Long(index, attrib, chars) =>
         && slot[0] == index && slot[11] == attrib && U16(slot, 26) == 0
         && |chars| == LONG_CHARS_PER_ENTRY
         && forall j :: 0 <= j < LONG_CHARS_PER_ENTRY ==> U16(slot, CharOffset(j)) == chars[j]
       case Unused => slot[0] == UNUSED_ENTRY && slot[11] == 0 && U32(slot, 28) == 0
       case Last => slot[0] == 0 && slot[11] == 0 && U32(slot, 28) == 0
  }

  /** Byte i of a number, the lowest first. */
  function ByteOf(x: nat, i: nat): byte
    requires i < 4
  {
    if i == 0 then x % 256
    else if i == 1 then x / 256 % 256
    else if i == 2 then x / 0x1_0000 % 256
    else x / 0x100_0000 % 256
  }

  lemma ByteSplit(x: nat)
    requires x < 0x1_0000_0000
    ensures x % 0x1_0000 % 256 == ByteOf(x, 0) && x % 0x1_0000 / 256 == ByteOf(x, 1)
    ensures x / 0x1_0000 % 256 == ByteOf(x, 2) && x / 0x1_0000 / 256 == ByteOf(x, 3)
  {
    var lo, hi := x % 0x1_0000, x / 0x1_0000;
    assert x / 256 == 256 * hi + lo / 256;
    assert x / 0x100_0000 == hi / 256;
  }

  lemma FieldBytes(slot: seq<byte>, off: nat, x: nat)
    requires off + 2 <= |slot| && x == U16(slot, off)
    ensures slot[off] == x % 256 && slot[off + 1] == x / 256
  {
  }

  /** The name and the attributes of a short entry come first. */
  lemma ShortNameBytes(slot: seq<byte>, e: Ent, j: nat)
    requires e.Short? && EntOk(e) && Encodes(slot, e) && j < 11
    ensures slot[j] == e.shortname[j] && slot[11] == e.attrib
  {
    assert slot[j] == slot[..SHORTNAME_LEN][j];
  }

  /** The halves of its cluster number are apart, with four zeros between them. */
  lemma ClusterBytes(slot: seq<byte>, e: Ent)
    requires e.Short? && EntOk(e) && Encodes(slot, e)
    ensures slot[26] == ByteOf(e.cluster, 0) && slot[27] == ByteOf(e.cluster, 1)
    ensures slot[20] == ByteOf(e.cluster, 2) && slot[21] == ByteOf(e.cluster, 3)
    ensures slot[22] == slot[23] == slot[24] == slot[25] == 0
  {
    ByteSplit(e.cluster);
    FieldBytes(slot, 26, e.cluster % 0x1_0000);
    FieldBytes(slot, 20, e.cluster / 0x1_0000);
    FieldBytes(slot, 22, 0);
    FieldBytes(slot, 24, 0);
  }

  /** Its size comes last. */
  lemma SizeBytes(slot: seq<byte>, e: Ent)
    requires e.Short? && EntOk(e) && Encodes(slot, e)
    ensures slot[28] == ByteOf(e.size, 0) && slot[29] == ByteOf(e.size, 1)
    ensures slot[30] == ByteOf(e.size, 2) && slot[31] == ByteOf(e.size, 3)
  {
    var lo, hi := U16(slot, 28), U16(slot, 30);
    WordHalves(e.size, lo, hi);
    ByteSplit(e.size);
    FieldBytes(slot, 28, lo);
    FieldBytes(slot, 30, hi);
  }

  lemma WordHalves(x: nat, lo: nat, hi: nat)
    requires x == lo + 0x1_0000 * hi && lo < 0x1_0000
    ensures lo == x % 0x1_0000 && hi == x / 0x1_0000
  {
  }

  /** Where the characters of a long entry are: five after the number, six after the checksum, two at the end. */
  lemma LongBytes(slot: seq<byte>, e: Ent)
    requires e.Long? && EntOk(e) && Encodes(slot, e)
    ensures slot[0] == e.index && slot[11] == e.attrib && slot[26] == slot[27] == 0
    ensures forall j :: 0 <= j < 13 ==>
              var at := if j < 5 then 1 + 2 * j else if j < 11 then 4 + 2 * j else 6 + 2 * j;
              slot[at] == e.chars[j] % 256 && slot[at + 1] == e.chars[j] / 256
  {
    forall j | 0 <= j < 13
      ensures var at := if j < 5 then 1 + 2 * j else if j < 11 then 4 + 2 * j else 6 + 2 * j;
              slot[at] == e.chars[j] % 256 && slot[at + 1] == e.chars[j] / 256
    {
      assert CharOffset(j) == if j < 5 then 1 + 2 * j else if j < 11 then 4 + 2 * j else 6 + 2 * j;
      FieldBytes(slot, CharOffset(j), e.chars[j]);
    }
    FieldBytes(slot, 26, 0);
  }

  /** Half of a 16-bit field: the low byte at even distance from the field's start, the high byte at odd. */
  function Half(x: nat, d: nat): byte {
    if d % 2 == 0 then x % 256 else (x / 256) % 256
  }

  /** Byte j of a slot for an entry; bytes the writer never sets are zero here. */
  function SlotByte(e: Ent, j: nat): byte
    requires EntOk(e) && j < ENT_SIZE
  {
    match e
    case Short(n, attrib, cluster, size) =>
      if j < 11 then n[j]
      else if j == 11 then attrib
      else if 20 <= j < 22 then Half(cluster / 0x1_0000, j - 20)
      else if 26 <= j < 28 then Half(cluster % 0x1_0000, j - 26)
      else if 28 <= j < 30 then Half(size % 0x1_0000, j - 28)
      else if 30 <= j then Half(size / 0x1_0000, j - 30)
      else 0
    case Long(index, attrib, c) =>
      if j == 0 then index
      else if j < 11 then Half(c[(j - 1) / 2], j - 1)
      else if j == 11 then attrib
      else if 14 <= j < 26 then Half(c[5 + (j - 14) / 2], j - 14)
      else if 28 <= j then Half(c[11 + (j - 28) / 2], j - 28)
      else 0
    case Unused => if j == 0 then UNUSED_ENTRY else 0
    case Last => 0
  }

  function SlotOf(e: Ent): (slot: seq<byte>)
    requires EntOk(e)
    ensures |slot| == ENT_SIZE
    ensures forall j {:trigger slot[j]} :: 0 <= j < ENT_SIZE ==> slot[j] == SlotByte(e, j)
  {
    seq(ENT_SIZE, j requires 0 <= j < ENT_SIZE => SlotByte(e, j))
  }

  /** Every entry has a slot. */
  lemma SlotOfEncodes(e: Ent)
    requires EntOk(e)
    ensures Encodes(SlotOf(e), e)
  {
    match e
    case Short(n, attrib, cluster, size) =>
      ShortFields(e);
      assert SlotOf(e)[..SHORTNAME_LEN] == n;
    case Long(index, attrib, chars) =>
      forall j | 0 <= j < LONG_CHARS_PER_ENTRY
        ensures U16(SlotOf(e), CharOffset(j)) == chars[j]
      {
        LongField(e, j);
      }
    case Unused =>
    case Last =>
  }

  lemma Halves(x: nat)
    requires x < 0x1_0000
    ensures (Half(x, 0) as int) + 256 * (Half(x, 1) as int) == x
  {
  }

  lemma ShortFields(e: Ent)
    requires e.Short? && EntOk(e)
    ensures var slot := SlotOf(e);
            && U16(slot, 20) == e.cluster / 0x1_0000 && U16(slot, 26) == e.cluster % 0x1_0000
            && U32(slot, 22) == 0 && U32(slot, 28) == e.size
  {
    Halves(e.cluster / 0x1_0000);
    Halves(e.cluster % 0x1_0000);
    Halves(e.size / 0x1_0000);
    Halves(e.size % 0x1_0000);
  }

  lemma LongField(e: Ent, j: nat)
    requires e.Long? && EntOk(e) && j < LONG_CHARS_PER_ENTRY
    ensures U16(SlotOf(e), CharOffset(j)) == e.chars[j]
  {
    var off := CharOffset(j);
    assert SlotByte(e, off) == Half(e.chars[j], 0);
    assert SlotByte(e, off + 1) == Half(e.chars[j], 1);
    Halves(e.chars[j]);
  }
}
