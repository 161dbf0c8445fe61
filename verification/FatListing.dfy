/** What the reader makes of a directory the writer laid out, slot by slot. */
module FatListing {
  import opened Bytes
  import opened Common
  import opened FatEntries
  import opened FatLayout
  import opened FatReader

  // ---- names as read ----

  /** Characters of the c-th piece of a name from the j-th on, as far as the reader takes them. */
  function Chars(n: name, c: nat, j: nat): (r: name)
    requires j <= LONG_CHARS_PER_ENTRY
    decreases |n|, LONG_CHARS_PER_ENTRY - j
  {
    if j == LONG_CHARS_PER_ENTRY then []
    else
      var x := LongChar(n, c, j);
      if x == 0xFFFF || x == 0 then [] else [x % 256] + Chars(n, c, j + 1)
  }

  /** The name read back from its pieces, the c-th on. */
  function Pieces(n: name, c: nat): (r: name)
    requires c <= LongCount(n)
    decreases LongCount(n) - c
  {
    if c == LongCount(n) then [] else Chars(n, c, 0) + Pieces(n, c + 1)
  }

  /** The long entries and the short one fit in a sector. */
  predicate Fits(n: name) {
    1 <= LongCount(n) < ENTS_PER_SECT
  }

  /** The name under which the reader lists an item. */
  function ReadName(n: name): name {
    if Fits(n) then Pieces(n, 0) else TrimRight(ShortName(n))
  }

  /** Looks like the directory's end. */
  predicate Ends(n: name) {
    !Fits(n) && ShortName(n)[0] == 0
  }

  /** Looks like an unused entry. */
  predicate Hides(n: name) {
    !Fits(n) && ShortName(n)[0] == UNUSED_ENTRY
  }

  function Block(sector: nat): nat {
    if Cluster(sector) != 0 then Cluster(sector) else 2
  }

  function Listed(it: Item): Dirent {
    Dirent(Type(it.attrib), ReadName(it.name), Block(it.sector), it.size, it.attrib, 0)
  }

  /** The entries the reader finds for a directory's items. */
  function Seen(items: seq<Item>): (ds: seq<Dirent>)
    ensures |ds| <= |items|
  {
    if items == [] || Ends(items[0].name) then []
    else if Hides(items[0].name) then Seen(items[1..])
    else [Listed(items[0])] + Seen(items[1..])
  }

  // ---- positions in a directory ----

  /** The listing from the p-th slot of a directory on. */
  function At(disk: Disk, base: nat, p: nat): Option<seq<Dirent>>
    requires DiskOk(disk)
  {
    ListFrom(disk, base + p / ENTS_PER_SECT, p % ENTS_PER_SECT)
  }

  /** The slot at position p is in sector s, number i. */
  predicate InSlot(base: nat, p: nat, s: nat, i: nat) {
    i < ENTS_PER_SECT && s >= base && p == ENTS_PER_SECT * (s - base) + i
  }

  ghost predicate TableOn(disk: Disk, base: nat, ents: seq<Ent>) {
    DiskOk(disk) && TableAt(disk.image, SECT_SIZE * base, ents)
  }

  lemma SlotIs(disk: Disk, base: nat, ents: seq<Ent>, p: nat, s: nat, i: nat)
    requires TableOn(disk, base, ents) && p < |ents| && InSlot(base, p, s, i)
    ensures ReadSector(disk, s).Some? && Encodes(Slot(ReadSector(disk, s).value, i), ents[p])
  {
    var at := SECT_SIZE * base + ENT_SIZE * p;
    assert Encodes(disk.image[at..at + ENT_SIZE], ents[p]);
    SliceOfSlice(disk.image, disk.after, SECT_SIZE * s, SECT_SIZE, ENT_SIZE * i, ENT_SIZE);
  }

  lemma SliceOfSlice<T>(a: seq<T>, b: seq<T>, from: nat, len: nat, o: nat, n: nat)
    requires from + len <= |a| + |b| && o + n <= len && from + o + n <= |a|
    ensures (a + b)[from..from + len][o..o + n] == a[from + o..from + o + n]
  {
    var ab := a + b;
    var m := ab[from..from + len];
    var x, y := m[o..o + n], a[from + o..from + o + n];
    forall k | 0 <= k < n
      ensures x[k] == y[k]
    {
      assert m[o + k] == ab[from + (o + k)];
    }
  }

  // ---- how a listing goes on after one slot ----

  lemma EndStep(disk: Disk, s: nat, i: nat)
    requires DiskOk(disk) && ReadSector(disk, s).Some? && i < ENTS_PER_SECT
    requires VisitSlot(ReadSector(disk, s).value, i) == End
    ensures ListFrom(disk, s, i) == Some([])
  {
  }

  lemma StopStep(disk: Disk, s: nat, i: nat)
    requires DiskOk(disk) && ReadSector(disk, s).Some? && i < ENTS_PER_SECT
    requires VisitSlot(ReadSector(disk, s).value, i) == Stop
    ensures ListFrom(disk, s, i) == ListFrom(disk, s + 1, 0)
  {
    PrependNothing(ListFrom(disk, s + 1, 0));
  }

  lemma GoOn(disk: Disk, s: nat, i: nat, found: seq<Dirent>, next: nat)
    requires DiskOk(disk) && ReadSector(disk, s).Some? && i < ENTS_PER_SECT && next < ENTS_PER_SECT
    requires VisitSlot(ReadSector(disk, s).value, i) == Go(found, next)
    ensures ListFrom(disk, s, i) == Prepend(found, ListFrom(disk, s, next))
  {
    var (rest, last) := Scan(ReadSector(disk, s).value, next);
    PrependTwice(found, rest, ListFrom(disk, s + 1, 0));
  }

  lemma GoOver(disk: Disk, s: nat, i: nat, found: seq<Dirent>)
    requires DiskOk(disk) && ReadSector(disk, s).Some? && i < ENTS_PER_SECT
    requires VisitSlot(ReadSector(disk, s).value, i) == Go(found, ENTS_PER_SECT)
    ensures ListFrom(disk, s, i) == Prepend(found, ListFrom(disk, s + 1, 0))
  {
    assert Scan(ReadSector(disk, s).value, i).0 == found;
  }

  lemma AtIs(disk: Disk, base: nat, p: nat, s: nat, i: nat)
    requires DiskOk(disk) && InSlot(base, p, s, i)
    ensures At(disk, base, p) == ListFrom(disk, s, i)
  {
    SlotNumbers(base, p, s, i);
  }

  lemma SlotNumbers(base: nat, p: nat, s: nat, i: nat)
    requires InSlot(base, p, s, i)
    ensures base + p / ENTS_PER_SECT == s && p % ENTS_PER_SECT == i
  {
  }

  ghost predicate Visits(disk: Disk, base: nat, p: nat, s: nat, i: nat, v: Visit) {
    && DiskOk(disk) && InSlot(base, p, s, i)
    && ReadSector(disk, s).Some? && VisitSlot(ReadSector(disk, s).value, i) == v
  }

  lemma AfterEnd(disk: Disk, base: nat, p: nat, s: nat, i: nat)
    requires Visits(disk, base, p, s, i, End)
    ensures At(disk, base, p) == Some([])
  {
    AtIs(disk, base, p, s, i);
    EndStep(disk, s, i);
  }

  lemma AfterStop(disk: Disk, base: nat, p: nat, s: nat, i: nat, q: nat)
    requires Visits(disk, base, p, s, i, Stop) && q == p + ENTS_PER_SECT - i
    ensures At(disk, base, p) == At(disk, base, q)
  {
    assert At(disk, base, p) == ListFrom(disk, s + 1, 0) by {
      AtIs(disk, base, p, s, i);
      StopStep(disk, s, i);
    }
    AtIs(disk, base, q, s + 1, 0);
  }

  lemma AfterGo(disk: Disk, base: nat, p: nat, s: nat, i: nat, found: seq<Dirent>, next: nat, q: nat)
    requires Visits(disk, base, p, s, i, Go(found, next)) && i < next <= ENTS_PER_SECT && q == p + next - i
    ensures At(disk, base, p) == Prepend(found, At(disk, base, q))
  {
    AtIs(disk, base, p, s, i);
    if next < ENTS_PER_SECT {
      GoOn(disk, s, i, found, next);
      AtIs(disk, base, q, s, next);
    } else {
      GoOver(disk, s, i, found);
      AtIs(disk, base, q, s + 1, 0);
    }
  }

  lemma Locate(base: nat, p: nat) returns (s: nat, i: nat)
    ensures InSlot(base, p, s, i)
  {
    s, i := base + p / ENTS_PER_SECT, p % ENTS_PER_SECT;
  }

  // ---- one entry ----

  lemma PassUnused(disk: Disk, base: nat, ents: seq<Ent>, p: nat)
    requires TableOn(disk, base, ents) && p < |ents| && ents[p] == Unused
    ensures At(disk, base, p) == At(disk, base, p + 1)
  {
    var s, i := Locate(base, p);
    SlotIs(disk, base, ents, p, s, i);
    AfterGo(disk, base, p, s, i, [], i + 1, p + 1);
    PrependNothing(At(disk, base, p + 1));
  }

  lemma MeetLast(disk: Disk, base: nat, ents: seq<Ent>, p: nat)
    requires TableOn(disk, base, ents) && p < |ents|
    requires ents[p] == Last || (ents[p].Short? && ents[p].shortname != [] && ents[p].shortname[0] == 0)
    ensures At(disk, base, p) == Some([])
  {
    var s, i := Locate(base, p);
    SlotIs(disk, base, ents, p, s, i);
    AfterEnd(disk, base, p, s, i);
  }

  /** What a short entry stands for, under a name. */
  function Shown(e: Ent, n: name): Dirent
    requires e.Short?
  {
    Dirent(Type(e.attrib), n, if e.cluster != 0 then e.cluster else 2, e.size, e.attrib, 0)
  }

  lemma ShownIs(slot: seq<byte>, e: Ent, n: name)
    requires e.Short? && Encodes(slot, e)
    ensures DirentOf(slot, n) == Shown(e, n)
  {
  }

  lemma PassHidden(disk: Disk, base: nat, ents: seq<Ent>, p: nat)
    requires TableOn(disk, base, ents) && p < |ents|
    requires ents[p].Short? && ents[p].shortname != [] && ents[p].shortname[0] == UNUSED_ENTRY
    ensures At(disk, base, p) == At(disk, base, p + 1)
  {
    var s, i := Locate(base, p);
    SlotIs(disk, base, ents, p, s, i);
    AfterGo(disk, base, p, s, i, [], i + 1, p + 1);
    PrependNothing(At(disk, base, p + 1));
  }

  lemma MeetShort(disk: Disk, base: nat, ents: seq<Ent>, p: nat)
    requires TableOn(disk, base, ents) && p < |ents| && ents[p].Short? && ents[p].shortname != []
    requires ents[p].shortname[0] != 0 && ents[p].shortname[0] != UNUSED_ENTRY && ents[p].attrib % 16 != 15
    ensures At(disk, base, p) == Prepend([Shown(ents[p], TrimRight(ents[p].shortname))], At(disk, base, p + 1))
  {
    var s, i := Locate(base, p);
    SlotIs(disk, base, ents, p, s, i);
    var slot := Slot(ReadSector(disk, s).value, i);
    ShownIs(slot, ents[p], TrimRight(ents[p].shortname));
    AfterGo(disk, base, p, s, i, [Shown(ents[p], TrimRight(ents[p].shortname))], i + 1, p + 1);
  }

  lemma PassLong(disk: Disk, base: nat, ents: seq<Ent>, p: nat)
    requires TableOn(disk, base, ents) && p < |ents| && ents[p].Long?
    requires 1 <= ents[p].index < 64 && ents[p].attrib % 16 == 15
    ensures At(disk, base, p) == At(disk, base, p + 1)
  {
    var s, i := Locate(base, p);
    SlotIs(disk, base, ents, p, s, i);
    AfterGo(disk, base, p, s, i, [], i + 1, p + 1);
    PrependNothing(At(disk, base, p + 1));
  }

  /** A name that would run past its sector makes the reader drop the rest of the sector. */
  lemma SkipChain(disk: Disk, base: nat, ents: seq<Ent>, p: nat, s: nat, i: nat)
    requires TableOn(disk, base, ents) && p < |ents| && ents[p].Long? && InSlot(base, p, s, i)
    requires 64 <= ents[p].index < 128 && ents[p].attrib % 16 == 15
    requires i + ents[p].index - 64 >= ENTS_PER_SECT
    ensures At(disk, base, p) == At(disk, base, p + ENTS_PER_SECT - i)
  {
    SlotIs(disk, base, ents, p, s, i);
    AfterStop(disk, base, p, s, i, p + ENTS_PER_SECT - i);
  }

  // ---- long names ----

  lemma {:induction false} PieceIs(slot: seq<byte>, n: name, attrib: byte, c: nat, j: nat)
    requires Encodes(slot, LongEnt(n, attrib, c)) && j <= LONG_CHARS_PER_ENTRY
    ensures Piece(slot, j) == Chars(n, c, j)
    decreases LONG_CHARS_PER_ENTRY - j
  {
    if j < LONG_CHARS_PER_ENTRY {
      assert U16(slot, CharOffset(j)) == LongChunk(n, c)[j] == LongChar(n, c, j);
      PieceIs(slot, n, attrib, c, j + 1);
    }
  }

  /** The slots from number i of a sector on hold the long entries of a name. */
  ghost predicate ChainAt(sect: seq<byte>, i: nat, longs: seq<Ent>) {
    && |sect| == SECT_SIZE && i + |longs| < ENTS_PER_SECT
    && forall t {:trigger longs[t]} :: 0 <= t < |longs| ==> Encodes(Slot(sect, i + t), longs[t])
  }

  lemma {:induction false} LongNameIs(sect: seq<byte>, i: nat, n: name, attrib: byte, longs: seq<Ent>, total: nat)
    requires longs == LongEnts(n, attrib) && ChainAt(sect, i, longs) && total <= LongCount(n)
    ensures LongName(sect, i, total) == Pieces(n, LongCount(n) - total)
    decreases total
  {
    if total == 0 {
    } else {
      var t, c := total - 1, LongCount(n) - total;
      assert Piece(Slot(sect, i + t), 0) == Chars(n, c, 0) by {
        assert longs[t] == LongEnt(n, attrib, c);
        PieceIs(Slot(sect, i + t), n, attrib, c, 0);
      }
      LongNameIs(sect, i, n, attrib, longs, t);
      LongNameCons(sect, i, t);
      PiecesStep(n, c);
    }
  }

  lemma LongNameCons(sect: seq<byte>, i: nat, t: nat)
    requires |sect| == SECT_SIZE && i + t < ENTS_PER_SECT
    ensures LongName(sect, i, t + 1) == Piece(Slot(sect, i + t), 0) + LongName(sect, i, t)
  {
  }

  lemma PiecesStep(n: name, c: nat)
    requires c < LongCount(n)
    ensures Pieces(n, c) == Chars(n, c, 0) + Pieces(n, c + 1)
  {
  }

  /** The entries from position p on are those of a long name and a short entry. */
  ghost predicate NameAt(ents: seq<Ent>, p: nat, longs: seq<Ent>) {
    && p + |longs| < |ents| && ents[p + |longs|].Short?
    && forall t {:trigger longs[t]} :: 0 <= t < |longs| ==> ents[p + t] == longs[t]
  }

  lemma ChainOn(disk: Disk, base: nat, ents: seq<Ent>, p: nat, s: nat, i: nat, longs: seq<Ent>)
    requires TableOn(disk, base, ents) && InSlot(base, p, s, i) && NameAt(ents, p, longs)
    requires i + |longs| < ENTS_PER_SECT
    requires ReadSector(disk, s).Some?
    ensures ChainAt(ReadSector(disk, s).value, i, longs)
  {
    var sect := ReadSector(disk, s).value;
    forall t {:trigger longs[t]} | 0 <= t < |longs|
      ensures Encodes(Slot(sect, i + t), longs[t])
    {
      SlotIs(disk, base, ents, p + t, s, i + t);
    }
  }

  lemma MarkedSlot(slot: seq<byte>, n: name, attrib: byte, c: nat)
    requires c == LongCount(n) && 1 <= c < 64 && Encodes(slot, LongEnt(n, attrib, c - 1))
    ensures slot[0] == 64 + c && IsLongname(slot) && IsLast(slot)
  {
  }

  lemma VisitMarked(sect: seq<byte>, i: nat, c: nat)
    requires |sect| == SECT_SIZE && i + c < ENTS_PER_SECT
    requires Slot(sect, i)[0] == 64 + c && IsLongname(Slot(sect, i)) && IsLast(Slot(sect, i))
    ensures VisitSlot(sect, i) == Go([DirentOf(Slot(sect, i + c), LongName(sect, i, c))], i + c + 1)
  {
  }

  lemma FirstOfChain(sect: seq<byte>, i: nat, n: name, attrib: byte, c: nat)
    requires c == LongCount(n) && c >= 1 && ChainAt(sect, i, LongEnts(n, attrib))
    ensures VisitSlot(sect, i) == Go([DirentOf(Slot(sect, i + c), LongName(sect, i, c))], i + c + 1)
  {
    assert Encodes(Slot(sect, i + 0), LongEnts(n, attrib)[0]);
    MarkedSlot(Slot(sect, i), n, attrib, c);
    VisitMarked(sect, i, c);
  }

  lemma ChainVisit(sect: seq<byte>, i: nat, e: Ent, n: name, attrib: byte, c: nat)
    requires c == LongCount(n) && c >= 1 && ChainAt(sect, i, LongEnts(n, attrib))
    requires e.Short? && Encodes(Slot(sect, i + c), e)
    ensures VisitSlot(sect, i) == Go([Shown(e, Pieces(n, 0))], i + c + 1)
  {
    FirstOfChain(sect, i, n, attrib, c);
    LongNameIs(sect, i, n, attrib, LongEnts(n, attrib), c);
    ShownIs(Slot(sect, i + c), e, Pieces(n, 0));
  }

  lemma ChainVisits(disk: Disk, base: nat, ents: seq<Ent>, p: nat, s: nat, i: nat, n: name, attrib: byte, c: nat)
    requires TableOn(disk, base, ents) && InSlot(base, p, s, i) && NameAt(ents, p, LongEnts(n, attrib))
    requires c == LongCount(n) && 1 <= c && i + c < ENTS_PER_SECT
    ensures Visits(disk, base, p, s, i, Go([Shown(ents[p + c], Pieces(n, 0))], i + c + 1))
  {
    SlotIs(disk, base, ents, p + c, s, i + c);
    ChainOn(disk, base, ents, p, s, i, LongEnts(n, attrib));
    ChainVisit(ReadSector(disk, s).value, i, ents[p + c], n, attrib, c);
  }

  /** A name whose entries are all in one sector is read in one go. */
  lemma ReadChain(disk: Disk, base: nat, ents: seq<Ent>, p: nat, s: nat, i: nat, n: name, attrib: byte, c: nat)
    requires TableOn(disk, base, ents) && InSlot(base, p, s, i) && NameAt(ents, p, LongEnts(n, attrib))
    requires c == LongCount(n) && 1 <= c && i + c < ENTS_PER_SECT
    ensures At(disk, base, p) == Prepend([Shown(ents[p + c], Pieces(n, 0))], At(disk, base, p + c + 1))
  {
    ChainVisits(disk, base, ents, p, s, i, n, attrib, c);
    AfterGo(disk, base, p, s, i, [Shown(ents[p + c], Pieces(n, 0))], i + c + 1, p + c + 1);
  }

  // ---- a directory without its sectors ----

  /** What the listing from position p on owes to the entry there. */
  ghost predicate StepOk(view: seq<Option<seq<Dirent>>>, ents: seq<Ent>, p: nat)
    requires p < |ents| && |view| > |ents| + ENTS_PER_SECT
  {
    match ents[p]
    case Last => view[p] == Some([])
    case Unused => view[p] == view[p + 1]
    case Short(n, attrib, _, _) =>
      n != [] && attrib % 16 != 15 ==>
        if n[0] == 0 then view[p] == Some([])
        else if n[0] == UNUSED_ENTRY then view[p] == view[p + 1]
        else view[p] == Prepend([Shown(ents[p], TrimRight(n))], view[p + 1])
    case Long(index, attrib, _) =>
      attrib % 16 == 15 ==>
        && (1 <= index < 64 ==> view[p] == view[p + 1])
        && (64 <= index < 128 && p % ENTS_PER_SECT + index - 64 >= ENTS_PER_SECT ==>
              view[p] == view[p + ENTS_PER_SECT - p % ENTS_PER_SECT])
  }

  /** What it owes to a long name that starts there. */
  ghost predicate ChainOk(view: seq<Option<seq<Dirent>>>, ents: seq<Ent>, p: nat, n: name, attrib: byte)
    requires NameAt(ents, p, LongEnts(n, attrib)) && |view| > |ents| + ENTS_PER_SECT
  {
    var c := LongCount(n);
    1 <= c && p % ENTS_PER_SECT + c < ENTS_PER_SECT ==>
      view[p] == Prepend([Shown(ents[p + c], Pieces(n, 0))], view[p + c + 1])
  }

  /** The listings from every position of a directory with these entries. */
  ghost predicate Walk(view: seq<Option<seq<Dirent>>>, ents: seq<Ent>) {
    && |view| > |ents| + ENTS_PER_SECT
    && (forall p {:trigger ents[p]} :: 0 <= p < |ents| ==> StepOk(view, ents, p))
    && (forall p: nat, n: name, attrib: byte {:trigger NameAt(ents, p, LongEnts(n, attrib))} ::
          NameAt(ents, p, LongEnts(n, attrib)) ==> ChainOk(view, ents, p, n, attrib))
  }

  ghost predicate IsView(view: seq<Option<seq<Dirent>>>, disk: Disk, base: nat) {
    DiskOk(disk) && forall p {:trigger view[p]} :: 0 <= p < |view| ==> view[p] == At(disk, base, p)
  }

  lemma StepHolds(view: seq<Option<seq<Dirent>>>, disk: Disk, base: nat, ents: seq<Ent>, p: nat)
    requires TableOn(disk, base, ents) && IsView(view, disk, base) && p < |ents| && |view| > |ents| + ENTS_PER_SECT
    ensures StepOk(view, ents, p)
  {
    match ents[p]
    case Last => MeetLast(disk, base, ents, p);
    case Unused => PassUnused(disk, base, ents, p);
    case Short(n, attrib, _, _) =>
      if n != [] && attrib % 16 != 15 {
        if n[0] == 0 {
          MeetLast(disk, base, ents, p);
        } else if n[0] == UNUSED_ENTRY {
          PassHidden(disk, base, ents, p);
        } else {
          MeetShort(disk, base, ents, p);
        }
      }
    case Long(index, attrib, _) =>
      LongStepHolds(view, disk, base, ents, p);
  }

  lemma LongStepHolds(view: seq<Option<seq<Dirent>>>, disk: Disk, base: nat, ents: seq<Ent>, p: nat)
    requires TableOn(disk, base, ents) && IsView(view, disk, base) && p < |ents| && |view| > |ents| + ENTS_PER_SECT
    requires ents[p].Long?
    ensures StepOk(view, ents, p)
  {
    var index := ents[p].index;
    if ents[p].attrib % 16 == 15 {
      if 1 <= index < 64 {
        PassLong(disk, base, ents, p);
      } else if 64 <= index < 128 && p % ENTS_PER_SECT + index - 64 >= ENTS_PER_SECT {
        SkipChain(disk, base, ents, p, base + p / ENTS_PER_SECT, p % ENTS_PER_SECT);
      }
    }
  }

  lemma ChainHolds(view: seq<Option<seq<Dirent>>>, disk: Disk, base: nat, ents: seq<Ent>, p: nat, n: name, attrib: byte)
    requires TableOn(disk, base, ents) && IsView(view, disk, base) && |view| > |ents| + ENTS_PER_SECT
    requires NameAt(ents, p, LongEnts(n, attrib))
    ensures ChainOk(view, ents, p, n, attrib)
  {
    var c, s, i := LongCount(n), base + p / ENTS_PER_SECT, p % ENTS_PER_SECT;
    if 1 <= c && i + c < ENTS_PER_SECT {
      var found := [Shown(ents[p + c], Pieces(n, 0))];
      assert At(disk, base, p) == Prepend(found, At(disk, base, p + c + 1)) by {
        ReadChain(disk, base, ents, p, s, i, n, attrib, c);
      }
      assert view[p] == At(disk, base, p) && view[p + c + 1] == At(disk, base, p + c + 1);
    }
  }

  lemma MakeView(disk: Disk, base: nat, n: nat) returns (view: seq<Option<seq<Dirent>>>)
    requires DiskOk(disk)
    ensures IsView(view, disk, base) && |view| > n + ENTS_PER_SECT && view[0] == ListFrom(disk, base, 0)
  {
    view := seq(n + ENTS_PER_SECT + 1, p requires p >= 0 => At(disk, base, p));
  }

  /** Reading a directory from its sectors is walking over its entries. */
  lemma MakeWalk(disk: Disk, base: nat, ents: seq<Ent>) returns (view: seq<Option<seq<Dirent>>>)
    requires TableOn(disk, base, ents)
    ensures Walk(view, ents) && view[0] == ListFrom(disk, base, 0)
  {
    view := MakeView(disk, base, |ents|);
    forall p | 0 <= p < |ents|
      ensures StepOk(view, ents, p)
    {
      StepHolds(view, disk, base, ents, p);
    }
    forall p: nat, n: name, attrib: byte | NameAt(ents, p, LongEnts(n, attrib))
      ensures ChainOk(view, ents, p, n, attrib)
    {
      ChainHolds(view, disk, base, ents, p, n, attrib);
    }
  }
}
