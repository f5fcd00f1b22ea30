/** Handles that are not what they seem. Neither scratching a file nor formatting closes the channels that
    write to it, so a handle can point to entries that are erased or belong to another file. This says
    exactly which writes and closes through any handle keep the invariant (src/eeprom-fs.c). */
module EefsDangling {
  import opened Bits
  import opened EefsModel
  import opened EefsInvariant
  import opened EefsWrite
  import opened EefsFiles
  import opened EefsDelete
  import opened EefsMount

  // ---- What a caller can check -----------------------------------------------------------

  /** The write needs another sector, and there is one. */
  predicate Allocates(s: State, fh: Handle, bytes: seq<byte>)
    requires Usable(s, fh)
  {
    |bytes| > Room(fh.soffset) && Extend(s, fh).error == Ok
  }

  /** Number of sectors that an entry lists before its first free slot, counted from slot i on. */
  function Listed(e: Entry, i: nat): (r: nat)
    requires i <= MaxSectors(e)
    ensures r <= MaxSectors(e)
    decreases MaxSectors(e) - i
  {
    if i == MaxSectors(e) || e[i] == FREE then i else Listed(e, i + 1)
  }

  /** The handle stands at the end of some chain: its entry is live and the last one, and the slot it
      uses next is the first free one. */
  predicate Growable(s: State, fh: Handle)
    requires Usable(s, fh)
  {
    var e := s.dir[fh.curEntry];
    Live(e) && e[NEXT] == NONE && Listed(e, 0) == Min((fh.sindex + 1) % 256, MaxSectors(e))
  }

  /** A write that takes no sector, or takes it at the end of a chain. */
  predicate SafeWrite(s: State, fh: Handle, bytes: seq<byte>)
    requires Usable(s, fh)
  {
    !Allocates(s, fh, bytes) || Growable(s, fh)
  }

  // ---- Entries and their books ---------------------------------------------------------------

  lemma {:induction false} ListedCounts(e: Entry, sectors: seq<byte>, i: nat)
    requires Holds(e, sectors) && i <= |sectors| && forall m :: 0 <= m < |sectors| ==> sectors[m] != FREE
    ensures Listed(e, i) == |sectors|
    decreases |sectors| - i
  {
    if i < |sectors| {
      ListedCounts(e, sectors, i + 1);
    }
  }

  /** A live entry is a part of a file, and lists only sectors that are there and in use. */
  lemma PartOfFile(s: State, b: Books, i: nat)
    requires Inv(s, b) && i < |s.dir| && Live(s.dir[i])
    ensures i < |b.entryOwner| && b.entryOwner[i].Owned? && OwnsEntry(b, i)
    ensures var o := b.entryOwner[i]; var f := b.files[o.head];
            && PartOk(s.dir, f, o.index) && Listed(s.dir[i], 0) == |f[o.index].sectors|
            && forall m :: 0 <= m < |f[o.index].sectors| ==> SectorInUse(s, f[o.index].sectors[m])
  {
    hide Sectors, CountFree, NamesOk, Listed;
    var o := b.entryOwner[i];
    assert OwnsEntry(b, i);
    var f := b.files[o.head];
    assert PartOk(s.dir, f, o.index);
    var sectors := f[o.index].sectors;
    forall m | 0 <= m < |sectors| ensures SectorInUse(s, sectors[m]) {
      PlaceInUnique(f, o.index, m);
    }
    ListedCounts(s.dir[i], sectors, 0);
  }

  predicate SectorInUse(s: State, k: byte) {
    k as int < |s.data| && k as int < |s.usedSectors| && s.usedSectors[k] && k != FREE
  }

  lemma LiveIsUsed(s: State, b: Books, i: nat)
    requires Inv(s, b) && i < |s.dir| && Live(s.dir[i])
    ensures i < |s.usedEntries| && s.usedEntries[i]
  {
    hide Sectors, CountFree, NamesOk, SectorsOk, FilesOk;
  }

  /** The only place of a listed sector. */
  lemma OnePlace(s: State, b: Books, i: nat, m: nat, i2: nat, m2: nat)
    requires Inv(s, b) && i < |s.dir| && Live(s.dir[i]) && m < MaxSectors(s.dir[i]) && s.dir[i][m] as int < |s.data|
    requires i2 < |s.dir| && Live(s.dir[i2]) && m2 < MaxSectors(s.dir[i2]) && s.dir[i2][m2] == s.dir[i][m]
    ensures i == i2 && m == m2 && s.usedSectors[s.dir[i][m]]
  {
    hide Inv, PlaceOf;
    SlotIsPlace(s, b, i, m);
    SlotIsPlace(s, b, i2, m2);
  }

  /** A link leads to a live list entry that is marked, and no other link leads there. */
  lemma OneLink(s: State, b: Books, i: nat)
    requires Inv(s, b) && i < |s.dir| && Live(s.dir[i]) && s.dir[i][NEXT] != NONE
    ensures var e := s.dir[i][NEXT];
            && e as int < |s.dir| && Live(s.dir[e]) && IsList(s.dir[e]) && s.usedEntries[e]
            && Listed(s.dir[i], 0) == MaxSectors(s.dir[i])
            && forall i2 :: 0 <= i2 < |s.dir| && Live(s.dir[i2]) && s.dir[i2][NEXT] == e ==> i2 == i
  {
    hide Sectors, CountFree, NamesOk, SectorsOk, Listed;
    PartOfFile(s, b, i);
    var o, e := b.entryOwner[i], s.dir[i][NEXT];
    assert PartOk(s.dir, b.files[o.head], o.index + 1);
    forall i2 | 0 <= i2 < |s.dir| && Live(s.dir[i2]) && s.dir[i2][NEXT] == e ensures i2 == i {
      PartOfFile(s, b, i2);
      var o2 := b.entryOwner[i2];
      assert PartOk(s.dir, b.files[o2.head], o2.index + 1);
    }
  }

  // ---- Growing at the end of a chain --------------------------------------------------------------

  lemma GrowableGrows(s: State, b: Books, fh: Handle) returns (c: Books)
    requires Inv(s, b) && Usable(s, fh) && Growable(s, fh) && Extend(s, fh).error == Ok
    ensures var x := Extend(s, fh); Usable(x.s, x.fh) && Inv(x.s, c) && Growable(x.s, x.fh)
  {
    hide Inv, Sectors, Listed, NextFree, Extend;
    ExtendUsable(s, fh);
    PartOfFile(s, b, fh.curEntry as int);
    var x, h := Extend(s, fh), b.entryOwner[fh.curEntry].head;
    EndOfChain(s, b, fh, h);
    GrowableShape(s, b, fh, h);
    LiveIsUsed(s, b, fh.curEntry as int);
    if x.fh.curEntry == fh.curEntry {
      GrowInPlace(s, b, h, x.fh.sector);
      c := AddSector(b, h, x.fh.sector);
    } else {
      LinkNewPart(s, b, h, x.fh.curEntry, x.fh.sector);
      c := AddPart(b, h, x.fh.curEntry, x.fh.sector);
    }
    StillGrowable(s, fh, x, b.files[h], c.files[h]);
    LastOfChain(x.s, c, h);
  }

  lemma GrowableShape(s: State, b: Books, fh: Handle, h: byte)
    requires Inv(s, b) && Usable(s, fh) && Growable(s, fh) && Extend(s, fh).error == Ok
    requires fh.curEntry as int < |b.entryOwner| && b.entryOwner[fh.curEntry].Owned? && b.entryOwner[fh.curEntry].head == h
    ensures var x := Extend(s, fh); var k := x.fh.sector;
            && k as int < |s.usedSectors| && !s.usedSectors[k]
            && (if x.fh.curEntry == fh.curEntry then Roomy(s, b, h, k) && x.s == GrownState(s, b, h, k)
                else Full(s, b, h, x.fh.curEntry, k) && x.s == LinkedState(s, b, h, x.fh.curEntry, k))
  {
    hide Sectors, CountFree, NextFree, NamesOk, Listed;
    EndOfChain(s, b, fh, h);
    NextFreeFrom(s.usedSectors, fh.sector);
    NextFreeFrom(s.usedEntries, fh.curEntry);
  }

  /** The last entry of a chain. */
  lemma LastOfChain(s: State, b: Books, h: byte)
    requires Inv(s, b) && h in b.files
    ensures |b.files[h]| > 0
    ensures var last := b.files[h][|b.files[h]| - 1];
            && last.entry as int < |s.dir| && Live(s.dir[last.entry]) && s.dir[last.entry][NEXT] == NONE
            && Listed(s.dir[last.entry], 0) == |last.sectors| <= MaxSectors(s.dir[last.entry])
  {
    hide Sectors, CountFree, NamesOk, SectorsOk, Listed;
    FirstEntry(s, b, h);
    var f := b.files[h];
    assert PartOk(s.dir, f, |f| - 1);
    PartOfFile(s, b, f[|f| - 1].entry as int);
  }

  lemma EndOfChain(s: State, b: Books, fh: Handle, h: byte)
    requires Inv(s, b) && Usable(s, fh) && Growable(s, fh)
    requires fh.curEntry as int < |b.entryOwner| && b.entryOwner[fh.curEntry].Owned? && b.entryOwner[fh.curEntry].head == h
    ensures h in b.files && |b.files[h]| > 0 && b.entryOwner[fh.curEntry].index == |b.files[h]| - 1
    ensures b.files[h][|b.files[h]| - 1].entry == fh.curEntry
    ensures |b.files[h][|b.files[h]| - 1].sectors| == Listed(s.dir[fh.curEntry], 0)
  {
    hide Sectors, CountFree, NamesOk, SectorsOk, Listed;
    PartOfFile(s, b, fh.curEntry as int);
  }

  /** The new sector is in the last slot in use of the last entry. */
  lemma StillGrowable(s: State, fh: Handle, x: Stepped, f: File, g: File)
    requires Usable(s, fh) && Growable(s, fh) && x == Extend(s, fh) && x.error == Ok
    requires |f| > 0 && f[|f| - 1].entry == fh.curEntry && |f[|f| - 1].sectors| == Listed(s.dir[fh.curEntry], 0)
    requires g == if x.fh.curEntry == fh.curEntry then f[|f| - 1 := Part(fh.curEntry, f[|f| - 1].sectors + [x.fh.sector])]
                  else f + [Part(x.fh.curEntry, [x.fh.sector])]
    requires x.fh.curEntry as int < |s.usedEntries| && s.usedEntries[fh.curEntry]
    ensures g[|g| - 1].entry == x.fh.curEntry && |g[|g| - 1].sectors| == (x.fh.sindex + 1) % 256
  {
    hide NextFree, Listed;
    NextFreeFrom(s.usedEntries, fh.curEntry);
  }

  // ---- What a write elsewhere leaves behind ----------------------------------------------------------

  /** A sector marked as used that no live entry lists, a live list entry that no live entry links to, or
      a live entry with something behind a free slot. */
  datatype Flaw = LostSector(k: nat) | LostEntry(e: nat) | Hole(e: nat, slot: nat)

  predicate ListsNot(e: Entry, k: nat) {
    forall m :: 0 <= m < MaxSectors(e) ==> e[m] as nat != k
  }

  predicate HoleAt(e: Entry, slot: nat) {
    slot < MaxSectors(e) && e[slot] == FREE && (e[NEXT] != NONE || exists m :: slot < m < MaxSectors(e) && e[m] != FREE)
  }

  ghost predicate Flawed(s: State, flaw: Flaw) {
    s.Sized() &&
    match flaw
    case LostSector(k) => k < |s.data| && s.usedSectors[k] && forall e :: 0 <= e < |s.dir| && Live(s.dir[e]) ==> ListsNot(s.dir[e], k)
    case LostEntry(e) =>
      && e < |s.dir| && s.usedEntries[e] && Live(s.dir[e]) && IsList(s.dir[e])
      && forall i :: 0 <= i < |s.dir| && Live(s.dir[i]) ==> s.dir[i][NEXT] as nat != e
    case Hole(e, slot) => e < |s.dir| && s.usedEntries[e] && Live(s.dir[e]) && HoleAt(s.dir[e], slot)
  }

  /** No state with a flaw has the invariant. */
  lemma FlawBreaks(s: State, b: Books, flaw: Flaw)
    requires Flawed(s, flaw)
    ensures !Inv(s, b)
  {
    if Inv(s, b) {
      match flaw
      case LostSector(k) => LostSectorBreaks(s, b, k);
      case LostEntry(e) => LostEntryBreaks(s, b, e);
      case Hole(e, slot) => HoleBreaks(s, b, e, slot);
    }
  }

  lemma LostSectorBreaks(s: State, b: Books, k: nat)
    requires Inv(s, b)
    ensures !Flawed(s, LostSector(k))
  {
    hide Inv, PlaceOf;
    if Flawed(s, LostSector(k)) {
      PlaceIsThere(s, b, k);
      assert false;
    }
  }

  lemma LostEntryBreaks(s: State, b: Books, e: nat)
    requires Inv(s, b)
    ensures !Flawed(s, LostEntry(e))
  {
    hide Inv, Listed;
    if Flawed(s, LostEntry(e)) {
      var i := Predecessor(s, b, e);
      assert false;
    }
  }

  /** A list entry is linked to. */
  lemma Predecessor(s: State, b: Books, e: nat) returns (i: nat)
    requires Inv(s, b) && e < |s.dir| && Live(s.dir[e]) && IsList(s.dir[e])
    ensures i < |s.dir| && Live(s.dir[i]) && s.dir[i][NEXT] as nat == e
  {
    hide Sectors, CountFree, NamesOk, SectorsOk, Listed;
    PartOfFile(s, b, e);
    var o := b.entryOwner[e];
    assert PartOk(s.dir, b.files[o.head], o.index - 1);
    i := b.files[o.head][o.index - 1].entry as nat;
  }

  lemma HoleBreaks(s: State, b: Books, e: nat, slot: nat)
    requires Inv(s, b)
    ensures !Flawed(s, Hole(e, slot))
  {
    hide Sectors, CountFree, NamesOk, SectorsOk, Listed;
    if Flawed(s, Hole(e, slot)) {
      PartOfFile(s, b, e);
    }
  }

  /** The handle will not fill the hole. */
  predicate Behind(fh: Handle, flaw: Flaw) {
    fh.sindex < 30 && (flaw.Hole? && fh.curEntry as nat == flaw.e ==> flaw.slot <= fh.sindex as nat)
  }

  /** Live entries are marked, flaw or not. */
  ghost predicate LiveMarked(s: State) {
    s.Sized() && forall i :: 0 <= i < |s.dir| && Live(s.dir[i]) ==> s.usedEntries[i]
  }

  /** Another sector does not mend a flaw. */
  lemma FlawStays(s: State, fh: Handle, flaw: Flaw)
    requires Usable(s, fh) && Flawed(s, flaw) && Behind(fh, flaw) && LiveMarked(s) && Extend(s, fh).error == Ok
    ensures var x := Extend(s, fh); Flawed(x.s, flaw) && LiveMarked(x.s) && Behind(x.fh, flaw)
  {
    hide Extend, Flawed;
    match flaw
    case LostSector(k) => LostSectorStays(s, fh, k);
    case LostEntry(e) => LostEntryStays(s, fh, e);
    case Hole(e, slot) => HoleStays(s, fh, e, slot);
  }

  /** What allocating does to the directory, entry by entry. */
  lemma Extended(s: State, fh: Handle, i: nat)
    requires Usable(s, fh) && i < |s.dir| && fh.sindex < 30 && Extend(s, fh).error == Ok
    ensures var x := Extend(s, fh); var d, e := s.dir[i], x.s.dir[i];
            && x.s.Sized() && |x.s.dir| == |s.dir| && |x.s.data| == |s.data|
            && x.fh.sector as int < |s.data| && !s.usedSectors[x.fh.sector] && x.s.usedSectors == s.usedSectors[x.fh.sector := true]
            && x.fh.sindex < 30
            && (if x.fh.curEntry == fh.curEntry && fh.sindex + 1 < MaxSectors(s.dir[fh.curEntry])
                then x.fh.sindex == fh.sindex + 1 && x.s.usedEntries == s.usedEntries
                     && e == if i == fh.curEntry as nat then d[x.fh.sindex := x.fh.sector] else d
                else x.fh.sindex == 0 && x.fh.curEntry as int < |s.dir| && !s.usedEntries[x.fh.curEntry] && x.s.usedEntries == s.usedEntries[x.fh.curEntry := true]
                     && e == if i == x.fh.curEntry as nat then FreshList()[0 := x.fh.sector]
                             else if i == fh.curEntry as nat then d[NEXT := x.fh.curEntry] else d)
  {
    hide NextFree;
    NextFreeFrom(s.usedSectors, fh.sector);
    NextFreeFrom(s.usedEntries, fh.curEntry);
  }

  lemma LostSectorStays(s: State, fh: Handle, k: nat)
    requires Usable(s, fh) && Flawed(s, LostSector(k)) && fh.sindex < 30 && LiveMarked(s) && Extend(s, fh).error == Ok
    ensures var x := Extend(s, fh); Flawed(x.s, LostSector(k)) && LiveMarked(x.s) && x.fh.sindex < 30
  {
    hide Extend;
    var x := Extend(s, fh);
    Extended(s, fh, 0);
    forall i | 0 <= i < |x.s.dir| && Live(x.s.dir[i]) ensures ListsNot(x.s.dir[i], k) && x.s.usedEntries[i] {
      Extended(s, fh, i);
    }
  }

  lemma LostEntryStays(s: State, fh: Handle, e: nat)
    requires Usable(s, fh) && Flawed(s, LostEntry(e)) && fh.sindex < 30 && LiveMarked(s) && Extend(s, fh).error == Ok
    ensures var x := Extend(s, fh); Flawed(x.s, LostEntry(e)) && LiveMarked(x.s) && x.fh.sindex < 30
  {
    hide Extend;
    var x := Extend(s, fh);
    Extended(s, fh, e);
    forall i | 0 <= i < |x.s.dir| && Live(x.s.dir[i]) ensures x.s.dir[i][NEXT] as nat != e && x.s.usedEntries[i] {
      Extended(s, fh, i);
    }
  }

  lemma HoleKept(e: Entry, slot: nat, at: nat, k: byte)
    requires HoleAt(e, slot) && at < 32
    ensures k != NONE && (slot < at < MaxSectors(e) || at == NEXT) ==> HoleAt(e[at := k], slot)
  {
    if k != NONE && (slot < at < MaxSectors(e) || at == NEXT) && e[NEXT] == NONE {
      var m :| slot < m < MaxSectors(e) && e[m] != FREE;
      assert e[at := k][m] != FREE;
    }
  }

  lemma HoleStays(s: State, fh: Handle, e: nat, slot: nat)
    requires Usable(s, fh) && Flawed(s, Hole(e, slot)) && Behind(fh, Hole(e, slot)) && LiveMarked(s) && Extend(s, fh).error == Ok
    ensures var x := Extend(s, fh); Flawed(x.s, Hole(e, slot)) && LiveMarked(x.s) && Behind(x.fh, Hole(e, slot))
  {
    hide Extend;
    var x := Extend(s, fh);
    Extended(s, fh, e);
    HoleKept(s.dir[e], slot, x.fh.sindex as nat, x.fh.sector);
    HoleKept(s.dir[e], slot, NEXT, x.fh.curEntry);
    forall i | 0 <= i < |x.s.dir| && Live(x.s.dir[i]) ensures x.s.usedEntries[i] {
      Extended(s, fh, i);
    }
  }

  // ---- Allocating through any handle -----------------------------------------------------------------

  /** A sector that is not in use is in no live entry; neither is an entry that is not in use linked to. */
  lemma Unlisted(s: State, b: Books, i: nat, k: nat)
    requires Inv(s, b) && i < |s.dir| && Live(s.dir[i])
    ensures k < |s.data| && !s.usedSectors[k] ==> ListsNot(s.dir[i], k)
    ensures k < |s.dir| && !s.usedEntries[k] ==> s.dir[i][NEXT] as nat != k
  {
    hide Inv, PlaceOf, Listed;
    Inside(s, b);
    if s.dir[i][NEXT] != NONE {
      OneLink(s, b, i);
    }
    forall m | 0 <= m < MaxSectors(s.dir[i]) && s.dir[i][m] as nat == k && k < |s.data| ensures s.usedSectors[k] {
      SlotIsPlace(s, b, i, m);
    }
  }

  /** Allocating for an entry that is not live: nothing leads to the sector, or to the new list entry. */
  lemma DeadFlawed(s: State, b: Books, fh: Handle) returns (flaw: Flaw)
    requires Inv(s, b) && Usable(s, fh) && !Live(s.dir[fh.curEntry]) && Extend(s, fh).error == Ok
    ensures var x := Extend(s, fh);
            && Flawed(x.s, flaw) && !flaw.Hole?
            && ((fh.sindex + 1) % 256 < MaxSectors(s.dir[fh.curEntry]) ==> flaw == LostSector(x.fh.sector as nat))
  {
    hide Inv, Listed, NextFree;
    NextFreeFrom(s.usedSectors, fh.sector);
    NextFreeFrom(s.usedEntries, fh.curEntry);
    var x := Extend(s, fh);
    forall i | 0 <= i < |s.dir| && Live(s.dir[i])
      ensures ListsNot(s.dir[i], x.fh.sector as nat)
      ensures x.fh.curEntry as int < |s.dir| && !s.usedEntries[x.fh.curEntry] ==> s.dir[i][NEXT] != x.fh.curEntry
    {
      Unlisted(s, b, i, x.fh.sector as nat);
      Unlisted(s, b, i, x.fh.curEntry as nat);
    }
    flaw := if (fh.sindex + 1) % 256 < MaxSectors(s.dir[fh.curEntry]) then LostSector(x.fh.sector as nat) else LostEntry(x.fh.curEntry as nat);
  }

  /** Allocating in the middle of a chain: what the slot held is lost, or a free slot stays in front. */
  lemma SlotFlawed(s: State, b: Books, fh: Handle) returns (flaw: Flaw)
    requires Inv(s, b) && Usable(s, fh) && Live(s.dir[fh.curEntry]) && !Growable(s, fh) && Extend(s, fh).error == Ok
    requires (fh.sindex + 1) % 256 < MaxSectors(s.dir[fh.curEntry])
    ensures var x := Extend(s, fh); Flawed(x.s, flaw) && (flaw.Hole? ==> flaw.slot < x.fh.sindex as nat)
  {
    hide Inv, NextFree, Listed;
    NextFreeFrom(s.usedSectors, fh.sector);
    var x, cur, e := Extend(s, fh), fh.curEntry as nat, s.dir[fh.curEntry];
    var n, at := Listed(e, 0), (fh.sindex + 1) % 256;
    ListedSlots(s, b, cur);
    LiveIsUsed(s, b, cur);
    if n < at {
      assert x.s.dir[cur][at] != FREE;
      flaw := Hole(cur, n);
    } else {
      if e[NEXT] != NONE {
        OneLink(s, b, cur);
      }
      var k := e[at] as nat;
      SlotIsPlace(s, b, cur, at as nat);
      forall i | 0 <= i < |s.dir| && Live(x.s.dir[i]) ensures ListsNot(x.s.dir[i], k) {
        forall m | 0 <= m < MaxSectors(x.s.dir[i]) ensures x.s.dir[i][m] as nat != k {
          if s.dir[i][m] as nat == k {
            OnePlace(s, b, cur, at as nat, i, m);
          }
        }
      }
      flaw := LostSector(k);
    }
  }

  /** The slots of a live entry: sectors in use, then free ones. */
  lemma ListedSlots(s: State, b: Books, i: nat)
    requires Inv(s, b) && i < |s.dir| && Live(s.dir[i])
    ensures var e, n := s.dir[i], Listed(s.dir[i], 0);
            && (forall m :: 0 <= m < n ==> SectorInUse(s, e[m]))
            && (forall m :: n <= m < MaxSectors(e) ==> e[m] == FREE)
  {
    hide Sectors, CountFree, NamesOk, Listed, FilesOk, EntriesOk, SectorsOk;
    PartOfFile(s, b, i);
  }

  /** A new list entry in the middle of a chain: the rest of the chain is lost, or a free slot stays in
      front of it. */
  lemma LinkFlawed(s: State, b: Books, fh: Handle) returns (flaw: Flaw)
    requires Inv(s, b) && Usable(s, fh) && Live(s.dir[fh.curEntry]) && !Growable(s, fh) && Extend(s, fh).error == Ok
    requires (fh.sindex + 1) % 256 >= MaxSectors(s.dir[fh.curEntry])
    ensures var x := Extend(s, fh); Flawed(x.s, flaw) && x.fh.sindex == 0 && (flaw.Hole? ==> x.fh.curEntry as nat != flaw.e)
  {
    hide Inv, NextFree, Listed;
    NextFreeFrom(s.usedSectors, fh.sector);
    NextFreeFrom(s.usedEntries, fh.curEntry);
    var x, cur, e := Extend(s, fh), fh.curEntry as nat, s.dir[fh.curEntry];
    ListedSlots(s, b, cur);
    LiveIsUsed(s, b, cur);
    if e[NEXT] == NONE {
      assert x.s.dir[cur] == e[NEXT := x.fh.curEntry];
      flaw := Hole(cur, Listed(e, 0));
    } else {
      OneLink(s, b, cur);
      flaw := LostEntry(e[NEXT] as nat);
    }
  }

  /** Not at the end of a chain, the next sector leaves a flaw. */
  lemma ElsewhereFlawed(s: State, b: Books, fh: Handle) returns (flaw: Flaw)
    requires Inv(s, b) && Usable(s, fh) && !Growable(s, fh) && Extend(s, fh).error == Ok
    ensures var x := Extend(s, fh); Usable(x.s, x.fh) && Flawed(x.s, flaw) && Behind(x.fh, flaw) && LiveMarked(x.s)
  {
    hide Inv, Flawed, Growable;
    ExtendUsable(s, fh);
    MarkedStays(s, b, fh);
    if !Live(s.dir[fh.curEntry]) {
      flaw := DeadFlawed(s, b, fh);
    } else if (fh.sindex + 1) % 256 < MaxSectors(s.dir[fh.curEntry]) {
      flaw := SlotFlawed(s, b, fh);
    } else {
      flaw := LinkFlawed(s, b, fh);
    }
  }

  lemma MarkedStays(s: State, b: Books, fh: Handle)
    requires Inv(s, b) && Usable(s, fh) && Extend(s, fh).error == Ok
    ensures LiveMarked(Extend(s, fh).s) && Extend(s, fh).fh.sindex < 30
  {
    hide Inv, NextFree;
    NextFreeFrom(s.usedSectors, fh.sector);
    NextFreeFrom(s.usedEntries, fh.curEntry);
    forall i | 0 <= i < |s.dir| && Live(s.dir[i]) ensures s.usedEntries[i] {
      LiveIsUsed(s, b, i);
    }
  }

  // ---- Whole writes --------------------------------------------------------------------------------------

  /** Only sector data differs. */
  predicate SameBooks(s: State, t: State) {
    t == s.(data := t.data) && |t.data| == |s.data|
  }

  lemma SameBooksInv(s: State, b: Books, t: State)
    requires Inv(s, b) && SameBooks(s, t)
    ensures Inv(t, b)
  {
    hide Inv;
    DataOnly(s, b, t);
  }

  /** Where the handle stands in the directory does not depend on data or offsets. */
  lemma SameSearch(s: State, fh: Handle, t: State, th: Handle)
    requires Usable(s, fh) && Usable(t, th) && SameBooks(s, t)
    requires th == fh.(size := th.size, offset := th.offset, soffset := th.soffset)
    ensures Extend(t, th).error == Extend(s, fh).error && (Growable(t, th) <==> Growable(s, fh))
  {
    hide NextFree, Listed;
  }

  /** The bytes that still fit are stored first. */
  lemma FirstPiece(s: State, fh: Handle, bytes: seq<byte>, count: nat)
    requires Usable(s, fh) && fh.soffset > 0 && |bytes| > Room(fh.soffset)
    ensures var n := Room(fh.soffset); var y := Store(s, fh, bytes[..n]);
            && Usable(y.s, y.fh) && y.fh.soffset == 0 && SameBooks(s, y.s) && n > 0
            && WriteLoop(s, fh, bytes, count) == WriteLoop(y.s, y.fh, bytes[n..], count + n)
  {
    hide Patch, WriteLoop;
    WriteLoopRound(s, fh, bytes, count);
  }

  /** A round that takes a sector. */
  lemma SectorRound(s: State, fh: Handle, bytes: seq<byte>, count: nat)
    requires Usable(s, fh) && fh.soffset == 0 && bytes != []
    ensures var x := Extend(s, fh); var n := Min(|bytes|, SECTOR_SIZE);
            if x.error != Ok then WriteLoop(s, fh, bytes, count) == Written(x.s, x.fh, count, x.error) && x.s == s
            else
              Usable(x.s, x.fh) && x.fh.soffset == 0 &&
              var y := Store(x.s, x.fh, bytes[..n]);
              && Usable(y.s, y.fh) && SameBooks(x.s, y.s) && (n < |bytes| ==> y.fh.soffset == 0)
              && y.fh.mode == fh.mode
              && WriteLoop(s, fh, bytes, count) == WriteLoop(y.s, y.fh, bytes[n..], count + n)
  {
    hide Patch, WriteLoop, NextFree;
    ExtendUsable(s, fh);
    WriteLoopRound(s, fh, bytes, count);
  }

  lemma {:induction false} GrowingLoop(s: State, b: Books, fh: Handle, bytes: seq<byte>, count: nat) returns (c: Books)
    requires Inv(s, b) && Usable(s, fh) && Growable(s, fh) && (fh.soffset == 0 || bytes == [])
    ensures Inv(WriteLoop(s, fh, bytes, count).s, c)
    decreases |bytes|
  {
    hide Inv, Growable, Extend, WriteLoop, Store;
    c := b;
    if bytes == [] {
      WriteLoopEnds(s, fh, bytes, count);
    } else {
      SectorRound(s, fh, bytes, count);
      var x := Extend(s, fh);
      if x.error == Ok {
        c := GrowableGrows(s, b, fh);
        var n := Min(|bytes|, SECTOR_SIZE);
        var y := Store(x.s, x.fh, bytes[..n]);
        SameBooksInv(x.s, c, y.s);
        StoredHandle(x.s, x.fh, bytes[..n]);
        SameSearch(x.s, x.fh, y.s, y.fh);
        c := GrowingLoop(y.s, c, y.fh, bytes[n..], count + n);
      }
    }
  }

  lemma StoredHandle(s: State, fh: Handle, bytes: seq<byte>)
    requires Usable(s, fh) && fh.soffset + |bytes| <= SECTOR_SIZE
    ensures var y := Store(s, fh, bytes);
            && y.fh == fh.(size := y.fh.size, offset := y.fh.offset, soffset := y.fh.soffset) && SameBooks(s, y.s)
            && forall k :: 0 <= k < |s.data| && k != fh.sector as int ==> y.s.data[k] == s.data[k]
  {
    hide Patch;
  }

  lemma {:induction false} FlawedLoop(s: State, fh: Handle, flaw: Flaw, bytes: seq<byte>, count: nat)
    requires Usable(s, fh) && Flawed(s, flaw) && Behind(fh, flaw) && LiveMarked(s) && (fh.soffset == 0 || bytes == [])
    ensures Flawed(WriteLoop(s, fh, bytes, count).s, flaw)
    decreases |bytes|, 1
  {
    hide Flawed, Extend, WriteLoop, Store;
    if bytes == [] {
      WriteLoopEnds(s, fh, bytes, count);
    } else {
      SectorRound(s, fh, bytes, count);
      if Extend(s, fh).error == Ok {
        FlawStays(s, fh, flaw);
        FlawStored(Extend(s, fh).s, Extend(s, fh).fh, flaw, bytes, count);
      }
    }
  }

  /** Storing bytes does not mend a flaw either. */
  lemma FlawStored(s: State, fh: Handle, flaw: Flaw, bytes: seq<byte>, count: nat)
    requires Usable(s, fh) && Flawed(s, flaw) && Behind(fh, flaw) && LiveMarked(s) && fh.soffset == 0 && bytes != []
    ensures var n := Min(|bytes|, SECTOR_SIZE); var y := Store(s, fh, bytes[..n]);
            Usable(y.s, y.fh) && Flawed(WriteLoop(y.s, y.fh, bytes[n..], count + n).s, flaw)
    decreases |bytes|, 0
  {
    hide Flawed, Extend, WriteLoop, Store;
    var n := Min(|bytes|, SECTOR_SIZE);
    var y := Store(s, fh, bytes[..n]);
    StoredHandle(s, fh, bytes[..n]);
    StoredUsable(s, fh, bytes[..n]);
    FlawSame(s, y.s, flaw);
    FlawedLoop(y.s, y.fh, flaw, bytes[n..], count + n);
  }

  lemma StoredUsable(s: State, fh: Handle, bytes: seq<byte>)
    requires Usable(s, fh) && fh.soffset == 0 && 0 < |bytes| <= SECTOR_SIZE
    ensures var y := Store(s, fh, bytes); Usable(y.s, y.fh) && (|bytes| == SECTOR_SIZE ==> y.fh.soffset == 0)
  {}

  lemma FlawSame(s: State, t: State, flaw: Flaw)
    requires Flawed(s, flaw) && LiveMarked(s) && SameBooks(s, t)
    ensures Flawed(t, flaw) && LiveMarked(t)
  {}

  /** A write that takes its first sector elsewhere than at the end of a chain. */
  lemma UnsafeFlawed(s: State, b: Books, fh: Handle, bytes: seq<byte>, count: nat) returns (flaw: Flaw)
    requires Inv(s, b) && Usable(s, fh) && !Growable(s, fh) && Extend(s, fh).error == Ok && fh.soffset == 0 && bytes != []
    ensures Flawed(WriteLoop(s, fh, bytes, count).s, flaw)
  {
    hide Inv, Flawed, Extend, WriteLoop, Store, Growable;
    SectorRound(s, fh, bytes, count);
    flaw := ElsewhereFlawed(s, b, fh);
    FlawStored(Extend(s, fh).s, Extend(s, fh).fh, flaw, bytes, count);
  }

  /** A write that takes no sector changes at most the data of the current one. */
  ghost predicate Quiet(s: State, fh: Handle, bytes: seq<byte>, w: Written) {
    && SameBooks(s, w.s) && w.fh.entry == fh.entry && w.fh.mode == fh.mode && fh.soffset < SECTOR_SIZE
    && (forall k :: 0 <= k < |s.data| && (k != fh.sector as int || fh.soffset == 0 || bytes == []) ==> w.s.data[k] == s.data[k])
    && (w.error == Ok <==> |bytes| <= Room(fh.soffset)) && (w.error == Ok ==> w.count == |bytes|) && w.count <= |bytes|
    && (w.error == Ok || w.error == DiskFull || w.error == DirFull)
    && (w.error == DiskFull ==> forall i :: 0 <= i < |s.usedSectors| ==> s.usedSectors[i])
    && (w.error == DirFull ==> forall i :: 0 <= i < |s.usedEntries| ==> s.usedEntries[i])
  }

  lemma QuietWrite(s: State, fh: Handle, bytes: seq<byte>)
    requires Usable(s, fh) && fh.mode == WriteMode && !Allocates(s, fh, bytes)
    ensures Quiet(s, fh, bytes, Write(s, fh, bytes))
  {
    hide Patch, WriteLoop, NextFree, Extend;
    if |bytes| <= Room(fh.soffset) {
      SmallWriteOnce(s, fh, bytes);
      if bytes != [] {
        StoredHandle(s, fh, bytes);
      }
    } else if fh.soffset == 0 {
      SectorRound(s, fh, bytes, 0);
      FullUp(s, fh);
    } else {
      var n := Room(fh.soffset);
      FirstPiece(s, fh, bytes, 0);
      StoredHandle(s, fh, bytes[..n]);
      var y := Store(s, fh, bytes[..n]);
      SameSearch(s, fh, y.s, y.fh);
      SectorRound(y.s, y.fh, bytes[n..], n);
      FullUp(y.s, y.fh);
    }
  }

  lemma FullUp(s: State, fh: Handle)
    requires Usable(s, fh) && Extend(s, fh).error != Ok
    ensures var x := Extend(s, fh);
            && x.s == s && (x.error == DiskFull || x.error == DirFull) && x.fh.entry == fh.entry && x.fh.mode == fh.mode
            && (x.error == DiskFull ==> forall i :: 0 <= i < |s.usedSectors| ==> s.usedSectors[i])
            && (x.error == DirFull ==> forall i :: 0 <= i < |s.usedEntries| ==> s.usedEntries[i])
  {
    NextFreeFrom(s.usedSectors, fh.sector);
    NextFreeFrom(s.usedEntries, fh.curEntry);
  }

  /** A write through any handle, whatever became of its file, leaves a file system with the invariant if
      and only if it takes no sector or takes it at the end of a chain. */
  lemma WriteSafeIff(s: State, b: Books, fh: Handle, bytes: seq<byte>)
    requires Inv(s, b) && Usable(s, fh) && fh.mode == WriteMode
    ensures SafeWrite(s, fh, bytes) <==> exists c :: Inv(Write(s, fh, bytes).s, c)
  {
    hide Inv, Growable, WriteLoop, Extend, Flawed, Store;
    var t := Write(s, fh, bytes).s;
    if !Allocates(s, fh, bytes) {
      QuietWrite(s, fh, bytes);
      SameBooksInv(s, b, t);
    } else {
      var n, y := 0, Stepped(s, fh, Ok);
      if fh.soffset > 0 {
        n := Room(fh.soffset);
        FirstPiece(s, fh, bytes, 0);
        y := Store(s, fh, bytes[..n]);
        StoredHandle(s, fh, bytes[..n]);
        SameSearch(s, fh, y.s, y.fh);
        SameBooksInv(s, b, y.s);
      }
      assert bytes[0..] == bytes;
      if Growable(s, fh) {
        var c := GrowingLoop(y.s, b, y.fh, bytes[n..], n);
        assert Inv(t, c);
      } else {
        var flaw := UnsafeFlawed(y.s, b, y.fh, bytes[n..], n);
        forall c ensures !Inv(t, c) {
          FlawBreaks(t, c, flaw);
        }
      }
    }
  }

  /** In particular a write through a handle whose entry has been erased keeps the invariant exactly if no
      sector is taken. */
  lemma ErasedSafeIff(s: State, b: Books, fh: Handle, bytes: seq<byte>)
    requires Inv(s, b) && Usable(s, fh) && fh.mode == WriteMode && !Live(s.dir[fh.curEntry])
    ensures !Allocates(s, fh, bytes) <==> exists c :: Inv(Write(s, fh, bytes).s, c)
  {
    hide Inv, Write, Allocates;
    WriteSafeIff(s, b, fh, bytes);
  }

  /** The sector such a write takes is marked as used in RAM, and free again after the next mount. */
  lemma ErasedLeaks(s: State, b: Books, fh: Handle, bytes: seq<byte>)
    requires Inv(s, b) && Usable(s, fh) && fh.mode == WriteMode && !Live(s.dir[fh.curEntry])
    requires fh.soffset == 0 && Allocates(s, fh, bytes) && (fh.sindex + 1) % 256 < MaxSectors(s.dir[fh.curEntry])
    ensures var t, k := Write(s, fh, bytes).s, Extend(s, fh).fh.sector as int;
            && k < |t.data| && !s.usedSectors[k] && t.usedSectors[k] && !Init(t.dir, t.data).usedSectors[k]
            && forall c :: !Inv(t, c)
  {
    hide Inv, Flawed, Extend, WriteLoop, Store, Growable, Init, Live, MaxSectors;
    ExtendUsable(s, fh);
    SectorRound(s, fh, bytes, 0);
    var flaw := DeadFlawed(s, b, fh);
    MarkedStays(s, b, fh);
    Extended0(s, fh);
    FlawStored(Extend(s, fh).s, Extend(s, fh).fh, flaw, bytes, 0);
    var t := Write(s, fh, bytes).s;
    MountForgets(t, flaw.k);
    forall c ensures !Inv(t, c) {
      FlawBreaks(t, c, flaw);
    }
  }

  lemma Extended0(s: State, fh: Handle)
    requires Usable(s, fh) && Extend(s, fh).error == Ok
    ensures !s.usedSectors[Extend(s, fh).fh.sector]
  {
    hide NextFree;
    NextFreeFrom(s.usedSectors, fh.sector);
  }

  // ---- Closing ---------------------------------------------------------------------------------------------

  /** Number of sectors listed from an entry on, following its links. */
  function ChainLength(dir: seq<Entry>, e: byte, links: nat): nat
    requires e as int < |dir|
    decreases links
  {
    var next := dir[e][NEXT];
    Listed(dir[e], 0) + if next == NONE || next as int >= |dir| || links == 0 then 0 else ChainLength(dir, next, links - 1)
  }

  /** In a list entry the size falls on the last two slots. They keep their sectors, at most exchanged. */
  predicate SlotsKept(e: Entry, size: nat) {
    var w := WithSize(e, size);
    w == e || (e[SIZE] != FREE && e[SIZE + 1] != FREE && w[SIZE] == e[SIZE + 1] && w[SIZE + 1] == e[SIZE])
  }

  /** Recording the size of the handle hurts no file. */
  predicate SafeClose(s: State, fh: Handle)
    requires Usable(s, fh)
  {
    var e := s.dir[fh.entry];
    fh.mode != WriteMode || !Live(e)
    || (if IsList(e) then SlotsKept(e, fh.size) else fh.size % 65536 <= SECTOR_SIZE * ChainLength(s.dir, fh.entry, |s.dir|))
  }

  lemma {:induction false} ChainLengthIs(s: State, b: Books, h: byte, k: nat, links: nat)
    requires Inv(s, b) && h in b.files && k < |b.files[h]| && links + k + 1 >= |b.files[h]|
    ensures var f := b.files[h];
            f[k].entry as int < |s.dir| && ChainLength(s.dir, f[k].entry, links) + |Sectors(f[..k])| == |Sectors(f)|
    decreases links
  {
    hide Inv, Sectors, Listed;
    Inside(s, b);
    ChainLink(s, b, h, k);
    PartSize(s, b, h, k);
    var f := b.files[h];
    assert f[..k + 1] == f[..k] + [f[k]];
    SectorsMore(f[..k], f[k]);
    if k + 1 < |f| {
      ChainLengthIs(s, b, h, k + 1, links - 1);
    } else {
      assert f[..k + 1] == f;
    }
  }

  lemma PartSize(s: State, b: Books, h: byte, k: nat)
    requires Inv(s, b) && h in b.files && k < |b.files[h]|
    ensures var p := b.files[h][k]; p.entry as int < |s.dir| && Listed(s.dir[p.entry], 0) == |p.sectors|
  {
    hide Sectors, CountFree, NamesOk, SectorsOk, Listed;
    assert PartOk(s.dir, b.files[h], k);
    PartOfFile(s, b, b.files[h][k].entry as int);
  }

  /** The number of sectors of a file, seen from the directory. */
  lemma FileLengthIs(s: State, b: Books, h: byte)
    requires Inv(s, b) && h in b.files
    ensures h as int < |s.dir| && ChainLength(s.dir, h, |s.dir|) == |Sectors(b.files[h])|
  {
    hide Inv, Sectors, Listed, ChainLength;
    FirstEntry(s, b, h);
    ChainIsShort(s, b, h);
    ChainLengthIs(s, b, h, 0, |s.dir|);
    var f := b.files[h];
    assert f[..0] == [];
    NoneListed();
  }

  lemma NoneListed()
    ensures Sectors([]) == []
  {}

  lemma {:induction false} ChainLengthSame(dir: seq<Entry>, dir2: seq<Entry>, e: byte, links: nat)
    requires |dir2| == |dir| && e as int < |dir|
    requires forall i :: 0 <= i < |dir| ==> dir2[i][NEXT] == dir[i][NEXT] && Listed(dir2[i], 0) == Listed(dir[i], 0)
    ensures ChainLength(dir2, e, links) == ChainLength(dir, e, links)
    decreases links
  {
    hide Listed;
    var next := dir[e][NEXT];
    if next != NONE && next as int < |dir| && links > 0 {
      ChainLengthSame(dir, dir2, next, links - 1);
    }
  }

  lemma {:induction false} ListedSame(d: Entry, e: Entry, i: nat)
    requires MaxSectors(d) == MaxSectors(e) && i <= MaxSectors(e) && forall m :: 0 <= m < MaxSectors(e) ==> d[m] == e[m]
    ensures Listed(d, i) == Listed(e, i)
    decreases MaxSectors(e) - i
  {
    if i < MaxSectors(e) && e[i] != FREE {
      ListedSame(d, e, i + 1);
    }
  }

  /** The size does not touch link, flags or name, nor the slots of a first entry. */
  lemma SizeOnly(e: Entry, size: nat)
    ensures var w := WithSize(e, size);
            && w[..NAME] == e[..NAME] && w[FLAGS] == e[FLAGS] && w[NEXT] == e[NEXT] && NameOf(w) == NameOf(e)
            && SizeOf(w) == size % 65536 && (!IsList(e) ==> Listed(w, 0) == Listed(e, 0))
            && forall m :: 0 <= m < SIZE ==> w[m] == e[m]
  {
    hide Listed;
    var w := WithSize(e, size);
    assert w[SIZE] as nat == size % 256 && w[SIZE + 1] as nat == size / 256 % 256;
    TwoBytes(size);
    assert w[..NAME] == e[..NAME];
    assert w[NAME..SIZE] == e[NAME..SIZE];
    if !IsList(e) {
      ListedSame(w, e, 0);
    }
  }

  lemma TwoBytes(size: nat)
    ensures size % 256 + 256 * (size / 256 % 256) == size % 65536
  {
    var c, m := size % 256, size / 256;
    var b, a := m % 256, m / 256;
    assert size == 256 * m + c && m == 256 * a + b;
    Modulo(size, a, 256 * b + c);
  }

  lemma Modulo(x: nat, q: nat, r: nat)
    requires x == 65536 * q + r && r < 65536
    ensures x % 65536 == r
  {}

  /** An entry that is not live may change as long as it stays so. */
  lemma DeadChanged(s: State, b: Books, i: byte, e: Entry)
    requires Inv(s, b) && i as int < |s.dir| && !Live(s.dir[i]) && !Live(e)
    ensures Inv(s.(dir := s.dir[i := e]), b)
  {
    hide Sectors, CountFree, SectorsOk, NamesOk;
    var t := s.(dir := s.dir[i := e]);
    forall h | h in b.files ensures FileOk(t.dir, h, b.files[h]) && t.dir[h] == s.dir[h] {
      DeadApart(s, b, i, e, h);
    }
    EntriesUnchanged(s, b, t, b);
    DeadSectors(s, b, t);
    NamesUnchanged(s, b, t, b);
  }

  lemma DeadSectors(s: State, b: Books, t: State)
    requires SectorsOk(s, b) && t.data == s.data && t.usedSectors == s.usedSectors
    ensures SectorsOk(t, b)
  {
    hide Sectors;
  }

  lemma DeadApart(s: State, b: Books, i: byte, e: Entry, h: byte)
    requires s.Sized() && FilesOk(s, b) && EntriesOk(s, b) && i as int < |s.dir| && !Live(s.dir[i]) && h in b.files
    ensures h as int < |s.dir| && h != i && FileOk(s.dir[i := e], h, b.files[h])
  {
    hide Sectors;
    var f := b.files[h];
    assert PartOk(s.dir, f, 0);
    var dir := s.dir[i := e];
    forall k | 0 <= k < |f| ensures PartOk(dir, f, k) {
      assert PartOk(s.dir, f, k);
    }
  }

  /** A first entry takes the size if and only if the file is long enough. */
  lemma HeadSafeIff(s: State, b: Books, fh: Handle)
    requires Inv(s, b) && Usable(s, fh) && fh.mode == WriteMode && Live(s.dir[fh.entry]) && !IsList(s.dir[fh.entry])
    ensures SafeClose(s, fh) <==> exists c :: Inv(Close(s, fh), c)
  {
    hide Inv, Sectors, Listed, WithSize, SizeOf;
    var t, h := Close(s, fh), fh.entry;
    SizeOnly(s.dir[h], fh.size);
    LiveHead(s, b, h);
    FileLengthIs(s, b, h);
    if SafeClose(s, fh) {
      OtherNames(s, b, h);
      HeadChanged(s, b, h, WithSize(s.dir[h], fh.size));
      assert Inv(t, b);
    } else {
      ChainLengthSame(s.dir, t.dir, h, |s.dir|);
      forall c ensures !Inv(t, c) {
        if Inv(t, c) {
          LiveHead(t, c, h);
          FileLengthIs(t, c, h);
          FileSize(t, c, h);
        }
      }
    }
  }

  lemma LiveHead(s: State, b: Books, h: byte)
    requires Inv(s, b) && h as int < |s.dir| && Live(s.dir[h]) && !IsList(s.dir[h])
    ensures h in b.files
  {
    hide Sectors, CountFree, NamesOk, SectorsOk, Listed;
    PartOfFile(s, b, h as int);
  }

  // ---- The size in a list entry ------------------------------------------------------------------------------

  /** Two states that differ in the last two slots of one live entry. */
  predicate LastSlotsDiffer(s: State, t: State, i: nat) {
    && s.Sized() && t == s.(dir := t.dir) && |t.dir| == |s.dir| && i < |s.dir| && t.dir == s.dir[i := t.dir[i]]
    && Live(s.dir[i]) && IsList(s.dir[i]) && t.dir[i][FLAGS] == s.dir[i][FLAGS]
    && forall m :: 0 <= m < SIZE ==> t.dir[i][m] == s.dir[i][m]
  }

  /** Whatever one of them has in these slots, the other one has there too. */
  lemma SlotCameFrom(s: State, b: Books, t: State, c: Books, i: nat, m: nat)
    requires Inv(s, b) && Inv(t, c) && LastSlotsDiffer(s, t, i) && SIZE <= m < SIZE + 2 && t.dir[i][m] != FREE
    ensures t.dir[i][m] == s.dir[i][SIZE] || t.dir[i][m] == s.dir[i][SIZE + 1]
  {
    hide Inv, PlaceOf, Listed;
    var x := t.dir[i][m];
    ListedSlots(t, c, i);
    PlaceIsThere(s, b, x as int);
    var p := PlaceOf(b, b.sectorOwner[x]);
    if p.entry != i || p.slot < SIZE {
      OnePlace(t, c, i, m, p.entry, p.slot);
    }
  }

  lemma SlotsMustBeKept(s: State, b: Books, t: State, c: Books, i: nat)
    requires Inv(s, b) && Inv(t, c) && LastSlotsDiffer(s, t, i)
    ensures var d, e := s.dir[i], t.dir[i];
            || (e[SIZE] == d[SIZE] && e[SIZE + 1] == d[SIZE + 1])
            || (d[SIZE] != FREE && d[SIZE + 1] != FREE && e[SIZE] == d[SIZE + 1] && e[SIZE + 1] == d[SIZE])
  {
    hide Inv, Listed;
    var d, e := s.dir[i], t.dir[i];
    ListedSlots(s, b, i);
    ListedSlots(t, c, i);
    assert LastSlotsDiffer(t, s, i);
    forall m: nat | SIZE <= m < SIZE + 2
      ensures e[m] != FREE ==> e[m] == d[SIZE] || e[m] == d[SIZE + 1]
      ensures d[m] != FREE ==> d[m] == e[SIZE] || d[m] == e[SIZE + 1]
    {
      if e[m] != FREE {
        SlotCameFrom(s, b, t, c, i, m);
      }
      if d[m] != FREE {
        SlotCameFrom(t, c, s, b, i, m);
      }
    }
    if e[SIZE] != FREE && e[SIZE] == e[SIZE + 1] {
      OnePlace(t, c, i, SIZE, i, SIZE + 1);
    }
    if d[SIZE] != FREE && d[SIZE] == d[SIZE + 1] {
      OnePlace(s, b, i, SIZE, i, SIZE + 1);
    }
  }

  /** A part with other sectors, and as many of them. */
  lemma {:induction false} SectorsReplaced(f: File, i: nat, p: Part)
    requires i < |f| && |p.sectors| == |f[i].sectors|
    ensures var g, low := f[i := p], |Sectors(f[..i])|;
            && |Sectors(g)| == |Sectors(f)| && low + |p.sectors| <= |Sectors(f)|
            && forall q :: 0 <= q < |Sectors(f)| ==> Sectors(g)[q] == if low <= q < low + |p.sectors| then p.sectors[q - low] else Sectors(f)[q]
    decreases |f|
  {
    var g := f[i := p];
    if i < |f| - 1 {
      var front := f[..|f| - 1];
      assert g[..|f| - 1] == front[i := p];
      assert front[..i] == f[..i];
      SectorsReplaced(front, i, p);
    } else {
      assert g[..i] == f[..i];
    }
  }

  /** The last two sectors of a full list entry exchanged. */
  function Exchanged(ss: seq<byte>): (r: seq<byte>)
    requires |ss| == 30
    ensures |r| == 30
  {
    ss[28 := ss[29]][29 := ss[28]]
  }

  /** The books after the exchange in part k of file h, whose sectors start at low. */
  function ExchangedBooks(b: Books, h: byte, k: nat, low: nat): Books
    requires h in b.files && k < |b.files[h]| && |b.files[h][k].sectors| == 30
    requires b.files[h][k].sectors[28] as int < |b.sectorOwner| && b.files[h][k].sectors[29] as int < |b.sectorOwner|
  {
    var p := b.files[h][k];
    Books(b.files[h := b.files[h][k := Part(p.entry, Exchanged(p.sectors))]],
          b.sectorOwner[p.sectors[28] := Owned(h, low + 29)][p.sectors[29] := Owned(h, low + 28)], b.entryOwner)
  }

  /** The sectors of the file after the exchange. */
  lemma ExchangedList(f: File, k: nat, low: nat)
    requires k < |f| && |f[k].sectors| == 30 && low == |Sectors(f[..k])|
    ensures var g, ss := f[k := Part(f[k].entry, Exchanged(f[k].sectors))], Sectors(f);
            && low + 30 <= |ss| && ss[low + 28] == f[k].sectors[28] && ss[low + 29] == f[k].sectors[29]
            && Sectors(g) == ss[low + 28 := ss[low + 29]][low + 29 := ss[low + 28]]
  {
    hide Sectors;
    SectorsReplaced(f, k, Part(f[k].entry, Exchanged(f[k].sectors)));
    SectorsReplaced(f, k, f[k]);
    assert f[k := f[k]] == f;
  }

  /** Two sectors of a file exchanged, and their owners with them. */
  lemma OwnersExchanged(s: State, b: Books, t: State, c: Books, h: byte, m: nat)
    requires SectorsOk(s, b) && t.data == s.data && t.usedSectors == s.usedSectors && h in b.files && h in c.files
    requires m + 1 < |Sectors(b.files[h])| && c.files == b.files[h := c.files[h]]
    requires var ss := Sectors(b.files[h]); Sectors(c.files[h]) == ss[m := ss[m + 1]][m + 1 := ss[m]]
    requires var ss := Sectors(b.files[h]);
             ss[m] as int < |b.sectorOwner| && ss[m + 1] as int < |b.sectorOwner|
             && c.sectorOwner == b.sectorOwner[ss[m] := Owned(h, m + 1)][ss[m + 1] := Owned(h, m)]
    ensures SectorsOk(t, c)
  {
    hide Sectors;
    var x, y := Sectors(b.files[h])[m], Sectors(b.files[h])[m + 1];
    assert b.sectorOwner[x] == Owned(h, m) && b.sectorOwner[y] == Owned(h, m + 1);
    forall i | 0 <= i < |t.data| && c.sectorOwner[i].Owned? ensures OwnsSector(c, i) {
      if i != x as int && i != y as int {
        assert OwnsSector(b, i);
      }
    }
  }

  lemma ExchangedSectors(s: State, b: Books, t: State, h: byte, k: nat, low: nat)
    requires SectorsOk(s, b) && t.data == s.data && t.usedSectors == s.usedSectors && h in b.files
    requires k < |b.files[h]| && |b.files[h][k].sectors| == 30 && low == |Sectors(b.files[h][..k])|
    ensures b.files[h][k].sectors[28] as int < |b.sectorOwner| && b.files[h][k].sectors[29] as int < |b.sectorOwner|
    ensures SectorsOk(t, ExchangedBooks(b, h, k, low)) && |Sectors(ExchangedBooks(b, h, k, low).files[h])| == |Sectors(b.files[h])|
  {
    hide Sectors, SectorsOk, Exchanged;
    ExchangedList(b.files[h], k, low);
    OwnedInside(s, b, h, low + 28);
    OwnedInside(s, b, h, low + 29);
    OwnersExchanged(s, b, t, ExchangedBooks(b, h, k, low), h, low + 28);
  }

  lemma OwnedInside(s: State, b: Books, h: byte, j: nat)
    requires SectorsOk(s, b) && h in b.files && j < |Sectors(b.files[h])|
    ensures Sectors(b.files[h])[j] as int < |b.sectorOwner|
  {
    hide Sectors;
  }

  /** Entry i of the directory with its last two slots exchanged. */
  predicate SlotsExchanged(s: State, t: State, i: nat) {
    LastSlotsDiffer(s, t, i) && t.dir[i][NEXT] == s.dir[i][NEXT] && t.dir[i][28] == s.dir[i][29] && t.dir[i][29] == s.dir[i][28]
  }

  lemma ExchangedFile(s: State, t: State, h: byte, f: File, k: nat)
    requires FileOk(s.dir, h, f) && k < |f| && |f[k].sectors| == 30 && SlotsExchanged(s, t, f[k].entry as nat)
    requires forall j :: 0 <= j < |f| && j != k ==> f[j].entry != f[k].entry
    ensures FileOk(t.dir, h, f[k := Part(f[k].entry, Exchanged(f[k].sectors))])
  {
    var g := f[k := Part(f[k].entry, Exchanged(f[k].sectors))];
    assert PartOk(s.dir, f, k);
    assert Holds(t.dir[f[k].entry], g[k].sectors);
    forall j | 0 <= j < |g| ensures PartOk(t.dir, g, j) {
      assert PartOk(s.dir, f, j);
    }
  }

  lemma ExchangedFiles(s: State, b: Books, t: State, h: byte, k: nat, low: nat)
    requires s.Sized() && FilesOk(s, b) && EntriesOk(s, b) && h in b.files && k < |b.files[h]| && |b.files[h][k].sectors| == 30
    requires b.files[h][k].sectors[28] as int < |b.sectorOwner| && b.files[h][k].sectors[29] as int < |b.sectorOwner|
    requires SlotsExchanged(s, t, b.files[h][k].entry as nat)
    requires |Sectors(ExchangedBooks(b, h, k, low).files[h])| == |Sectors(b.files[h])|
    ensures FilesOk(t, ExchangedBooks(b, h, k, low))
    ensures forall x :: x in b.files ==> x as int < |s.dir| && t.dir[x][..SIZE] == s.dir[x][..SIZE]
  {
    hide Sectors, PartOk, SizeOf, Exchanged;
    var f := b.files[h];
    PartsApart(s, b, h, k);
    ExchangedFile(s, t, h, f, k);
    forall x | x in b.files && x != h ensures FileOk(t.dir, x, b.files[x]) && x as int < |s.dir| && t.dir[x] == s.dir[x] {
      HeadInside(s, b, x);
      OtherFiles(s, b, t.dir, h, x);
    }
    HeadInside(s, b, h);
    FirstIsNoList(s, b, h);
  }

  lemma PartsApart(s: State, b: Books, h: byte, k: nat)
    requires EntriesOk(s, b) && h in b.files && k < |b.files[h]|
    ensures b.files[h][k].entry as int < |s.dir| && b.entryOwner[b.files[h][k].entry] == Owned(h, k)
    ensures forall j :: 0 <= j < |b.files[h]| && j != k ==> b.files[h][j].entry != b.files[h][k].entry
  {
    forall j | 0 <= j < |b.files[h]| && j != k ensures b.files[h][j].entry != b.files[h][k].entry {
      assert b.entryOwner[b.files[h][j].entry] == Owned(h, j);
    }
  }

  lemma HeadInside(s: State, b: Books, h: byte)
    requires FilesOk(s, b) && h in b.files
    ensures h as int < |s.dir|
  {
    assert PartOk(s.dir, b.files[h], 0);
  }

  lemma FirstIsNoList(s: State, b: Books, h: byte)
    requires FilesOk(s, b) && h in b.files && h as int < |s.dir|
    ensures !IsList(s.dir[h])
  {
    assert PartOk(s.dir, b.files[h], 0);
  }

  lemma ExchangeKeeps(s: State, b: Books, t: State, i: nat) returns (c: Books)
    requires Inv(s, b) && SlotsExchanged(s, t, i) && s.dir[i][28] != FREE && s.dir[i][29] != FREE
    ensures Inv(t, c)
  {
    hide Sectors, CountFree, FilesOk, SectorsOk, EntriesOk, NamesOk, Listed;
    PartOfFile(s, b, i);
    var h, k := b.entryOwner[i].head, b.entryOwner[i].index;
    var low := |Sectors(b.files[h][..k])|;
    ExchangedSectors(s, b, t, h, k, low);
    ExchangedFiles(s, b, t, h, k, low);
    c := ExchangedBooks(b, h, k, low);
    EntriesUnchanged(s, b, t, c);
    forall x | x in b.files && x as int < |s.dir| ensures NameOf(t.dir[x]) == NameOf(s.dir[x]) {
      assert t.dir[x][..SIZE][NAME..] == s.dir[x][..SIZE][NAME..];
    }
    NamesUnchanged(s, b, t, c);
  }

  /** A list entry takes the size if and only if it keeps its sectors. */
  lemma ListSafeIff(s: State, b: Books, fh: Handle)
    requires Inv(s, b) && Usable(s, fh) && fh.mode == WriteMode && Live(s.dir[fh.entry]) && IsList(s.dir[fh.entry])
    ensures SafeClose(s, fh) <==> exists c :: Inv(Close(s, fh), c)
  {
    hide Inv, Listed, WithSize, ChainLength;
    var t, i := Close(s, fh), fh.entry as nat;
    SizeOnly(s.dir[i], fh.size);
    var d, e := s.dir[i], t.dir[i];
    assert LastSlotsDiffer(s, t, i);
    if SafeClose(s, fh) {
      if e == d {
        assert t == s;
      } else {
        var c := ExchangeKeeps(s, b, t, i);
        assert Inv(t, c);
      }
    } else {
      forall c ensures !Inv(t, c) {
        if Inv(t, c) {
          SlotsMustBeKept(s, b, t, c, i);
        }
      }
    }
  }

  /** A close through any handle leaves a file system with the invariant if and only if its size goes to
      an erased entry, to a first entry with enough sectors, or to a list entry without changing which
      sectors it lists. */
  lemma CloseSafeIff(s: State, b: Books, fh: Handle)
    requires Inv(s, b) && Usable(s, fh)
    ensures SafeClose(s, fh) <==> exists c :: Inv(Close(s, fh), c)
  {
    hide Inv, WithSize, ChainLength;
    var t := Close(s, fh);
    SizeOnly(s.dir[fh.entry], fh.size);
    if fh.mode != WriteMode {
      assert Inv(t, b);
    } else if !Live(s.dir[fh.entry]) {
      DeadChanged(s, b, fh.entry, WithSize(s.dir[fh.entry], fh.size));
      assert Inv(t, b);
    } else if IsList(s.dir[fh.entry]) {
      ListSafeIff(s, b, fh);
    } else {
      HeadSafeIff(s, b, fh);
    }
  }

  // ---- What mounting makes of a lost sector ------------------------------------------------------------------

  lemma {:induction false} SlotsMark(s: State, e: Entry, j: nat, k: nat)
    requires s.Sized() && j <= MaxSectors(e) && k < |s.data| && ListsNot(e, k)
    ensures MarkSlots(s, e, j).usedSectors[k] == s.usedSectors[k]
    decreases MaxSectors(e) - j
  {
    if j < MaxSectors(e) {
      SlotsMark(if e[j] as int >= |s.data| then s else MarkSector(s, e[j], true), e, j + 1, k);
    }
  }

  lemma {:induction false} ScanMarks(s: State, i: nat, k: nat)
    requires s.Sized() && i <= |s.dir| && k < |s.data|
    requires forall e :: 0 <= e < |s.dir| && Live(s.dir[e]) ==> ListsNot(s.dir[e], k)
    ensures InitFrom(s, i).usedSectors[k] == s.usedSectors[k]
    decreases |s.dir| - i
  {
    hide ListsNot;
    if i < |s.dir| {
      if Live(s.dir[i]) {
        var t := s.(usedEntries := s.usedEntries[i := true]);
        SlotsMark(t, s.dir[i], 0, k);
        ScanMarks(MarkSlots(t, s.dir[i], 0), i + 1, k);
      } else {
        ScanMarks(s, i + 1, k);
      }
    }
  }

  /** A sector that no live entry lists is free again after mounting. */
  lemma MountForgets(s: State, k: nat)
    requires Flawed(s, LostSector(k))
    ensures k < |s.data| && s.usedSectors[k] && !Init(s.dir, s.data).usedSectors[k]
  {
    hide InitFrom;
    ScanMarks(State(s.dir, s.data, seq(|s.data|, _ => false), seq(|s.dir|, _ => false), |s.data|), 0, k);
  }
}
