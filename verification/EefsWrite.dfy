/** Writing to a file of the EEPROM file system: every allocation and every store keeps the invariant,
    and the file's contents grow by the bytes written (src/eeprom-fs.c). */
module EefsWrite {
  import opened Bits
  import opened EefsModel
  import opened EefsInvariant

  // ---- Finding something free ----------------------------------------------------------

  /** Already seen when the search stands at cur. */
  predicate Passed(start: nat, cur: nat, i: nat) {
    if cur >= start then start <= i < cur else i >= start || i < cur
  }

  /** The search returns an unused number, and fails only if there is none. */
  lemma {:induction false} NextFreeIsFree(used: seq<bool>, start: nat, cur: nat)
    requires start < |used| && cur < |used| <= 255
    requires forall i :: 0 <= i < |used| && Passed(start, cur, i) ==> used[i]
    ensures var r := NextFree(used, start, cur); r as int < |used| ==> !used[r]
    ensures var r := NextFree(used, start, cur); r as int >= |used| ==> r == NONE && forall i :: 0 <= i < |used| ==> used[i]
    decreases if cur >= start then |used| - cur + start else start - cur
  {
    if used[cur] {
      var next := if cur + 1 == |used| then 0 else cur + 1;
      if next != start {
        NextFreeIsFree(used, start, next);
      }
    }
  }

  lemma NextFreeFrom(used: seq<bool>, start: nat)
    requires start < |used| <= 255
    ensures var r := NextFree(used, start, start); r as int < |used| ==> !used[r]
    ensures var r := NextFree(used, start, start); r as int >= |used| ==> r == NONE && forall i :: 0 <= i < |used| ==> used[i]
  {
    NextFreeIsFree(used, start, start);
  }

  // ---- Handles open for writing ----------------------------------------------------------

  /** The handle stands at the last sector of its file. */
  ghost predicate Positioned(b: Books, fh: Handle) {
    && fh.entry in b.files && |b.files[fh.entry]| > 0 && fh.mode == WriteMode && fh.size == fh.offset
    && var f := b.files[fh.entry];
    && var last := f[|f| - 1];
    && fh.curEntry == last.entry
    && fh.sindex == (if last.sectors == [] then 255 else |last.sectors| - 1)
    && fh.sector == (if Sectors(f) == [] then 0 else Sectors(f)[|Sectors(f)| - 1])
  }

  /** Every sector but the last one is full, and the last one up to the offset. */
  ghost predicate AtEnd(b: Books, fh: Handle) {
    && Positioned(b, fh) && fh.soffset < SECTOR_SIZE
    && var n := |Sectors(b.files[fh.entry])|;
    && (if fh.soffset == 0 then fh.size == SECTOR_SIZE * n else n > 0 && fh.size == SECTOR_SIZE * (n - 1) + fh.soffset)
  }

  /** A sector has just been added and nothing is stored in it yet. */
  ghost predicate AtNew(b: Books, fh: Handle) {
    && Positioned(b, fh) && fh.soffset == 0
    && var n := |Sectors(b.files[fh.entry])|;
    n > 0 && fh.size == SECTOR_SIZE * (n - 1)
  }

  // ---- One more sector ---------------------------------------------------------------------

  /** The books after sector k went to the last entry of file h. */
  function AddSector(b: Books, h: byte, k: byte): Books
    requires h in b.files && |b.files[h]| > 0 && k as int < |b.sectorOwner|
  {
    var f := b.files[h];
    var last := f[|f| - 1];
    Books(b.files[h := f[|f| - 1 := Part(last.entry, last.sectors + [k])]],
          b.sectorOwner[k := Owned(h, |Sectors(f)|)], b.entryOwner)
  }

  /** The books after sector k went to a new entry e of file h. */
  function AddPart(b: Books, h: byte, e: byte, k: byte): Books
    requires h in b.files && k as int < |b.sectorOwner| && e as int < |b.entryOwner|
  {
    var f := b.files[h];
    Books(b.files[h := f + [Part(e, [k])]],
          b.sectorOwner[k := Owned(h, |Sectors(f)|)], b.entryOwner[e := Owned(h, |f|)])
  }

  /** Marking k as used and giving it to h keeps the sector books, whichever way the file grows. */
  lemma SectorGiven(s: State, b: Books, t: State, c: Books, h: byte, k: byte)
    requires s.Sized() && SectorsOk(s, b) && k as int < |s.data| && !s.usedSectors[k] && h in b.files && h in c.files
    requires |t.data| == |s.data| && t.usedSectors == s.usedSectors[k := true]
    requires c.sectorOwner == b.sectorOwner[k := Owned(h, |Sectors(b.files[h])|)]
    requires c.files == b.files[h := c.files[h]] && Sectors(c.files[h]) == Sectors(b.files[h]) + [k]
    ensures SectorsOk(t, c)
  {
    hide Sectors;
    forall i | 0 <= i < |t.data| && c.sectorOwner[i].Owned? ensures OwnsSector(c, i) {
      if i != k as int {
        assert OwnsSector(b, i);
      }
    }
  }

  /** A changed entry that belongs to file h leaves the other files alone. */
  lemma OtherFiles(s: State, b: Books, dir: seq<Entry>, h: byte, h2: byte)
    requires s.Sized() && FilesOk(s, b) && EntriesOk(s, b) && |dir| == |s.dir| && h in b.files && h2 in b.files && h2 != h
    requires forall i :: 0 <= i < |dir| && b.entryOwner[i].Owned? && b.entryOwner[i].head != h ==> dir[i] == s.dir[i]
    ensures FileOk(dir, h2, b.files[h2]) && dir[h2] == s.dir[h2]
  {
    var f := b.files[h2];
    forall k | 0 <= k < |f| ensures PartOk(dir, f, k) {
      assert PartOk(s.dir, f, k);
      assert b.entryOwner[f[k].entry] == Owned(h2, k);
    }
    assert PartOk(s.dir, f, 0);
  }

  // ---- A sector number goes into the current entry ------------------------------------------

  /** The state after the number of sector k is stored in slot i of entry e. */
  function NumberStored(s: State, e: byte, i: nat, k: byte): State
    requires s.Sized() && e as int < |s.dir| && i < 30 && k as int < |s.data|
  {
    var m := MarkSector(s, k, true);
    m.(dir := m.dir[e := m.dir[e][i := k]])
  }

  lemma SlotStored(dir: seq<Entry>, h: byte, f: File, k: byte)
    requires FileOk(dir, h, f) && k as int < 255
    requires var last := f[|f| - 1]; |last.sectors| < MaxSectors(dir[last.entry])
    requires forall j :: 0 <= j < |f| - 1 ==> f[j].entry != f[|f| - 1].entry
    ensures var last := f[|f| - 1]; var i := |last.sectors|;
            && i < 30 && last.entry as int < |dir|
            && FileOk(dir[last.entry := dir[last.entry][i := k]], h, f[|f| - 1 := Part(last.entry, last.sectors + [k])])
  {
    var n := |f| - 1;
    var last := f[n];
    assert PartOk(dir, f, n);
    var i := |last.sectors|;
    var e := dir[last.entry][i := k];
    var dir2, f2 := dir[last.entry := e], f[n := Part(last.entry, last.sectors + [k])];
    assert Holds(e, last.sectors + [k]);
    forall j | 0 <= j < |f2| ensures PartOk(dir2, f2, j) {
      assert PartOk(dir, f, j);
    }
  }

  /** File h has room for one more sector number in its last entry. */
  ghost predicate Roomy(s: State, b: Books, h: byte, k: byte) {
    && h in b.files && |b.files[h]| > 0 && k as int < |s.data| && k as int < |b.sectorOwner|
    && var last := b.files[h][|b.files[h]| - 1];
    last.entry as int < |s.dir| && |last.sectors| < MaxSectors(s.dir[last.entry])
  }

  /** What growing in place does to state and books. */
  function GrownState(s: State, b: Books, h: byte, k: byte): State
    requires s.Sized() && Roomy(s, b, h, k)
  {
    var last := b.files[h][|b.files[h]| - 1];
    NumberStored(s, last.entry, |last.sectors|, k)
  }

  lemma GrowInPlace(s: State, b: Books, h: byte, k: byte)
    requires Inv(s, b) && Roomy(s, b, h, k) && !s.usedSectors[k]
    ensures Inv(GrownState(s, b, h, k), AddSector(b, h, k))
  {
    hide Sectors, FilesOk, SectorsOk, EntriesOk, NamesOk, CountFree;
    var t, c := GrownState(s, b, h, k), AddSector(b, h, k);
    SectorsLonger(b.files[h], k);
    SectorGiven(s, b, t, c, h, k);
    CountFreeUpdate(s.usedSectors, k, true);
    GrowInPlaceFiles(s, b, h, k);
    GrowInPlaceEntries(s, b, h, k);
    GrowInPlaceNames(s, b, h, k);
  }

  lemma GrowInPlaceFiles(s: State, b: Books, h: byte, k: byte)
    requires s.Sized() && FilesOk(s, b) && EntriesOk(s, b) && Roomy(s, b, h, k)
    ensures FilesOk(GrownState(s, b, h, k), AddSector(b, h, k))
  {
    hide Sectors, PartOk, Holds;
    var f := b.files[h];
    var n := |f| - 1;
    var last := f[n];
    var t, c := GrownState(s, b, h, k), AddSector(b, h, k);
    LastAlone(s, b, h);
    SlotStored(s.dir, h, f, k);
    SectorsLonger(f, k);
    SameSize(s, b, t, h, k);
    forall h2 | h2 in b.files && h2 != h
      ensures FileOk(t.dir, h2, b.files[h2]) && t.dir[h2] == s.dir[h2]
    {
      OtherFiles(s, b, t.dir, h, h2);
    }
  }

  lemma LastAlone(s: State, b: Books, h: byte)
    requires s.Sized() && EntriesOk(s, b) && h in b.files && |b.files[h]| > 0
    ensures var f := b.files[h];
            && f[|f| - 1].entry as int < |s.dir| && b.entryOwner[f[|f| - 1].entry] == Owned(h, |f| - 1)
            && forall j :: 0 <= j < |f| - 1 ==> f[j].entry != f[|f| - 1].entry
  {
    var f := b.files[h];
    forall j | 0 <= j < |f| - 1 ensures f[j].entry != f[|f| - 1].entry {
      assert b.entryOwner[f[j].entry] == Owned(h, j);
    }
  }

  /** Storing a number in a free slot changes neither size nor name of the file. */
  lemma SameSize(s: State, b: Books, t: State, h: byte, k: byte)
    requires s.Sized() && FilesOk(s, b) && EntriesOk(s, b) && Roomy(s, b, h, k) && t == GrownState(s, b, h, k)
    ensures h as int < |s.dir| && SizeOf(t.dir[h]) == SizeOf(s.dir[h]) && NameOf(t.dir[h]) == NameOf(s.dir[h])
  {
    hide Sectors;
    var f := b.files[h];
    var last := f[|f| - 1];
    assert PartOk(s.dir, f, 0) && PartOk(s.dir, f, |f| - 1);
    LastAlone(s, b, h);
    if h == last.entry {
      assert |f| == 1;
    }
  }

  /** Chains and live entries stay as they are when only slots, names or sizes change. */
  lemma EntriesUnchanged(s: State, b: Books, t: State, c: Books)
    requires s.Sized() && EntriesOk(s, b) && |t.dir| == |s.dir| && t.usedEntries == s.usedEntries
    requires c.entryOwner == b.entryOwner && c.files.Keys == b.files.Keys
    requires forall h :: h in b.files ==> |c.files[h]| == |b.files[h]|
    requires forall h, k :: h in b.files && 0 <= k < |b.files[h]| ==> c.files[h][k].entry == b.files[h][k].entry
    requires forall i :: 0 <= i < |s.dir| ==> Live(t.dir[i]) == Live(s.dir[i])
    ensures EntriesOk(t, c)
  {
    forall i | 0 <= i < |t.dir| && c.entryOwner[i].Owned? ensures OwnsEntry(c, i) {
      assert OwnsEntry(b, i);
    }
  }

  lemma GrowInPlaceEntries(s: State, b: Books, h: byte, k: byte)
    requires s.Sized() && EntriesOk(s, b) && Roomy(s, b, h, k)
    ensures EntriesOk(GrownState(s, b, h, k), AddSector(b, h, k))
  {
    hide EntriesOk, Sectors;
    EntriesUnchanged(s, b, GrownState(s, b, h, k), AddSector(b, h, k));
  }

  lemma NamesUnchanged(s: State, b: Books, t: State, c: Books)
    requires NamesOk(s, b) && |t.dir| == |s.dir| && c.files.Keys == b.files.Keys
    requires forall h :: h in b.files && h as int < |s.dir| ==> NameOf(t.dir[h]) == NameOf(s.dir[h])
    ensures NamesOk(t, c)
  {}

  lemma GrowInPlaceNames(s: State, b: Books, h: byte, k: byte)
    requires s.Sized() && FilesOk(s, b) && EntriesOk(s, b) && NamesOk(s, b) && Roomy(s, b, h, k)
    ensures NamesOk(GrownState(s, b, h, k), AddSector(b, h, k))
  {
    hide Sectors, NamesOk, FileOk;
    var t, c := GrownState(s, b, h, k), AddSector(b, h, k);
    LastAlone(s, b, h);
    forall x | x in b.files && x as int < |s.dir| ensures NameOf(t.dir[x]) == NameOf(s.dir[x]) {
      if x == h {
        SameSize(s, b, t, h, k);
      } else {
        OtherFiles(s, b, t.dir, h, x);
      }
    }
    NamesUnchanged(s, b, t, c);
  }

  // ---- A sector number goes into a new entry ---------------------------------------------------

  /** The last entry of file h is full and entry e is free. */
  ghost predicate Full(s: State, b: Books, h: byte, e: byte, k: byte) {
    && h in b.files && |b.files[h]| > 0 && k as int < |s.data| && k as int < |b.sectorOwner|
    && e as int < |s.dir| && e as int < |b.entryOwner| && e as int < |s.usedEntries| && !s.usedEntries[e]
    && var last := b.files[h][|b.files[h]| - 1];
    last.entry as int < |s.dir| && |last.sectors| == MaxSectors(s.dir[last.entry])
  }

  /** Link the new entry, make it an empty list entry and store the sector number in it. */
  function LinkedState(s: State, b: Books, h: byte, e: byte, k: byte): State
    requires s.Sized() && Full(s, b, h, e, k)
  {
    var last := b.files[h][|b.files[h]| - 1];
    var dir := s.dir[last.entry := s.dir[last.entry][NEXT := e]];
    NumberStored(s.(dir := dir[e := FreshList()], usedEntries := s.usedEntries[e := true]), e, 0, k)
  }

  lemma LinkNewPart(s: State, b: Books, h: byte, e: byte, k: byte)
    requires Inv(s, b) && Full(s, b, h, e, k) && !s.usedSectors[k]
    ensures Inv(LinkedState(s, b, h, e, k), AddPart(b, h, e, k))
  {
    hide Sectors, FilesOk, SectorsOk, EntriesOk, NamesOk, CountFree;
    var t, c := LinkedState(s, b, h, e, k), AddPart(b, h, e, k);
    SectorsMore(b.files[h], Part(e, [k]));
    SectorGiven(s, b, t, c, h, k);
    CountFreeUpdate(s.usedSectors, k, true);
    LinkNewPartFiles(s, b, h, e, k);
    LinkNewPartEntries(s, b, h, e, k);
    LinkNewPartNames(s, b, h, e, k);
  }

  lemma UnusedEntry(s: State, b: Books, e: byte)
    requires s.Sized() && EntriesOk(s, b) && e as int < |s.dir| && !s.usedEntries[e]
    ensures b.entryOwner[e] == Nobody && !Live(s.dir[e])
    ensures forall h, k :: h in b.files && 0 <= k < |b.files[h]| ==> b.files[h][k].entry != e
  {}

  /** The chain of file h with the new entry at its end. */
  lemma ChainLinked(dir: seq<Entry>, h: byte, f: File, e: byte, k: byte)
    requires FileOk(dir, h, f) && e as int < |dir| && e < 255 && k < 255
    requires |f[|f| - 1].sectors| == MaxSectors(dir[f[|f| - 1].entry])
    requires forall j :: 0 <= j < |f| - 1 ==> f[j].entry != f[|f| - 1].entry
    requires forall j :: 0 <= j < |f| ==> f[j].entry != e
    ensures var last := f[|f| - 1].entry;
            && last as int < |dir|
            && FileOk(dir[last := dir[last][NEXT := e]][e := FreshList()[0 := k]], h, f + [Part(e, [k])])
  {
    assert PartOk(dir, f, |f| - 1);
    var last := f[|f| - 1].entry;
    var newEntry: Entry := FreshList()[0 := k];
    var dir2, f2 := dir[last := dir[last][NEXT := e]][e := newEntry], f + [Part(e, [k])];
    assert Live(newEntry) && IsList(newEntry) && newEntry[NEXT] == NONE && Holds(newEntry, [k]);
    forall j | 0 <= j < |f2| ensures PartOk(dir2, f2, j) {
      if j < |f| {
        assert PartOk(dir, f, j);
      }
    }
  }

  lemma LinkedDir(s: State, b: Books, h: byte, e: byte, k: byte)
    requires s.Sized() && Full(s, b, h, e, k)
    ensures var last := b.files[h][|b.files[h]| - 1].entry;
            LinkedState(s, b, h, e, k).dir == s.dir[last := s.dir[last][NEXT := e]][e := FreshList()[0 := k]]
  {}

  lemma LinkNewPartFiles(s: State, b: Books, h: byte, e: byte, k: byte)
    requires s.Sized() && FilesOk(s, b) && EntriesOk(s, b) && Full(s, b, h, e, k)
    ensures FilesOk(LinkedState(s, b, h, e, k), AddPart(b, h, e, k))
  {
    hide Sectors, PartOk, Holds, LinkedState;
    var t, c := LinkedState(s, b, h, e, k), AddPart(b, h, e, k);
    LastAlone(s, b, h);
    UnusedEntry(s, b, e);
    LinkedDir(s, b, h, e, k);
    ChainLinked(s.dir, h, b.files[h], e, k);
    SectorsMore(b.files[h], Part(e, [k]));
    HeadSame(s, b, t, h, e, k);
    forall h2 | h2 in b.files && h2 != h
      ensures FileOk(t.dir, h2, b.files[h2]) && t.dir[h2] == s.dir[h2]
    {
      OthersLinked(s, b, t.dir, h, h2, e);
    }
  }

  lemma HeadSame(s: State, b: Books, t: State, h: byte, e: byte, k: byte)
    requires s.Sized() && FilesOk(s, b) && EntriesOk(s, b) && Full(s, b, h, e, k) && t == LinkedState(s, b, h, e, k)
    ensures h as int < |s.dir| && SizeOf(t.dir[h]) == SizeOf(s.dir[h]) && NameOf(t.dir[h]) == NameOf(s.dir[h])
  {
    hide Sectors, LinkedState;
    LinkedDir(s, b, h, e, k);
    assert PartOk(s.dir, b.files[h], 0);
    UnusedEntry(s, b, e);
  }

  lemma OthersLinked(s: State, b: Books, dir: seq<Entry>, h: byte, h2: byte, e: byte)
    requires s.Sized() && FilesOk(s, b) && EntriesOk(s, b) && |dir| == |s.dir| && h in b.files && h2 in b.files && h2 != h
    requires |b.files[h]| > 0 && e as int < |s.dir| && !s.usedEntries[e]
    requires forall i :: 0 <= i < |dir| && i != e as int && i != b.files[h][|b.files[h]| - 1].entry as int ==> dir[i] == s.dir[i]
    ensures FileOk(dir, h2, b.files[h2]) && dir[h2] == s.dir[h2]
  {
    hide Sectors, FileOk;
    LastAlone(s, b, h);
    UnusedEntry(s, b, e);
    OtherFiles(s, b, dir, h, h2);
  }

  lemma LinkNewPartEntries(s: State, b: Books, h: byte, e: byte, k: byte)
    requires s.Sized() && FilesOk(s, b) && EntriesOk(s, b) && Full(s, b, h, e, k)
    ensures EntriesOk(LinkedState(s, b, h, e, k), AddPart(b, h, e, k))
  {
    hide Sectors, LinkedState, FilesOk;
    var t, c := LinkedState(s, b, h, e, k), AddPart(b, h, e, k);
    LinkedDir(s, b, h, e, k);
    LinkedUsed(s, b, h, e, k);
    UnusedEntry(s, b, e);
    forall i | 0 <= i < |t.dir| && c.entryOwner[i].Owned? ensures OwnsEntry(c, i) {
      if i != e as int {
        assert OwnsEntry(b, i);
      }
    }
  }

  lemma LinkedUsed(s: State, b: Books, h: byte, e: byte, k: byte)
    requires s.Sized() && Full(s, b, h, e, k)
    ensures LinkedState(s, b, h, e, k).usedEntries == s.usedEntries[e := true]
    ensures Live(FreshList()[0 := k])
  {}

  lemma LinkNewPartNames(s: State, b: Books, h: byte, e: byte, k: byte)
    requires s.Sized() && FilesOk(s, b) && EntriesOk(s, b) && NamesOk(s, b) && Full(s, b, h, e, k)
    ensures NamesOk(LinkedState(s, b, h, e, k), AddPart(b, h, e, k))
  {
    hide Sectors, NamesOk, FileOk, LinkedState;
    var t, c := LinkedState(s, b, h, e, k), AddPart(b, h, e, k);
    LinkedDir(s, b, h, e, k);
    forall x | x in b.files && x as int < |s.dir| ensures NameOf(t.dir[x]) == NameOf(s.dir[x]) {
      if x == h {
        HeadSame(s, b, t, h, e, k);
      } else {
        OthersLinked(s, b, t.dir, h, x, e);
      }
    }
    NamesUnchanged(s, b, t, c);
  }

  // ---- eepromfs_write, allocating ------------------------------------------------------------------

  /** First entries keep name and size. */
  ghost predicate SameHeads(s: State, t: State, b: Books) {
    |t.dir| == |s.dir| && forall h :: h in b.files && h as int < |s.dir| ==>
      SizeOf(t.dir[h]) == SizeOf(s.dir[h]) && NameOf(t.dir[h]) == NameOf(s.dir[h])
  }

  lemma GrowInPlaceHeads(s: State, b: Books, h: byte, k: byte)
    requires s.Sized() && FilesOk(s, b) && EntriesOk(s, b) && Roomy(s, b, h, k)
    ensures SameHeads(s, GrownState(s, b, h, k), b)
  {
    hide Sectors, FileOk;
    var t := GrownState(s, b, h, k);
    LastAlone(s, b, h);
    forall x | x in b.files && x as int < |s.dir|
      ensures SizeOf(t.dir[x]) == SizeOf(s.dir[x]) && NameOf(t.dir[x]) == NameOf(s.dir[x])
    {
      if x == h {
        SameSize(s, b, t, h, k);
      } else {
        OtherFiles(s, b, t.dir, h, x);
      }
    }
  }

  lemma LinkNewPartHeads(s: State, b: Books, h: byte, e: byte, k: byte)
    requires s.Sized() && FilesOk(s, b) && EntriesOk(s, b) && Full(s, b, h, e, k)
    ensures SameHeads(s, LinkedState(s, b, h, e, k), b)
  {
    hide Sectors, FileOk, LinkedState;
    var t := LinkedState(s, b, h, e, k);
    LinkedDir(s, b, h, e, k);
    forall x | x in b.files && x as int < |s.dir|
      ensures SizeOf(t.dir[x]) == SizeOf(s.dir[x]) && NameOf(t.dir[x]) == NameOf(s.dir[x])
    {
      if x == h {
        HeadSame(s, b, t, h, e, k);
      } else {
        OthersLinked(s, b, t.dir, h, x, e);
      }
    }
  }

  /** Only file h has changed in the books, by one sector at its end. */
  ghost predicate Longer(b: Books, c: Books, h: byte, k: byte) {
    && h in b.files && c.files.Keys == b.files.Keys
    && (forall x :: x in b.files && x != h ==> c.files[x] == b.files[x])
    && Sectors(c.files[h]) == Sectors(b.files[h]) + [k]
  }

  lemma HandleUsable(s: State, b: Books, fh: Handle)
    requires Inv(s, b) && Positioned(b, fh) && fh.soffset < SECTOR_SIZE
    ensures Usable(s, fh)
  {
    hide Sectors, CountFree;
    LastAlone(s, b, fh.entry);
    var f := b.files[fh.entry];
    assert PartOk(s.dir, f, 0);
  }

  /** Where Extend goes, in terms of the books. */
  ghost predicate ExtendOutcome(s: State, b: Books, fh: Handle, x: Stepped)
    requires s.Sized() && fh.entry in b.files && |b.files[fh.entry]| > 0
  {
    var h, k, e := fh.entry, x.fh.sector, x.fh.curEntry;
    var last := b.files[h][|b.files[h]| - 1];
    match x.error
    case DiskFull => x.s == s && x.fh == fh && forall i :: 0 <= i < |s.usedSectors| ==> s.usedSectors[i]
    case DirFull => x.s == s && x.fh.entry == fh.entry && x.fh.size == fh.size && x.fh.mode == fh.mode
                 && forall i :: 0 <= i < |s.usedEntries| ==> s.usedEntries[i]
    case Ok =>
      && k as int < |s.usedSectors| && !s.usedSectors[k]
      && (if e == last.entry
          then Roomy(s, b, h, k) && x.s == GrownState(s, b, h, k) && x.fh == fh.(sector := k, sindex := |last.sectors| % 256)
          else Full(s, b, h, e, k) && x.s == LinkedState(s, b, h, e, k) && x.fh == fh.(sector := k, sindex := 0, curEntry := e))
    case _ => false
  }

  lemma ExtendCases(s: State, b: Books, fh: Handle)
    requires Inv(s, b) && Positioned(b, fh) && Usable(s, fh)
    ensures ExtendOutcome(s, b, fh, Extend(s, fh))
  {
    hide Sectors, CountFree, NextFree, SectorsOk, NamesOk;
    var f := b.files[fh.entry];
    assert PartOk(s.dir, f, |f| - 1);
    assert |b.sectorOwner| == |s.data| by { SectorCount(s, b); }
    NextFreeFrom(s.usedSectors, fh.sector);
    NextFreeFrom(s.usedEntries, fh.curEntry);
    LastUsed(s, b, fh.entry);
  }

  lemma SectorCount(s: State, b: Books)
    requires SectorsOk(s, b)
    ensures |b.sectorOwner| == |s.data| == |s.usedSectors|
  {}

  /** The last entry of a chain is marked as used, so a search for a free one never returns it. */
  lemma LastUsed(s: State, b: Books, h: byte)
    requires s.Sized() && FilesOk(s, b) && EntriesOk(s, b) && h in b.files && |b.files[h]| > 0
    ensures var e := b.files[h][|b.files[h]| - 1].entry; e as int < |s.dir| && s.usedEntries[e]
  {
    var f := b.files[h];
    assert PartOk(s.dir, f, |f| - 1);
  }

  /** The allocating part of eepromfs_write keeps the invariant. On success a sector that was not in
      use is the file's new last one; otherwise nothing has changed. */
  lemma ExtendKeeps(s: State, b: Books, fh: Handle) returns (c: Books)
    requires Inv(s, b) && AtEnd(b, fh) && fh.soffset == 0
    ensures Usable(s, fh)
    ensures var x := Extend(s, fh);
            && x.fh.entry == fh.entry && x.fh.size == fh.size && x.fh.mode == fh.mode
            && (x.error == Ok ==>
                  Inv(x.s, c) && AtNew(c, x.fh) && x.s.data == s.data && SameHeads(s, x.s, b)
                  && x.fh.sector as int < |s.usedSectors| && !s.usedSectors[x.fh.sector] && Longer(b, c, fh.entry, x.fh.sector))
            && (x.error != Ok ==> x.s == s && c == b)
            && (x.error == DiskFull ==> forall i :: 0 <= i < |s.usedSectors| ==> s.usedSectors[i])
            && (x.error == DirFull ==> forall i :: 0 <= i < |s.usedEntries| ==> s.usedEntries[i])
            && (x.error == Ok || x.error == DiskFull || x.error == DirFull)
  {
    hide Sectors, FilesOk, SectorsOk, EntriesOk, NamesOk, CountFree, NextFree, Extend;
    HandleUsable(s, b, fh);
    ExtendCases(s, b, fh);
    var x := Extend(s, fh);
    var h, k, e := fh.entry, x.fh.sector, x.fh.curEntry;
    c := b;
    if x.error == Ok {
      if e == b.files[h][|b.files[h]| - 1].entry {
        GrowInPlace(s, b, h, k);
        GrowInPlaceHeads(s, b, h, k);
        SectorsLonger(b.files[h], k);
        c := AddSector(b, h, k);
      } else {
        LinkNewPart(s, b, h, e, k);
        LinkNewPartHeads(s, b, h, e, k);
        SectorsMore(b.files[h], Part(e, [k]));
        c := AddPart(b, h, e, k);
      }
    }
  }

  // ---- Contents ---------------------------------------------------------------------------------------

  predicate InRange(data: seq<Sector>, ss: seq<byte>) {
    forall j :: 0 <= j < |ss| ==> ss[j] as int < |data|
  }

  /** The bytes of a list of sectors. */
  function Concat(data: seq<Sector>, ss: seq<byte>): (r: seq<byte>)
    requires InRange(data, ss)
    ensures |r| == SECTOR_SIZE * |ss|
  {
    if ss == [] then [] else Concat(data, ss[..|ss| - 1]) + data[ss[|ss| - 1]]
  }

  /** The first size bytes of a file. */
  ghost predicate HasContents(s: State, b: Books, h: byte, size: nat, bytes: seq<byte>) {
    && h in b.files && InRange(s.data, Sectors(b.files[h])) && size <= SECTOR_SIZE * |Sectors(b.files[h])|
    && bytes == Concat(s.data, Sectors(b.files[h]))[..size]
  }

  lemma {:induction false} ConcatOther(data: seq<Sector>, k: byte, sector: Sector, ss: seq<byte>)
    requires InRange(data, ss) && k as int < |data| && k !in ss
    ensures InRange(data[k := sector], ss) && Concat(data[k := sector], ss) == Concat(data, ss)
  {
    if ss != [] {
      assert ss[|ss| - 1] in ss;
      ConcatOther(data, k, sector, ss[..|ss| - 1]);
    }
  }

  /** Storing bytes behind the last ones of the last sector appends them. */
  lemma StoreAppends(data: seq<Sector>, ss: seq<byte>, at: nat, bytes: seq<byte>)
    requires InRange(data, ss) && ss != [] && at + |bytes| <= SECTOR_SIZE
    requires ss[|ss| - 1] !in ss[..|ss| - 1]
    ensures var k := ss[|ss| - 1]; var after := data[k := Patch(data[k], at, bytes)];
            var size := SECTOR_SIZE * (|ss| - 1) + at;
            && InRange(after, ss)
            && Concat(after, ss)[..size + |bytes|] == Concat(data, ss)[..size] + bytes
  {
    hide Patch;
    var n := |ss| - 1;
    var k := ss[n];
    var sector := Patch(data[k], at, bytes);
    ConcatOther(data, k, sector, ss[..n]);
    var front := Concat(data, ss[..n]);
    PrefixOfSum(front, sector, at + |bytes|);
    PrefixOfSum(front, data[k], at);
    PatchPrefix(data[k], at, bytes);
    assert front + (data[k][..at] + bytes) == (front + data[k][..at]) + bytes;
  }

  lemma PrefixOfSum(front: seq<byte>, sector: Sector, m: nat)
    requires m <= 64
    ensures (front + sector)[..|front| + m] == front + sector[..m]
  {}

  lemma PatchPrefix(sector: Sector, at: nat, bytes: seq<byte>)
    requires at + |bytes| <= SECTOR_SIZE
    ensures Patch(sector, at, bytes)[..at + |bytes|] == sector[..at] + bytes
  {}

  /** The sectors of a file are all different, and different from those of other files. */
  lemma LastSectorAlone(s: State, b: Books, h: byte)
    requires s.Sized() && SectorsOk(s, b) && h in b.files && Sectors(b.files[h]) != []
    ensures var ss := Sectors(b.files[h]);
            && InRange(s.data, ss) && ss[|ss| - 1] !in ss[..|ss| - 1]
            && forall h2 :: h2 in b.files && h2 != h ==> InRange(s.data, Sectors(b.files[h2])) && ss[|ss| - 1] !in Sectors(b.files[h2])
  {
    hide Sectors;
    var ss := Sectors(b.files[h]);
    assert b.sectorOwner[ss[|ss| - 1]] == Owned(h, |ss| - 1);
    forall h2 | h2 in b.files && h2 != h
      ensures InRange(s.data, Sectors(b.files[h2])) && ss[|ss| - 1] !in Sectors(b.files[h2])
    {
      var ss2 := Sectors(b.files[h2]);
      forall j | 0 <= j < |ss2| ensures ss2[j] != ss[|ss| - 1] {
        assert b.sectorOwner[ss2[j]] == Owned(h2, j);
      }
    }
    forall j | 0 <= j < |ss| - 1 ensures ss[j] != ss[|ss| - 1] {
      assert b.sectorOwner[ss[j]] == Owned(h, j);
    }
  }

  // ---- eepromfs_write, storing ----------------------------------------------------------------------------

  /** No other file has changed: not in the books, and not in its bytes. */
  ghost predicate OthersSame(s: State, b: Books, t: State, c: Books, h: byte) {
    && c.files.Keys == b.files.Keys
    && forall x :: x in b.files && x != h ==>
         && c.files[x] == b.files[x] && InRange(s.data, Sectors(b.files[x])) && InRange(t.data, Sectors(b.files[x]))
         && Concat(t.data, Sectors(b.files[x])) == Concat(s.data, Sectors(b.files[x]))
  }

  /** The storing part of eepromfs_write keeps the invariant and appends the bytes. */
  lemma StoreKeeps(s: State, b: Books, fh: Handle, bytes: seq<byte>, before: seq<byte>)
    requires Inv(s, b) && Usable(s, fh) && fh.soffset + |bytes| <= SECTOR_SIZE && bytes != []
    requires AtNew(b, fh) || (AtEnd(b, fh) && fh.soffset > 0)
    requires HasContents(s, b, fh.entry, fh.size, before)
    ensures var y := Store(s, fh, bytes);
            && Inv(y.s, b) && AtEnd(b, y.fh) && y.fh.entry == fh.entry && y.fh.size == fh.size + |bytes|
            && HasContents(y.s, b, fh.entry, y.fh.size, before + bytes)
            && OthersSame(s, b, y.s, b, fh.entry) && y.s.dir == s.dir
  {
    hide Sectors, FilesOk, EntriesOk, NamesOk, CountFree, Patch;
    var h := fh.entry;
    var ss := Sectors(b.files[h]);
    var k := fh.sector;
    LastSectorAlone(s, b, h);
    StoreAppends(s.data, ss, fh.soffset, bytes);
    var sector := Patch(s.data[k], fh.soffset, bytes);
    forall x | x in b.files && x != h
      ensures InRange(s.data[k := sector], Sectors(b.files[x]))
      ensures Concat(s.data[k := sector], Sectors(b.files[x])) == Concat(s.data, Sectors(b.files[x]))
    {
      ConcatOther(s.data, k, sector, Sectors(b.files[x]));
    }
    DataOnly(s, b, s.(data := s.data[k := sector]));
  }

  /** Changing sector data only keeps the invariant. */
  lemma DataOnly(s: State, b: Books, t: State)
    requires Inv(s, b) && t == s.(data := t.data) && |t.data| == |s.data|
    ensures Inv(t, b)
  {
    hide Sectors, CountFree, FileOk;
  }

  /** The number of sectors a file of this size needs. */
  predicate FilledUp(n: nat, size: nat) {
    if n == 0 then size == 0 else SECTOR_SIZE * (n - 1) < size <= SECTOR_SIZE * n
  }

  /** After a failed write the handle can only be closed; its size is the number of bytes stored. */
  ghost predicate Closable(b: Books, fh: Handle) {
    && fh.entry in b.files && fh.mode == WriteMode && FilledUp(|Sectors(b.files[fh.entry])|, fh.size)
  }

  lemma OthersSameTwice(s: State, b: Books, t: State, c: Books, u: State, d: Books, h: byte)
    requires OthersSame(s, b, t, c, h) && OthersSame(t, c, u, d, h)
    ensures OthersSame(s, b, u, d, h)
  {
    hide Sectors, Concat, InRange;
  }

  lemma OthersSameExtend(s: State, b: Books, t: State, c: Books, h: byte, k: byte)
    requires Inv(s, b) && Longer(b, c, h, k) && t.data == s.data
    ensures OthersSame(s, b, t, c, h)
  {
    hide Sectors, Concat;
    forall x | x in b.files && x != h ensures InRange(s.data, Sectors(b.files[x])) {
      var ss := Sectors(b.files[x]);
      forall j | 0 <= j < |ss| ensures ss[j] as int < |s.data| {
        assert b.sectorOwner[ss[j]] == Owned(x, j);
      }
    }
  }

  /** A file that grew by a sector has the same first bytes. */
  lemma ContentsExtend(s: State, b: Books, t: State, c: Books, h: byte, k: byte, size: nat, bytes: seq<byte>)
    requires HasContents(s, b, h, size, bytes) && Longer(b, c, h, k) && t.data == s.data && k as int < |s.data|
    ensures HasContents(t, c, h, size, bytes)
  {
    hide Sectors;
    var ss := Sectors(b.files[h]);
    assert (ss + [k])[..|ss|] == ss;
    assert Concat(s.data, ss + [k])[..size] == Concat(s.data, ss)[..size];
  }

  /** One round of the loop of eepromfs_write. */
  function Round(s: State, fh: Handle, bytes: seq<byte>): Stepped
    requires Usable(s, fh) && bytes != []
  {
    ExtendUsable(s, fh);
    var x := if fh.soffset == 0 then Extend(s, fh) else Stepped(s, fh, Ok);
    if x.error != Ok then x else Store(x.s, x.fh, bytes[..Min(|bytes|, SECTOR_SIZE - fh.soffset)])
  }

  /** What any number of rounds does: the first n bytes are appended, and nothing else happens. */
  ghost predicate Appended(s: State, b: Books, fh: Handle, t: State, c: Books, th: Handle, before: seq<byte>, bytes: seq<byte>, n: nat) {
    && Inv(t, c) && th.entry == fh.entry && th.size == fh.size + n && th.mode == fh.mode && n <= |bytes|
    && HasContents(t, c, fh.entry, th.size, before + bytes[..n])
    && OthersSame(s, b, t, c, fh.entry) && SameHeads(s, t, b)
  }

  lemma RoundKeeps(s: State, b: Books, fh: Handle, bytes: seq<byte>, before: seq<byte>) returns (c: Books)
    requires Inv(s, b) && AtEnd(b, fh) && bytes != [] && HasContents(s, b, fh.entry, fh.size, before)
    ensures Usable(s, fh)
    ensures var y := Round(s, fh, bytes); var n := Min(|bytes|, SECTOR_SIZE - fh.soffset);
            && (y.error == Ok ==> Appended(s, b, fh, y.s, c, y.fh, before, bytes, n) && AtEnd(c, y.fh))
            && (y.error != Ok ==> y.s == s && c == b && fh.soffset == 0 && y.fh.entry == fh.entry && y.fh.size == fh.size && y.fh.mode == fh.mode)
            && (y.error == Ok || y.error == DiskFull || y.error == DirFull)
            && (y.error == DiskFull ==> forall i :: 0 <= i < |s.usedSectors| ==> s.usedSectors[i])
            && (y.error == DirFull ==> forall i :: 0 <= i < |s.usedEntries| ==> s.usedEntries[i])
  {
    hide Inv, Sectors, Extend, Concat, Positioned, Patch, SameHeads, OthersSame, Longer, HasContents;
    EndUsable(s, b, fh);
    c := b;
    var chunk := bytes[..Min(|bytes|, SECTOR_SIZE - fh.soffset)];
    if fh.soffset == 0 {
      c := ExtendKeeps(s, b, fh);
      var x := Extend(s, fh);
      if x.error == Ok {
        NewUsable(x.s, c, x.fh);
        ContentsExtend(s, b, x.s, c, fh.entry, x.fh.sector, fh.size, before);
        OthersSameExtend(s, b, x.s, c, fh.entry, x.fh.sector);
        StoreKeeps(x.s, c, x.fh, chunk, before);
        var y := Store(x.s, x.fh, chunk);
        OthersSameTwice(s, b, x.s, c, y.s, c, fh.entry);
        SameHeadsDir(s, x.s, y.s, b);
      }
    } else {
      StoreKeeps(s, b, fh, chunk, before);
      SameHeadsSelf(s, Store(s, fh, chunk).s, b);
    }
  }

  lemma EndUsable(s: State, b: Books, fh: Handle)
    requires Inv(s, b) && AtEnd(b, fh)
    ensures Usable(s, fh) && fh.mode == WriteMode
  {
    HandleUsable(s, b, fh);
  }

  lemma NewUsable(s: State, b: Books, fh: Handle)
    requires Inv(s, b) && AtNew(b, fh)
    ensures Usable(s, fh) && fh.soffset == 0 && |s.usedSectors| == |s.data|
  {
    HandleUsable(s, b, fh);
  }

  lemma SameHeadsDir(s: State, t: State, u: State, b: Books)
    requires SameHeads(s, t, b) && u.dir == t.dir
    ensures SameHeads(s, u, b)
  {}

  lemma SameHeadsSelf(s: State, u: State, b: Books)
    requires u.dir == s.dir
    ensures SameHeads(s, u, b)
  {}

  /** eepromfs_write, for every state with the invariant, every file open for writing and every buffer:
      the bytes counted as written are appended to the file, no other file changes, and the invariant
      holds. It stops early only when no sector or no directory entry is left. */
  lemma {:induction false} WriteKeeps(s: State, b: Books, fh: Handle, bytes: seq<byte>, count: nat, before: seq<byte>)
    returns (c: Books)
    requires Inv(s, b) && AtEnd(b, fh) && HasContents(s, b, fh.entry, fh.size, before)
    ensures Usable(s, fh)
    ensures var r := WriteLoop(s, fh, bytes, count);
            && count <= r.count && Appended(s, b, fh, r.s, c, r.fh, before, bytes, r.count - count)
            && (r.error == Ok ==> r.count - count == |bytes| && AtEnd(c, r.fh))
            && (r.error != Ok ==> Closable(c, r.fh))
            && (r.error == DiskFull ==> forall i :: 0 <= i < |r.s.usedSectors| ==> r.s.usedSectors[i])
            && (r.error == DirFull ==> forall i :: 0 <= i < |r.s.usedEntries| ==> r.s.usedEntries[i])
            && (r.error == Ok || r.error == DiskFull || r.error == DirFull)
    decreases |bytes|
  {
    hide Inv, Sectors, Extend, Concat, Positioned, Store, SameHeads, OthersSame, HasContents, Closable;
    EndUsable(s, b, fh);
    if bytes == [] {
      c := b;
      NothingAppended(s, b, fh, before);
    } else {
      var n := Min(|bytes|, SECTOR_SIZE - fh.soffset);
      var y := Round(s, fh, bytes);
      c := RoundKeeps(s, b, fh, bytes, before);
      WriteLoopRound(s, fh, bytes, count);
      if y.error == Ok {
        EndUsable(y.s, c, y.fh);
        var d := WriteKeeps(y.s, c, y.fh, bytes[n..], count + n, before + bytes[..n]);
        var r := WriteLoop(y.s, y.fh, bytes[n..], count + n);
        AppendedTwice(s, b, fh, y.s, c, y.fh, r.s, d, r.fh, before, bytes, n, r.count - count - n);
        c := d;
      } else {
        NothingAppended(s, b, fh, before);
        FullIsClosable(b, fh, y.fh);
        AppendedHandle(s, b, fh, y.fh, before, bytes);
      }
    }
  }

  lemma WriteLoopRound(s: State, fh: Handle, bytes: seq<byte>, count: nat)
    requires Usable(s, fh) && bytes != []
    ensures var y := Round(s, fh, bytes); var n := Min(|bytes|, SECTOR_SIZE - fh.soffset);
            if y.error != Ok then WriteLoop(s, fh, bytes, count) == Written(y.s, y.fh, count, y.error)
            else Usable(y.s, y.fh) && WriteLoop(s, fh, bytes, count) == WriteLoop(y.s, y.fh, bytes[n..], count + n)
  {
    hide Extend, Patch;
    ExtendUsable(s, fh);
  }

  lemma NothingAppended(s: State, b: Books, fh: Handle, before: seq<byte>)
    requires Inv(s, b) && AtEnd(b, fh) && HasContents(s, b, fh.entry, fh.size, before)
    ensures Appended(s, b, fh, s, b, fh, before, [], 0)
  {
    hide Sectors, Concat;
    assert before + [] == before;
    forall x | x in b.files ensures InRange(s.data, Sectors(b.files[x])) {
      var ss := Sectors(b.files[x]);
      forall j | 0 <= j < |ss| ensures ss[j] as int < |s.data| {
        assert b.sectorOwner[ss[j]] == Owned(x, j);
      }
    }
  }

  lemma AppendedHandle(s: State, b: Books, fh: Handle, th: Handle, before: seq<byte>, bytes: seq<byte>)
    requires Appended(s, b, fh, s, b, fh, before, [], 0)
    requires th.entry == fh.entry && th.size == fh.size && th.mode == fh.mode
    ensures Appended(s, b, fh, s, b, th, before, bytes, 0)
  {
    hide Inv, HasContents, OthersSame, SameHeads;
    var none: seq<byte> := [];
    assert bytes[..0] == none[..0];
  }

  lemma FullIsClosable(b: Books, fh: Handle, th: Handle)
    requires AtEnd(b, fh) && fh.soffset == 0
    requires th.entry == fh.entry && th.size == fh.size && th.mode == fh.mode
    ensures Closable(b, th)
  {}

  lemma AppendedTwice(s: State, b: Books, fh: Handle, t: State, c: Books, th: Handle, u: State, d: Books, uh: Handle,
                      before: seq<byte>, bytes: seq<byte>, n: nat, m: nat)
    requires n <= |bytes| && Appended(s, b, fh, t, c, th, before, bytes, n)
    requires Appended(t, c, th, u, d, uh, before + bytes[..n], bytes[n..], m)
    ensures Appended(s, b, fh, u, d, uh, before, bytes, n + m)
  {
    hide Inv, HasContents, OthersSame, Sectors;
    assert (before + bytes[..n]) + bytes[n..][..m] == before + bytes[..n + m];
    OthersSameTwice(s, b, t, c, u, d, fh.entry);
    OthersKeys(s, b, t, c, fh.entry);
  }

  lemma OthersKeys(s: State, b: Books, t: State, c: Books, h: byte)
    requires OthersSame(s, b, t, c, h)
    ensures c.files.Keys == b.files.Keys
  {}

  // ---- Writes into the last sector -------------------------------------------------------------------------

  /** Bytes that fit into the current sector. */
  function Room(soffset: nat): nat
    requires soffset < SECTOR_SIZE
  {
    if soffset == 0 then 0 else SECTOR_SIZE - soffset
  }

  /** A write that needs no other sector. */
  function SmallResult(s: State, fh: Handle, bytes: seq<byte>): Written
    requires Usable(s, fh) && |bytes| <= Room(fh.soffset)
  {
    if bytes == [] then Written(s, fh, 0, Ok)
    else
      var y := Store(s, fh, bytes);
      Written(y.s, y.fh, |bytes|, Ok)
  }

  lemma SmallWriteOnce(s: State, fh: Handle, bytes: seq<byte>)
    requires Usable(s, fh) && fh.mode == WriteMode && |bytes| <= Room(fh.soffset)
    ensures Write(s, fh, bytes) == SmallResult(s, fh, bytes)
  {
    hide Patch, WriteLoop;
    if bytes != [] {
      assert bytes[..|bytes|] == bytes;
      WriteLoopRound(s, fh, bytes, 0);
      var y := Store(s, fh, bytes);
      WriteLoopEnds(y.s, y.fh, bytes[|bytes|..], |bytes|);
    } else {
      WriteLoopEnds(s, fh, bytes, 0);
    }
  }

  lemma WriteLoopEnds(s: State, fh: Handle, bytes: seq<byte>, count: nat)
    requires Usable(s, fh) && bytes == []
    ensures WriteLoop(s, fh, bytes, count) == Written(s, fh, count, Ok)
  {}
}
