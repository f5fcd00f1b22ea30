/** Appending to a file of the EEPROM file system. eepromfs_open leaves the index of the current sector
    at 0, so the next sector numbers go to the wrong slots unless the last directory entry lists exactly
    one sector. This says exactly when appended bytes can be read again (src/eeprom-fs.c). */
module EefsAppend {
  import opened Bits
  import opened EefsModel
  import opened EefsInvariant
  import opened EefsWrite
  import opened EefsFiles
  import opened EefsDelete
  import opened EefsMount
  import opened EefsRead
  import opened EefsDangling
  import opened EefsRuns

  /** The bytes fit into the last sector, or the file's last entry lists one sector. */
  predicate AppendSafe(s: State, h: byte, bytes: seq<byte>)
    requires s.Sized() && h as int < |s.dir|
  {
    |bytes| <= Room(SizeOf(s.dir[h]) % SECTOR_SIZE) || LastIndex(s.dir[LastEntry(s.dir, h, |s.dir|)], 0) == 0
  }

  /** A file that has data and was closed: as many sectors as its size needs. */
  ghost predicate Complete(s: State, b: Books, h: byte) {
    h in b.files && h as int < |s.dir| && SizeOf(s.dir[h]) > 0 && FilledUp(|Sectors(b.files[h])|, SizeOf(s.dir[h]))
  }

  // ---- Opening ------------------------------------------------------------------------------

  lemma {:induction false} LastIndexOfEntry(e: Entry, sectors: seq<byte>, i: nat)
    requires Holds(e, sectors) && sectors != [] && i <= |sectors| && forall j :: 0 <= j < |sectors| ==> sectors[j] != FREE
    ensures LastIndex(e, i) as int == |sectors| - 1
    decreases |sectors| - i
  {
    if i < |sectors| {
      LastIndexOfEntry(e, sectors, i + 1);
    }
  }

  /** The last entry of a file with data lists a sector, and that is the file's last one. */
  lemma LastPart(s: State, b: Books, h: byte)
    requires Inv(s, b) && h in b.files && Sectors(b.files[h]) != []
    ensures var f := b.files[h];
            && |f| > 0 && f[|f| - 1].sectors != [] && f[|f| - 1].entry as int < |s.dir|
            && Sectors(f)[|Sectors(f)| - 1] == f[|f| - 1].sectors[|f[|f| - 1].sectors| - 1]
            && Holds(s.dir[f[|f| - 1].entry], f[|f| - 1].sectors)
  {
    hide Inv, Sectors, FileOk, Holds, PlaceIn;
    var f := b.files[h];
    ChainOf(s, b, h);
    NotEmpty(s.dir, h, f);
    PartFacts(s.dir, h, f, |f| - 1);
    if |f| == 1 {
      assert f == [] + [f[0]];
      SectorsMore([], f[0]);
      NoSectors();
    }
    assert f == f[..|f| - 1] + [f[|f| - 1]];
    SectorsMore(f[..|f| - 1], f[|f| - 1]);
  }

  lemma NotEmpty(dir: seq<Entry>, h: byte, f: File)
    requires FileOk(dir, h, f)
    ensures |f| > 0 && f[0].entry == h
  {}

  /** Where eepromfs_open leaves the handle: at the file's last sector, but with slot index 0. */
  lemma OpenAppendStands(s: State, b: Books, name: Name)
    requires Inv(s, b) && Find(s.dir, name) != NONE && Complete(s, b, Find(s.dir, name))
    ensures Find(s.dir, name) in b.files
    ensures var h := Find(s.dir, name); var o := OpenAppend(s, name); var f := b.files[h]; var n := |f[|f| - 1].sectors|;
            && |f| > 0 && n > 0 && o.error == Ok && o.s == s && o.fh.entry == h && o.fh.size == SizeOf(s.dir[h])
            && LastEntry(s.dir, h, |s.dir|) == f[|f| - 1].entry && f[|f| - 1].entry as int < |s.dir|
            && LastIndex(s.dir[f[|f| - 1].entry], 0) as int == n - 1
            && o.fh.soffset == o.fh.size % SECTOR_SIZE && o.fh.sindex == 0 && o.fh.mode == WriteMode && o.fh.curEntry == f[|f| - 1].entry
            && o.fh.sector as int < |s.data|
            && AtEnd(b, o.fh.(sindex := (n - 1) % 256))
  {
    hide Inv, Sectors, Find, Holds, LastEntry, LastIndex, SizeOf;
    Inside(s, b);
    FindSpec(s, b, name);
    var h := Find(s.dir, name);
    var f := b.files[h];
    FilesReadable(s, b, h);
    LastPart(s, b, h);
    ChainIsShort(s, b, h);
    FirstEntry(s, b, h);
    LastEntryOfChain(s, b, h, 0, |s.dir|);
    PartSectors(s.data, f, |f| - 1);
    LastIndexOfEntry(s.dir[f[|f| - 1].entry], f[|f| - 1].sectors, 0);
    SlotCount(s.dir[f[|f| - 1].entry], f[|f| - 1].sectors);
    LastSlot(s.dir[f[|f| - 1].entry], f[|f| - 1].sectors);
    FullCount(|Sectors(f)|, SizeOf(s.dir[h]));
  }

  lemma LastSlot(e: Entry, sectors: seq<byte>)
    requires Holds(e, sectors) && sectors != []
    ensures |sectors| <= 30 && e[|sectors| - 1] == sectors[|sectors| - 1]
  {}

  lemma FullCount(n: nat, size: nat)
    requires FilledUp(n, size) && size > 0
    ensures n > 0 && if size % SECTOR_SIZE == 0 then size == SECTOR_SIZE * n else size == SECTOR_SIZE * (n - 1) + size % SECTOR_SIZE
  {}

  // ---- Safe appends ----------------------------------------------------------------------------

  /** A write into the last sector does not look at the slot index. */
  lemma SmallWrite(s: State, fh: Handle, bytes: seq<byte>)
    requires Usable(s, fh) && fh.mode == WriteMode && |bytes| <= Room(fh.soffset)
    ensures var w := Write(s, fh, bytes);
            && w.error == Ok && w.fh.sindex == fh.sindex
            && forall i: byte :: Usable(s, fh.(sindex := i)) && Write(s, fh.(sindex := i), bytes) == w.(fh := w.fh.(sindex := i))
  {
    hide Patch;
    forall i: byte ensures Usable(s, fh.(sindex := i)) && Write(s, fh.(sindex := i), bytes) == SmallResult(s, fh.(sindex := i), bytes) {
      SmallWriteOnce(s, fh.(sindex := i), bytes);
    }
    assert fh == fh.(sindex := fh.sindex);
    SmallWriteOnce(s, fh, bytes);
  }

  /** The file system with one channel that has a file open. */
  function OneChannel(s: State, fh: Handle): System {
    System(s, map[0 := fh])
  }

  /** With the right slot index, a file opened for appending is a draft that starts with what it has. */
  lemma DraftOpened(y: System, b: Books, c: Catalog, name: Name, fh: Handle)
    requires Represents(y, b, c) && name in c.files && Usable(y.s, fh)
    requires fh.entry == Find(y.s.dir, name) && AtEnd(b, fh) && fh.entry as int < |y.s.dir| && fh.size == SizeOf(y.s.dir[fh.entry])
    ensures Represents(OneChannel(y.s, fh), b, Catalog(c.files, map[0 := Draft(name, c.files[name])]))
  {
    hide Inv, Find, AtEnd, DraftMatches, Readable, SizeOf, Sectors, Usable;
    FindSpec(y.s, b, name);
    var h := fh.entry;
    NamesFound(y.s, b, c.files, h, name);
    assert FileMatches(y.s, b, c.files, h);
    OpenedDraft(y.s, b, fh, c.files[name]);
    DraftMode(y.s, b, fh, Draft(name, c.files[name]));
  }

  lemma DraftMode(s: State, b: Books, fh: Handle, d: Draft)
    requires DraftMatches(s, b, fh.entry, fh, d)
    ensures fh.mode == WriteMode
  {
    DraftFile(s, b, fh.entry, fh, d);
  }

  lemma OpenedDraft(s: State, b: Books, fh: Handle, bytes: seq<byte>)
    requires Readable(s, b, fh.entry) && AtEnd(b, fh) && fh.size == SizeOf(s.dir[fh.entry]) && bytes == Stored(s, b, fh.entry)
    ensures DraftMatches(s, b, fh.entry, fh, Draft(NameOf(s.dir[fh.entry]), bytes))
  {
    hide Sectors, Concat, SizeOf;
  }

  /** Opening, writing and closing. */
  function Appending(s: State, name: Name, bytes: seq<byte>): Written
    requires s.Sized() && Find(s.dir, name) as int < |s.dir| && Usable(s, OpenAppend(s, name).fh)
  {
    Write(s, OpenAppend(s, name).fh, bytes)
  }

  lemma AppendUsable(s: State, b: Books, name: Name)
    requires Inv(s, b) && Find(s.dir, name) != NONE && Complete(s, b, Find(s.dir, name))
    ensures s.Sized() && Find(s.dir, name) as int < |s.dir| && Usable(s, OpenAppend(s, name).fh)
  {
    hide Inv, Find, OpenAppend, Sectors, SizeOf;
    OpenAppendStands(s, b, name);
    Inside(s, b);
    assert OpenAppend(s, name).fh.soffset < SECTOR_SIZE;
  }

  /** A safe append writes what a handle with the right slot index would write. */
  lemma SafeIsDraft(s: State, fh: Handle, good: Handle, bytes: seq<byte>)
    requires Usable(s, fh) && fh.mode == WriteMode && good == fh.(sindex := good.sindex)
    requires |bytes| <= Room(fh.soffset) || good == fh
    ensures Usable(s, good)
    ensures var w, v := Write(s, fh, bytes), Write(s, good, bytes);
            w.error == v.error && w.s == v.s && w.fh == v.fh.(sindex := w.fh.sindex)
  {
    hide Write;
    if |bytes| <= Room(fh.soffset) {
      SmallWrite(s, fh, bytes);
    }
  }

  /** Opened for appending, at the end of the file with the name. */
  ghost predicate OpenedWell(s: State, b: Books, name: Name, fh: Handle) {
    && s.Sized() && fh.entry == Find(s.dir, name) && AtEnd(b, fh) && fh.entry as int < |s.dir|
    && fh.size == SizeOf(s.dir[fh.entry])
  }

  /** Writing through a handle with the right slot index, then reading everything. */
  lemma DraftAppendReads(y: System, b: Books, c: Catalog, name: Name, bytes: seq<byte>, good: Handle)
    requires Represents(y, b, c) && name in c.files && OpenedWell(y.s, b, name, good) && Writes(y.s, good, bytes)
    ensures var all := c.files[name] + bytes; Recalled(y.s, good, bytes, name, [|all|]) == Content(all)
  {
    hide Represents, Find, SizeOf, Writes, Recalled, AtEnd;
    CatalogFacts(y, b, c, name);
    WritesUsable(y.s, good, bytes);
    DraftOpened(y, b, c, name, good);
    var all := c.files[name] + bytes;
    WrittenIsRead(OneChannel(y.s, good), b, Catalog(c.files, map[0 := Draft(name, c.files[name])]), 0, bytes, [|all|]);
    assert Sum([|all|]) == |all|;
  }

  lemma WritesUsable(s: State, fh: Handle, bytes: seq<byte>)
    requires Writes(s, fh, bytes)
    ensures Usable(s, fh)
  {}

  /** A closed file with data, in a file system that a run can reach. */
  ghost predicate Appendable(y: System, b: Books, c: Catalog, name: Name) {
    && Represents(y, b, c) && name in c.files && Complete(y.s, b, Find(y.s.dir, name))
    && Find(y.s.dir, name) as int < |y.s.dir| && Usable(y.s, OpenAppend(y.s, name).fh)
  }

  /** What reading delivers after opening for appending, writing and closing. */
  function ReadBack(s: State, name: Name, bytes: seq<byte>, length: nat): Observation
    requires s.Sized()
  {
    Recalled(s, OpenAppend(s, name).fh, bytes, name, [length])
  }

  lemma SafeAppendReads(y: System, b: Books, c: Catalog, name: Name, bytes: seq<byte>)
    requires Appendable(y, b, c, name)
    requires AppendSafe(y.s, Find(y.s.dir, name), bytes) && Appending(y.s, name, bytes).error == Ok
    ensures name in c.files && y.s.Sized()
    ensures var all := c.files[name] + bytes; ReadBack(y.s, name, bytes, |all|) == Content(all)
  {
    hide Represents, Inv, Find, OpenAppend, Sectors, SizeOf, Write, Observe, Complete, Usable, LastIndex, LastEntry, AtEnd, Close;
    CatalogFacts(y, b, c, name);
    var h, fh := Find(y.s.dir, name), OpenAppend(y.s, name).fh;
    OpenAppendStands(y.s, b, name);
    var f := b.files[h];
    var good := fh.(sindex := (|f[|f| - 1].sectors| - 1) % 256);
    SafeIsDraft(y.s, fh, good, bytes);
    DraftAppendReads(y, b, c, name, bytes, good);
    SameClose(Write(y.s, fh, bytes), Write(y.s, good, bytes));
  }

  lemma SameClose(w: Written, v: Written)
    requires w.s == v.s && w.fh == v.fh.(sindex := w.fh.sindex) && w.fh.entry as int < |w.s.dir|
    ensures Close(w.s, w.fh) == Close(v.s, v.fh)
  {}

  lemma CatalogFacts(y: System, b: Books, c: Catalog, name: Name)
    requires Represents(y, b, c) && name in c.files
    ensures Inv(y.s, b) && y.s.Sized() && Find(y.s.dir, name) != NONE && |c.files[name]| >= 0
  {}

  // ---- Unsafe appends -------------------------------------------------------------------------------

  /** The chain of a file whose handle may stand at the wrong slot of the last entry. Only the directory
      matters here: the sectors it lists may no longer be the ones that were written. */
  ghost predicate Loose(s: State, h: byte, f: File, fh: Handle) {
    && s.Sized() && FileOk(s.dir, h, f) && LastApart(f) && InRange(s.data, Sectors(f))
    && (forall k :: 0 <= k < |f| ==> EntryUsed(s, f[k].entry))
    && (forall i :: 0 <= i < |s.dir| && Live(s.dir[i]) ==> s.usedEntries[i])
    && fh.entry == h && fh.mode == WriteMode && fh.soffset == fh.size % SECTOR_SIZE && fh.sector as int < |s.data|
    && fh.curEntry == f[|f| - 1].entry && fh.sindex as int < |f[|f| - 1].sectors|
  }

  predicate EntryUsed(s: State, e: byte) {
    e as int < |s.usedEntries| && s.usedEntries[e]
  }

  ghost predicate LastApart(f: File) {
    |f| > 0 && forall j :: 0 <= j < |f| - 1 ==> f[j].entry != f[|f| - 1].entry
  }

  /** Before the first new sector: its number will replace one that the entry lists. */
  ghost predicate Due(f: File, fh: Handle, bytes: seq<byte>) {
    && |f| > 0 && fh.soffset < SECTOR_SIZE && fh.sindex as int + 1 < |f[|f| - 1].sectors|
    && fh.size + Room(fh.soffset) == SECTOR_SIZE * |Sectors(f)| && |bytes| > Room(fh.soffset)
  }

  /** More bytes than the listed sectors can hold. */
  ghost predicate Lagging(f: File, fh: Handle) {
    fh.size > SECTOR_SIZE * |Sectors(f)|
  }

  lemma LooseUsable(s: State, h: byte, f: File, fh: Handle)
    requires Loose(s, h, f, fh)
    ensures Usable(s, fh) && fh.mode == WriteMode && |f| > 0
  {
    hide Sectors;
    assert PartOk(s.dir, f, 0) && PartOk(s.dir, f, |f| - 1);
  }

  /** Names are found where they were. */
  ghost predicate SameNames(s: State, t: State) {
    |t.dir| == |s.dir| && forall i, n :: 0 <= i < |s.dir| ==> Named(t.dir[i], n) == Named(s.dir[i], n)
  }

  /** A slot that already lists a sector gets another number. */
  lemma SlotReplaced(dir: seq<Entry>, h: byte, f: File, i: nat, k: byte)
    requires FileOk(dir, h, f) && LastApart(f) && i < |f[|f| - 1].sectors|
    ensures var last := f[|f| - 1];
            && i < 30 && last.entry as int < |dir|
            && FileOk(dir[last.entry := dir[last.entry][i := k]], h, f[|f| - 1 := Part(last.entry, last.sectors[i := k])])
  {
    var n := |f| - 1;
    var last := f[n];
    assert PartOk(dir, f, n);
    var e := dir[last.entry][i := k];
    var dir2, f2 := dir[last.entry := e], f[n := Part(last.entry, last.sectors[i := k])];
    assert Holds(e, last.sectors[i := k]);
    forall j | 0 <= j < |f2| ensures PartOk(dir2, f2, j) {
      assert PartOk(dir, f, j);
    }
  }

  lemma SectorsReplaced(f: File, i: nat, k: byte)
    requires |f| > 0 && i < |f[|f| - 1].sectors|
    ensures var last := f[|f| - 1]; var front := |Sectors(f[..|f| - 1])|;
            && front + i < |Sectors(f)|
            && Sectors(f[|f| - 1 := Part(last.entry, last.sectors[i := k])]) == Sectors(f)[front + i := k]
  {
    var last := f[|f| - 1];
    var g := f[|f| - 1 := Part(last.entry, last.sectors[i := k])];
    assert g[..|f| - 1] == f[..|f| - 1];
  }

  lemma SlotSameNames(s: State, e: byte, i: nat, k: byte)
    requires s.Sized() && e as int < |s.dir| && i < MaxSectors(s.dir[e]) && k as int < |s.data|
    ensures i < 30 && SameNames(s, NumberStored(s, e, i, k))
  {
    var d, t := s.dir[e], NumberStored(s, e, i, k);
    if !IsList(d) {
      assert d[i := k][NAME..SIZE] == d[NAME..SIZE];
    }
    assert IsList(t.dir[e]) == IsList(d) && Live(t.dir[e]) == Live(d);
  }

  /** Where Extend goes from a loose handle. */
  lemma LooseExtend(s: State, h: byte, f: File, fh: Handle)
    requires Loose(s, h, f, fh)
    ensures Usable(s, fh)
    ensures var x := Extend(s, fh); var k := x.fh.sector; var last := f[|f| - 1]; var i := fh.sindex as nat + 1;
            x.error == Ok ==>
              && k as int < |s.data| && !s.usedSectors[k] && last.entry as int < |s.dir|
              && x.fh.soffset == fh.soffset && x.fh.size == fh.size && x.fh.entry == fh.entry && x.fh.mode == fh.mode
              && if i < MaxSectors(s.dir[last.entry])
                 then i < 30 && x.s == NumberStored(s, last.entry, i, k) && x.fh.curEntry == last.entry && x.fh.sindex as int == i
                 else
                   var e := x.fh.curEntry;
                   && e as int < |s.dir| && !s.usedEntries[e] && x.fh.sindex == 0
                   && x.s == NewEntry(s, last.entry, e, k)
  {
    hide Sectors, NextFree, FileOk, Live;
    LooseUsable(s, h, f, fh);
    NextFreeFrom(s.usedSectors, fh.sector);
    NextFreeFrom(s.usedEntries, fh.curEntry);
    LooseSlots(s, h, f, fh);
  }

  lemma LooseSlots(s: State, h: byte, f: File, fh: Handle)
    requires Loose(s, h, f, fh)
    ensures |f| > 0 && f[|f| - 1].entry as int < |s.dir| && fh.sindex as int + 1 <= MaxSectors(s.dir[f[|f| - 1].entry])
    ensures |f[|f| - 1].sectors| <= MaxSectors(s.dir[f[|f| - 1].entry])
  {
    hide Sectors;
    assert PartOk(s.dir, f, |f| - 1);
  }

  function NewEntry(s: State, last: byte, e: byte, k: byte): State
    requires s.Sized() && last as int < |s.dir| && e as int < |s.dir| && k as int < |s.data|
  {
    var dir := s.dir[last := s.dir[last][NEXT := e]];
    NumberStored(s.(dir := dir[e := FreshList()], usedEntries := s.usedEntries[e := true]), e, 0, k)
  }

  /** One more sector written, at most one more listed. */
  ghost predicate Wider(s: State, f: File, t: State, g: File) {
    && |Sectors(g)| <= |Sectors(f)| + 1 && SameNames(s, t) && t.Sized()
    && CountFree(t.usedSectors) + 1 == CountFree(s.usedSectors)
  }

  lemma ExtendReplaces(s: State, h: byte, f: File, fh: Handle, x: Stepped, i: nat)
    requires Loose(s, h, f, fh) && i == fh.sindex as nat + 1 && i < |f[|f| - 1].sectors| && i < 30
    requires x.fh.sector as int < |s.data| && !s.usedSectors[x.fh.sector] && f[|f| - 1].entry as int < |s.dir|
    requires x.s == NumberStored(s, f[|f| - 1].entry, i, x.fh.sector)
    requires x.fh == fh.(sector := x.fh.sector, sindex := i)
    ensures var last := f[|f| - 1]; var g := f[|f| - 1 := Part(last.entry, last.sectors[i := x.fh.sector])];
            Loose(x.s, h, g, x.fh) && |Sectors(g)| == |Sectors(f)| && Wider(s, f, x.s, g)
  {
    hide Sectors, CountFree, PartOk, Live, FileOk;
    LooseSlots(s, h, f, fh);
    var last, k := f[|f| - 1], x.fh.sector;
    SlotReplaced(s.dir, h, f, i, k);
    SectorsReplaced(f, i, k);
    SlotSameNames(s, last.entry, i, k);
    CountFreeUpdate(s.usedSectors, k as nat, true);
    SlotLive(s.dir[last.entry], i, k);
  }

  lemma SlotLive(e: Entry, i: nat, k: byte)
    requires i < 30
    ensures Live(e[i := k]) == Live(e)
  {}

  lemma ExtendAppends(s: State, h: byte, f: File, fh: Handle, x: Stepped, i: nat)
    requires Loose(s, h, f, fh) && i == fh.sindex as nat + 1 && i == |f[|f| - 1].sectors| && i < 30
    requires x.fh.sector as int < |s.data| && !s.usedSectors[x.fh.sector]
    requires f[|f| - 1].entry as int < |s.dir| && i < MaxSectors(s.dir[f[|f| - 1].entry])
    requires x.s == NumberStored(s, f[|f| - 1].entry, i, x.fh.sector)
    requires x.fh == fh.(sector := x.fh.sector, sindex := i)
    ensures var last := f[|f| - 1]; var g := f[|f| - 1 := Part(last.entry, last.sectors + [x.fh.sector])];
            Loose(x.s, h, g, x.fh) && Wider(s, f, x.s, g)
  {
    hide Sectors, CountFree, PartOk, Live, FileOk;
    var last, k := f[|f| - 1], x.fh.sector;
    SlotStored(s.dir, h, f, k);
    SectorsLonger(f, k);
    SlotSameNames(s, last.entry, i, k);
    CountFreeUpdate(s.usedSectors, k as nat, true);
    SlotLive(s.dir[last.entry], i, k);
  }

  lemma ExtendLinks(s: State, h: byte, f: File, fh: Handle, x: Stepped)
    requires Loose(s, h, f, fh) && f[|f| - 1].entry as int < |s.dir| && |f[|f| - 1].sectors| == MaxSectors(s.dir[f[|f| - 1].entry])
    requires x.fh.sector as int < |s.data| && !s.usedSectors[x.fh.sector] && x.fh.curEntry as int < |s.dir| && !s.usedEntries[x.fh.curEntry]
    requires x.s == NewEntry(s, f[|f| - 1].entry, x.fh.curEntry, x.fh.sector)
    requires x.fh == fh.(sector := x.fh.sector, sindex := 0, curEntry := x.fh.curEntry)
    ensures var g := f + [Part(x.fh.curEntry, [x.fh.sector])];
            Loose(x.s, h, g, x.fh) && Wider(s, f, x.s, g)
  {
    hide Sectors, CountFree, PartOk, Live, FileOk, Named;
    var last, k, e := f[|f| - 1].entry, x.fh.sector, x.fh.curEntry;
    forall j | 0 <= j < |f| ensures f[j].entry != e {
      assert EntryUsed(s, f[j].entry);
    }
    ChainLinked(s.dir, h, f, e, k);
    SectorsMore(f, Part(e, [k]));
    LinkSameNames(s, last, e, k);
    CountFreeUpdate(s.usedSectors, k as nat, true);
  }

  lemma LinkSameNames(s: State, last: byte, e: byte, k: byte)
    requires s.Sized() && last as int < |s.dir| && e as int < |s.dir| && k as int < |s.data| && last != e && !Live(s.dir[e])
    ensures var t := NewEntry(s, last, e, k);
            && SameNames(s, t) && t.dir == s.dir[last := s.dir[last][NEXT := e]][e := FreshList()[0 := k]]
            && Live(t.dir[last]) == Live(s.dir[last]) && t.usedEntries == s.usedEntries[e := true]
            && t.usedSectors == s.usedSectors[k := true] && t.data == s.data
  {
    var t := NewEntry(s, last, e, k);
    var d := s.dir[last];
    assert t.dir[last] == d[NEXT := e] && d[NEXT := e][NAME..SIZE] == d[NAME..SIZE];
    assert IsList(t.dir[e]);
  }

  /** Storing bytes in the current sector. */
  lemma LooseStore(s: State, h: byte, f: File, fh: Handle, bytes: seq<byte>)
    requires Loose(s, h, f, fh) && fh.soffset + |bytes| <= SECTOR_SIZE
    ensures var y := Store(s, fh, bytes);
            && Loose(y.s, h, f, y.fh) && SameNames(s, y.s) && y.fh.size == fh.size + |bytes| && y.fh.sindex == fh.sindex
            && y.s.usedSectors == s.usedSectors && y.fh.soffset == (fh.soffset + |bytes|) % SECTOR_SIZE
  {
    hide Sectors, FileOk, Patch;
    SizeModulo(fh.size, fh.soffset, |bytes|);
  }

  lemma SizeModulo(size: nat, soffset: nat, n: nat)
    requires soffset == size % SECTOR_SIZE
    ensures (soffset + n) % SECTOR_SIZE == (size + n) % SECTOR_SIZE
  {
    var q := size / SECTOR_SIZE;
    assert size + n == SECTOR_SIZE * q + (soffset + n);
  }

  lemma LooseExtended(s: State, h: byte, f: File, fh: Handle) returns (g: File)
    requires Loose(s, h, f, fh)
    ensures Usable(s, fh)
    ensures var x := Extend(s, fh);
            x.error == Ok ==>
              && Loose(x.s, h, g, x.fh) && Wider(s, f, x.s, g) && x.fh.size == fh.size && x.fh.soffset == fh.soffset
              && (|f| > 0 && fh.sindex as int + 1 < |f[|f| - 1].sectors| ==> |Sectors(g)| == |Sectors(f)|)
  {
    hide Loose, Sectors, Extend, Wider, Usable, NumberStored, NewEntry;
    LooseExtend(s, h, f, fh);
    LooseSlots(s, h, f, fh);
    LooseFacts(s, h, f, fh);
    UsableIndices(s, fh);
    var x, i, last := Extend(s, fh), fh.sindex as nat + 1, f[|f| - 1];
    g := f;
    if x.error == Ok {
      ExtendHandle(s, h, f, fh);
      if i < |last.sectors| {
        ExtendReplaces(s, h, f, fh, x, i);
        g := f[|f| - 1 := Part(last.entry, last.sectors[i := x.fh.sector])];
      } else if i < MaxSectors(s.dir[last.entry]) {
        ExtendAppends(s, h, f, fh, x, i);
        g := f[|f| - 1 := Part(last.entry, last.sectors + [x.fh.sector])];
      } else {
        ExtendLinks(s, h, f, fh, x);
        g := f + [Part(x.fh.curEntry, [x.fh.sector])];
      }
    }
  }

  lemma UsableIndices(s: State, fh: Handle)
    requires Usable(s, fh)
    ensures s.Sized() && fh.curEntry as int < |s.dir| && fh.sector as int < |s.data|
  {}

  lemma LooseFacts(s: State, h: byte, f: File, fh: Handle)
    requires Loose(s, h, f, fh)
    ensures |f| > 0 && fh.curEntry == f[|f| - 1].entry && fh.sindex as int < |f[|f| - 1].sectors|
  {
    hide Sectors, FileOk;
  }

  lemma ExtendHandle(s: State, h: byte, f: File, fh: Handle)
    requires Loose(s, h, f, fh)
    ensures Usable(s, fh)
    ensures var x := Extend(s, fh);
            x.error == Ok ==> x.fh == fh.(sector := x.fh.sector, sindex := x.fh.sindex, curEntry := x.fh.curEntry)
  {
    hide Sectors, FileOk, NextFree, Live, MaxSectors;
    LooseUsable(s, h, f, fh);
  }

  /** What a round may not raise: the size the file can still reach. */
  function Potential(s: State, fh: Handle): nat
    requires fh.soffset < SECTOR_SIZE
  {
    fh.size + Room(fh.soffset) + SECTOR_SIZE * CountFree(s.usedSectors)
  }

  lemma LooseRound(s: State, h: byte, f: File, fh: Handle, bytes: seq<byte>) returns (g: File)
    requires Loose(s, h, f, fh) && bytes != [] && (Lagging(f, fh) || Due(f, fh, bytes))
    ensures Usable(s, fh)
    ensures var y := Round(s, fh, bytes); var n := Min(|bytes|, SECTOR_SIZE - fh.soffset);
            y.error == Ok ==>
              && Loose(y.s, h, g, y.fh) && (Lagging(g, y.fh) || Due(g, y.fh, bytes[n..])) && SameNames(s, y.s)
              && y.fh.size == fh.size + n && fh.soffset < SECTOR_SIZE && y.fh.soffset < SECTOR_SIZE && Potential(y.s, y.fh) <= Potential(s, fh)
  {
    hide Loose, Sectors, Extend, SameNames, CountFree, FileOk;
    LooseUsable(s, h, f, fh);
    ExtendUsable(s, fh);
    LooseOffset(s, h, f, fh);
    var n := Min(|bytes|, SECTOR_SIZE - fh.soffset);
    g := f;
    if fh.soffset != 0 {
      LooseStore(s, h, f, fh, bytes[..n]);
    } else {
      g := LooseExtended(s, h, f, fh);
      var x := Extend(s, fh);
      if x.error == Ok {
        LooseStore(x.s, h, g, x.fh, bytes[..n]);
        SameNamesTwice(s, x.s, Store(x.s, x.fh, bytes[..n]).s);
      }
    }
  }

  lemma LooseOffset(s: State, h: byte, f: File, fh: Handle)
    requires Loose(s, h, f, fh)
    ensures fh.soffset == fh.size % SECTOR_SIZE
  {
    hide Sectors, FileOk;
  }

  lemma SameNamesTwice(s: State, t: State, u: State)
    requires SameNames(s, t) && SameNames(t, u)
    ensures SameNames(s, u)
  {
    hide Named;
  }

  /** The loop of eepromfs_write from a loose handle. */
  lemma {:induction false} LooseLoop(s: State, h: byte, f: File, fh: Handle, bytes: seq<byte>, count: nat) returns (g: File)
    requires Loose(s, h, f, fh) && (Lagging(f, fh) || Due(f, fh, bytes))
    ensures Usable(s, fh)
    ensures var r := WriteLoop(s, fh, bytes, count);
            r.error == Ok ==>
              && Loose(r.s, h, g, r.fh) && Lagging(g, r.fh) && SameNames(s, r.s) && r.fh.size == fh.size + |bytes|
              && fh.soffset < SECTOR_SIZE && r.fh.soffset < SECTOR_SIZE && Potential(r.s, r.fh) <= Potential(s, fh)
    decreases |bytes|
  {
    hide Loose, Sectors, Round, SameNames, WriteLoop, Potential, Lagging;
    LooseUsable(s, h, f, fh);
    g := f;
    if bytes == [] {
      WriteLoopEnds(s, fh, bytes, count);
      SameNamesSelf(s);
    } else {
      var n := Min(|bytes|, SECTOR_SIZE - fh.soffset);
      g := LooseRound(s, h, f, fh, bytes);
      WriteLoopRound(s, fh, bytes, count);
      var y := Round(s, fh, bytes);
      if y.error == Ok {
        g := LooseLoop(y.s, h, g, y.fh, bytes[n..], count + n);
        var r := WriteLoop(y.s, y.fh, bytes[n..], count + n);
        if r.error == Ok {
          SameNamesTwice(s, y.s, r.s);
        }
      }
    }
  }

  lemma SameNamesSelf(s: State)
    ensures SameNames(s, s)
  {
    hide Named;
  }

  // ---- Reading a file that lists too few sectors -------------------------------------------------------

  /** Behind the last listed sector an assertion of eepromfs_read fails. */
  lemma ChainEnds(s: State, h: byte, f: File, fh: Handle, q: nat)
    requires s.Sized() && FileOk(s.dir, h, f) && AtSector(f, fh, q) && q + 1 == |Sectors(f)|
    ensures fh.curEntry as int < |s.dir| && NextSector(s, fh) == Lost
  {
    hide Sectors, PlaceIn;
    NotEmpty(s.dir, h, f);
    PartFacts(s.dir, h, f, |f| - 1);
    LastPlace(f);
    PartFacts(s.dir, h, f, PlaceIn(f, q).entry);
  }

  lemma ReadLoopLost(s: State, fh: Handle, length: nat, got: seq<byte>)
    requires s.Sized() && fh.curEntry as int < |s.dir| && fh.soffset < SECTOR_SIZE && fh.sector as int < |s.data| && length > 0
    requires var fh1 := Advanced(fh, Min(length, SECTOR_SIZE - fh.soffset));
             fh1.offset != fh1.size && fh1.soffset == 0 && NextSector(s, fh1) == Lost
    ensures ReadLoop(s, fh, length, got) == AssertionFailed
  {
    hide NextSector;
  }

  lemma {:induction false} ReadRunsOut(s: State, h: byte, f: File, fh: Handle, q: nat, length: nat, got: seq<byte>)
    requires s.Sized() && FileOk(s.dir, h, f) && InRange(s.data, Sectors(f)) && AtSector(f, fh, q)
    requires fh.soffset < SECTOR_SIZE && fh.offset == SECTOR_SIZE * q + fh.soffset && fh.offset + length == fh.size
    requires fh.size > SECTOR_SIZE * |Sectors(f)|
    ensures fh.curEntry as int < |s.dir| && ReadLoop(s, fh, length, got) == AssertionFailed
    decreases length
  {
    hide Sectors, FileOk, AtSector, ReadLoop, NextSector;
    StandsOn(s, h, f, fh, q);
    var n := Min(length, SECTOR_SIZE - fh.soffset);
    var fh1 := Advanced(fh, n);
    SamePlace(f, fh, fh1, q);
    assert n == SECTOR_SIZE - fh.soffset && fh1.soffset == 0;
    if q + 1 < |Sectors(f)| {
      NextInChain(s, h, f, fh1, q);
      ReadLoopRound(s, fh, length, got);
      ReadRunsOut(s, h, f, NextSector(s, fh1).fh, q + 1, length - n, got + s.data[fh.sector][fh.soffset..fh.soffset + n]);
    } else {
      ChainEnds(s, h, f, fh1, q);
      ReadLoopLost(s, fh, length, got);
    }
  }

  lemma StandsOn(s: State, h: byte, f: File, fh: Handle, q: nat)
    requires FileOk(s.dir, h, f) && InRange(s.data, Sectors(f)) && AtSector(f, fh, q)
    ensures q < |Sectors(f)| && fh.sector as int < |s.data| && fh.curEntry as int < |s.dir|
  {
    hide Sectors, PlaceIn;
    assert PartOk(s.dir, f, PlaceIn(f, q).entry);
  }

  /** A file whose recorded size is more than its listed sectors hold cannot be read to its end. */
  lemma TooShortBreaks(s: State, h: byte, f: File, name: Name)
    requires s.Sized() && FileOk(s.dir, h, f) && InRange(s.data, Sectors(f)) && Sectors(f) != []
    requires Find(s.dir, name) == h && h as int < |s.dir| && SizeOf(s.dir[h]) > SECTOR_SIZE * |Sectors(f)|
    ensures Observe(s, name, [SizeOf(s.dir[h])]) == Broken
  {
    hide Sectors, FileOk, ReadLoop, PlaceIn, InRange, SizeOf, Find;
    ChainStarts(s.dir, h, f);
    var fh, n := OpenRead(s, name).fh, SizeOf(s.dir[h]);
    ReadRunsOut(s, h, f, fh, 0, n, []);
    assert ReadAll(s, fh, [n]) == AssertionFailed;
  }

  // ---- When an append can be read back ------------------------------------------------------------------

  lemma ChainIsLoose(s: State, b: Books, h: byte, fh: Handle)
    requires Inv(s, b) && h in b.files && |b.files[h]| > 0
    requires var last := b.files[h][|b.files[h]| - 1];
             && fh.entry == h && fh.mode == WriteMode && fh.soffset == fh.size % SECTOR_SIZE && fh.sector as int < |s.data|
             && fh.curEntry == last.entry && fh.sindex as int < |last.sectors|
    ensures Loose(s, h, b.files[h], fh)
  {
    hide Sectors, CountFree, FileOk, SectorsOk, NamesOk;
    FilesReadable(s, b, h);
    LastAlone(s, b, h);
  }

  lemma HeadSized(dir: seq<Entry>, h: byte, f: File, size: nat)
    requires FileOk(dir, h, f) && LastApart(f) && h as int < |dir| && size < 65536
    requires forall k :: 0 < k < |f| ==> f[k].entry != h
    ensures FileOk(dir[h := WithSize(dir[h], size)], h, f)
  {
    hide WithSize, Sectors, Holds;
    var e := WithSize(dir[h], size);
    var after := dir[h := e];
    SizeRecorded(dir[h], size);
    assert PartOk(dir, f, 0);
    HoldsFirst(dir[h], e, f[0].sectors);
    forall k | 0 <= k < |f| ensures PartOk(after, f, k) {
      assert PartOk(dir, f, k);
    }
  }

  /** The first entry is a name entry, all others are list entries. */
  lemma HeadApart(dir: seq<Entry>, h: byte, f: File)
    requires FileOk(dir, h, f)
    ensures h as int < |dir| && forall k :: 0 < k < |f| ==> f[k].entry != h
  {
    hide Holds;
    assert PartOk(dir, f, 0);
    forall k | 0 < k < |f| ensures f[k].entry != h {
      assert PartOk(dir, f, k);
    }
  }

  lemma FoundAgain(s: State, t: State, name: Name)
    requires s.Sized() && t.Sized() && |t.dir| == |s.dir| && forall i :: 0 <= i < |s.dir| ==> Named(t.dir[i], name) == Named(s.dir[i], name)
    ensures Find(t.dir, name) == Find(s.dir, name)
  {
    hide Named;
    FindFromSpec(s.dir, name, 0);
    FindFromSpec(t.dir, name, 0);
  }

  lemma SizedName(e: Entry, size: nat, name: Name)
    requires size < 65536
    ensures Named(WithSize(e, size), name) == Named(e, name)
  {
    hide WithSize;
    SizeRecorded(e, size);
  }

  /** Closing a loose handle whose file lists too few sectors. */
  lemma LaggingBreaks(s: State, h: byte, f: File, fh: Handle, name: Name)
    requires Loose(s, h, f, fh) && Lagging(f, fh) && Find(s.dir, name) == h && fh.size < 65536
    ensures fh.entry as int < |s.dir| && Close(s, fh).Sized() && Observe(Close(s, fh), name, [fh.size]) == Broken
  {
    hide Sectors, FileOk, Observe, WithSize, Find, Named, SizeOf;
    HeadApart(s.dir, h, f);
    HeadSized(s.dir, h, f, fh.size);
    SizeRecorded(s.dir[h], fh.size);
    CloseNames(s, fh, name);
    ListsSome(s, h, f, fh);
    TooShortBreaks(Close(s, fh), h, f, name);
  }

  lemma ListsSome(s: State, h: byte, f: File, fh: Handle)
    requires Loose(s, h, f, fh)
    ensures Sectors(f) != []
  {
    hide FileOk;
  }

  lemma UnsafeAppendBreaks(s: State, b: Books, name: Name, bytes: seq<byte>)
    requires Inv(s, b) && Find(s.dir, name) != NONE && Complete(s, b, Find(s.dir, name))
    requires Find(s.dir, name) as int < |s.dir| && Usable(s, OpenAppend(s, name).fh)
    requires !AppendSafe(s, Find(s.dir, name), bytes) && Appending(s, name, bytes).error == Ok
    ensures s.Sized() && ReadBack(s, name, bytes, SizeOf(s.dir[Find(s.dir, name)]) + |bytes|) == Broken
  {
    hide Inv, Find, OpenAppend, Sectors, SizeOf, WriteLoop, LastIndex, LastEntry, AtEnd, Loose, Close, Observe, SameNames, Usable, FilledUp;
    Inside(s, b);
    OpenAppendStands(s, b, name);
    var h, fh := Find(s.dir, name), OpenAppend(s, name).fh;
    var f := b.files[h];
    FullCount(|Sectors(f)|, fh.size);
    ChainIsLoose(s, b, h, fh);
    var g := LooseLoop(s, h, f, fh, bytes, 0);
    var w := Appending(s, name, bytes);
    SizeFits(s, b, h);
    CountFreeBound(s.usedSectors);
    UsableIndices(w.s, w.fh);
    assert w.fh.size < 65536;
    LooseNames(s, w.s, name);
    LaggingBreaks(w.s, h, g, w.fh, name);
  }

  lemma LooseNames(s: State, t: State, name: Name)
    requires SameNames(s, t) && s.Sized() && t.Sized()
    ensures Find(t.dir, name) == Find(s.dir, name)
  {
    hide Named, Find;
    FoundAgain(s, t, name);
  }

  /** For every file with data that is not open, and every successful write after opening it for
      appending: reading the file delivers the old bytes and then the new ones if and only if the new
      bytes fit into the last sector or the file's last directory entry lists one sector. Otherwise an
      assertion of eepromfs_read fails. */
  lemma AppendReadableIff(y: System, b: Books, c: Catalog, name: Name, bytes: seq<byte>)
    requires Appendable(y, b, c, name) && Appending(y.s, name, bytes).error == Ok
    ensures name in c.files && y.s.Sized()
    ensures var all := c.files[name] + bytes; var seen := ReadBack(y.s, name, bytes, |all|);
            && (seen == Content(all) <==> AppendSafe(y.s, Find(y.s.dir, name), bytes))
            && (seen != Content(all) ==> seen == Broken)
  {
    hide Represents, Inv, Find, OpenAppend, Sectors, SizeOf, Write, Observe, Complete, Usable, AppendSafe, Close;
    CatalogFacts(y, b, c, name);
    if AppendSafe(y.s, Find(y.s.dir, name), bytes) {
      SafeAppendReads(y, b, c, name, bytes);
    } else {
      CatalogLength(y, b, c, name);
      UnsafeAppendBreaks(y.s, b, name, bytes);
    }
  }

  lemma CatalogLength(y: System, b: Books, c: Catalog, name: Name)
    requires Represents(y, b, c) && name in c.files && Find(y.s.dir, name) as int < |y.s.dir|
    ensures |c.files[name]| == SizeOf(y.s.dir[Find(y.s.dir, name)])
  {
    hide Inv, Find, Stored, Readable, DraftsMatch;
    FindSpec(y.s, b, name);
    var h := Find(y.s.dir, name);
    assert FileMatches(y.s, b, c.files, h);
    StoredLength(y.s, b, h);
  }

  // ---- Empty files ---------------------------------------------------------------------------------------------

  /** A closed file without data. */
  ghost predicate EmptyFile(s: State, b: Books, h: byte) {
    h in b.files && h as int < |s.dir| && SizeOf(s.dir[h]) == 0 && Sectors(b.files[h]) == []
  }

  /** A sector is there to be found. */
  predicate SomeFree(used: seq<bool>) {
    exists k :: 0 <= k < |used| && !used[k]
  }

  /** The number that next_free_sector looks at in turn k when it starts at 255. */
  function LookedAt(count: nat, k: nat): byte
    requires 0 < count <= 255
  {
    if k == 0 then 255
    else
      var next := (LookedAt(count, k - 1) + 1) % 256;
      if next == count then 0 else next
  }

  lemma {:induction false} AllLookedAt(count: nat, k: nat)
    requires 0 < count <= 255
    ensures k > 0 ==> LookedAt(count, k) < count
    ensures 0 < k <= count ==> LookedAt(count, k) == k - 1
  {
    if k > 0 {
      AllLookedAt(count, k - 1);
    }
  }

  /** Behind the first turn such a search ends if and only if a sector is free: it looks at every number, and never
      comes back to where it started. */
  lemma SearchFromBehindEnds(used: seq<bool>)
    requires 0 < |used| <= 255
    ensures forall k: nat :: k > 0 ==> LookedAt(|used|, k) as int < |used|
    ensures (exists k: nat :: k > 0 && !used[LookedAt(|used|, k)]) <==> SomeFree(used)
  {
    forall k: nat | k > 0 ensures LookedAt(|used|, k) as int < |used| {
      AllLookedAt(|used|, k);
    }
    if SomeFree(used) {
      var i :| 0 <= i < |used| && !used[i];
      AllLookedAt(|used|, i + 1);
      assert !used[LookedAt(|used|, i + 1)];
    }
  }

  /** next_free_sector from number 255, where an append to an empty file starts: the first bit it looks at
      lies behind the bitmap. If that is clear the result is the mark of a free slot. */
  function SearchFromBehind(used: seq<bool>, behind: bool): byte
    requires 0 < |used| <= 255 && (behind ==> SomeFree(used))
  {
    if behind then NextFree(used, 0, 0) else NONE
  }

  /** eepromfs_write after opening an empty file for appending: the first sector goes to slot 1. */
  function AppendToEmpty(s: State, fh: Handle, behind: bool, bytes: seq<byte>): Written
    requires Usable(s, fh.(sector := 0)) && fh.soffset == 0 && bytes != [] && (behind ==> SomeFree(s.usedSectors))
  {
    var k, n := SearchFromBehind(s.usedSectors, behind), Min(|bytes|, SECTOR_SIZE);
    if k as int >= |s.data| then Written(s, fh, 0, DiskFull)
    else
      var x := StoreNumber(s, fh.(sector := k, sindex := 1), k);
      var y := Store(x.s, x.fh, bytes[..n]);
      WriteLoop(y.s, y.fh, bytes[n..], n)
  }

  lemma EmptyFileShape(s: State, b: Books, h: byte)
    requires Inv(s, b) && EmptyFile(s, b, h)
    ensures var e := s.dir[h];
            Live(e) && !IsList(e) && e[NEXT] == NONE && s.usedEntries[h] && forall m :: 0 <= m < 12 ==> e[m] == FREE
  {
    hide CountFree, NamesOk, SectorsOk;
    var f := b.files[h];
    assert PartOk(s.dir, f, 0);
    assert f[..|f| - 1] + [f[|f| - 1]] == f;
    SectorsMore(f[..|f| - 1], f[|f| - 1]);
    assert PartOk(s.dir, f, |f| - 1);
  }

  /** Opening an empty file for appending leaves a handle whose sector is none at all. */
  lemma EmptyOpened(s: State, b: Books, name: Name)
    requires Inv(s, b) && Find(s.dir, name) != NONE && EmptyFile(s, b, Find(s.dir, name))
    ensures s.Sized() && Find(s.dir, name) as int < |s.dir|
    ensures var h := Find(s.dir, name); OpenAppend(s, name).fh == Handle(0, 0, h, FREE, 0, h, 0, WriteMode)
  {
    hide Inv, Find, Sectors;
    Inside(s, b);
    FindSpec(s, b, name);
    EmptyFileShape(s, b, Find(s.dir, name));
  }

  /** Bytes that the sectors still free can take. */
  function Capacity(s: State): nat {
    SECTOR_SIZE * CountFree(s.usedSectors)
  }

  lemma SlotNamed(e: Entry, i: nat, k: byte, name: Name)
    requires i < MaxSectors(e) || i == NEXT
    ensures Named(e[i := k], name) == Named(e, name)
  {
    var d := e[i := k];
    assert d[FLAGS] == e[FLAGS];
    if !IsList(e) {
      assert d[NAME..SIZE] == e[NAME..SIZE];
    }
  }

  /** Taking another sector renames no file, wherever its number is stored. */
  lemma ExtendNames(s: State, fh: Handle)
    requires Usable(s, fh) && LiveMarked(s) && fh.sindex < 30 && Extend(s, fh).error == Ok
    ensures var x := Extend(s, fh);
            SameNames(s, x.s) && LiveMarked(x.s) && x.fh.sindex < 30 && Capacity(x.s) + SECTOR_SIZE == Capacity(s)
  {
    hide Extend, Named, CountFree;
    var x := Extend(s, fh);
    Extended(s, fh, 0);
    CountFreeUpdate(s.usedSectors, x.fh.sector as nat, true);
    forall i, n | 0 <= i < |s.dir| ensures Named(x.s.dir[i], n) == Named(s.dir[i], n) && (Live(x.s.dir[i]) ==> x.s.usedEntries[i]) {
      EntryNamed(s, fh, i, n);
    }
    forall i | 0 <= i < |x.s.dir| && Live(x.s.dir[i]) ensures x.s.usedEntries[i] {
      EntryNamed(s, fh, i, NameOf(s.dir[i]));
    }
  }

  lemma EntryNamed(s: State, fh: Handle, i: nat, name: Name)
    requires Usable(s, fh) && LiveMarked(s) && fh.sindex < 30 && Extend(s, fh).error == Ok && i < |s.dir|
    ensures var t := Extend(s, fh).s;
            && t.Sized() && |t.dir| == |s.dir| && Named(t.dir[i], name) == Named(s.dir[i], name)
            && (Live(t.dir[i]) ==> t.usedEntries[i])
  {
    hide Extend;
    var x := Extend(s, fh);
    Extended(s, fh, i);
    SlotNamed(s.dir[i], NEXT, x.fh.curEntry, name);
    if fh.sindex as nat + 1 < MaxSectors(s.dir[i]) {
      SlotNamed(s.dir[i], fh.sindex as nat + 1, x.fh.sector, name);
    }
    FreshListed(x.fh.sector);
  }

  lemma FreshListed(k: byte)
    ensures IsList(FreshList()[0 := k])
  {}

  /** The loop of eepromfs_write from any handle: no file gets another name, and the size grows by the bytes
      counted, which the free sectors bound. */
  lemma {:induction false} LoopNames(s: State, fh: Handle, bytes: seq<byte>, count: nat)
    requires Usable(s, fh) && LiveMarked(s) && fh.sindex < 30 && (fh.soffset == 0 || bytes == [])
    ensures var w := WriteLoop(s, fh, bytes, count);
            SameNames(s, w.s) && w.s.Sized() && fh.size <= w.fh.size <= fh.size + Capacity(s)
    decreases |bytes|
  {
    hide Extend, WriteLoop, Store, SameNames, LiveMarked, Capacity;
    if bytes == [] {
      WriteLoopEnds(s, fh, bytes, count);
      SameNamesSelf(s);
    } else {
      SectorRound(s, fh, bytes, count);
      SameNamesSelf(s);
      ExtendSize(s, fh);
      var x := Extend(s, fh);
      if x.error == Ok {
        ExtendNames(s, fh);
        var n := Min(|bytes|, SECTOR_SIZE);
        var y := Store(x.s, x.fh, bytes[..n]);
        StoredNames(x.s, x.fh, bytes[..n]);
        LoopNames(y.s, y.fh, bytes[n..], count + n);
        SameNamesTwice(s, x.s, y.s);
        SameNamesTwice(s, y.s, WriteLoop(y.s, y.fh, bytes[n..], count + n).s);
      }
    }
  }

  lemma ExtendSize(s: State, fh: Handle)
    requires Usable(s, fh)
    ensures Extend(s, fh).fh.size == fh.size
  {}

  lemma StoredNames(s: State, fh: Handle, bytes: seq<byte>)
    requires Usable(s, fh) && LiveMarked(s) && fh.soffset + |bytes| <= SECTOR_SIZE
    ensures var y := Store(s, fh, bytes);
            && SameNames(s, y.s) && LiveMarked(y.s) && y.fh.size == fh.size + |bytes| && y.fh.sindex == fh.sindex
            && Capacity(y.s) == Capacity(s)
  {
    hide Patch;
  }

  /** Nothing appended to an empty file can ever be read back. Either the write finds no sector, whatever
      is free, and the file stays empty; or it leaves the first slot of the file free: then no books fit the
      file system, and reading starts at a sector that does not exist. Which of the two depends on a bit that
      is not the file system's. */
  lemma EmptyAppendBreaks(s: State, b: Books, name: Name, behind: bool, bytes: seq<byte>, n: nat)
    requires Inv(s, b) && Find(s.dir, name) != NONE && EmptyFile(s, b, Find(s.dir, name)) && bytes != []
    requires behind ==> SomeFree(s.usedSectors)
    ensures s.Sized() && Find(s.dir, name) as int < |s.dir| && Usable(s, OpenAppend(s, name).fh.(sector := 0))
    ensures var h, fh := Find(s.dir, name), OpenAppend(s, name).fh; var w := AppendToEmpty(s, fh, behind, bytes);
            if !behind then w.error == DiskFull && w.s == s && w.count == 0
            else (forall c :: !Inv(w.s, c)) && |w.s.dir| == |s.dir| && w.s.dir[h][0] == FREE
    ensures var fh := OpenAppend(s, name).fh; var w := AppendToEmpty(s, fh, behind, bytes);
            && w.fh.entry as int < |w.s.dir| && Close(w.s, w.fh).Sized()
            && Observe(Close(w.s, w.fh), name, [n]) == if behind && n > 0 then Broken else Content([])
  {
    hide Inv, Find, Sectors, WriteLoop, OpenAppend, EmptyFile, Patch, Observe, Close, SizeOf, SameNames;
    EmptyOpened(s, b, name);
    NextFreeFrom(s.usedSectors, 0);
    var fh, h := OpenAppend(s, name).fh, Find(s.dir, name);
    EmptyClosed(s, b, h);
    EmptyRead(s, b, name, n);
    if behind {
      var k, m := NextFree(s.usedSectors, 0, 0), Min(|bytes|, SECTOR_SIZE);
      var x := StoreNumber(s, fh.(sector := k, sindex := 1), k);
      var y := Store(x.s, x.fh, bytes[..m]);
      EmptyFileShape(s, b, h);
      SecondSlot(s, b, h, k, x.s);
      StoredHandle(x.s, x.fh, bytes[..m]);
      StoredUsable(x.s, x.fh, bytes[..m]);
      FlawSame(x.s, y.s, Hole(h as nat, 0));
      FlawedLoop(y.s, y.fh, Hole(h as nat, 0), bytes[m..], m);
      var w := WriteLoop(y.s, y.fh, bytes[m..], m);
      forall c ensures !Inv(w.s, c) {
        FlawBreaks(w.s, c, Hole(h as nat, 0));
      }
      StoredNames(x.s, x.fh, bytes[..m]);
      SameNamesTwice(s, x.s, y.s);
      LoopNames(y.s, y.fh, bytes[m..], m);
      SameNamesTwice(s, y.s, w.s);
      CountFreeBound(y.s.usedSectors);
      LooseNames(s, w.s, name);
      UnreadableFirst(w.s, w.fh, h, name, n);
    }
  }

  lemma EmptyClosed(s: State, b: Books, h: byte)
    requires Inv(s, b) && EmptyFile(s, b, h)
    ensures forall fh: Handle :: fh.entry == h && fh.size == 0 ==> Close(s, fh) == s
  {
    hide Inv, Sectors;
    assert s.dir[h][SIZE] == 0 && s.dir[h][SIZE + 1] == 0;
    assert WithSize(s.dir[h], 0) == s.dir[h];
  }

  lemma EmptyRead(s: State, b: Books, name: Name, n: nat)
    requires s.Sized() && EmptyFile(s, b, Find(s.dir, name))
    ensures Observe(s, name, [n]) == Content([])
  {
    hide Find, Sectors, SizeOf;
    var fh := OpenRead(s, name).fh;
    assert ReadAll(s, fh, [n]) == Bytes(fh, []);
  }

  /** A file with a size, but no sector in its first slot. */
  lemma UnreadableFirst(s: State, fh: Handle, h: byte, name: Name, n: nat)
    requires s.Sized() && Find(s.dir, name) == h && h as int < |s.dir| && s.dir[h][0] == FREE
    requires fh.entry == h && fh.mode == WriteMode && 0 < fh.size < 65536
    ensures Close(s, fh).Sized() && Observe(Close(s, fh), name, [n]) == if n > 0 then Broken else Content([])
  {
    hide Find, WithSize, SizeOf;
    SizeRecorded(s.dir[h], fh.size);
    var t := Close(s, fh);
    CloseNames(s, fh, name);
    var r := OpenRead(t, name).fh;
    assert t.dir[h][0] == t.dir[h][..NAME][0] == FREE;
    assert ReadAll(t, r, [n]) == if n > 0 then AssertionFailed else Bytes(r, []);
  }

  lemma CloseNames(s: State, fh: Handle, name: Name)
    requires s.Sized() && fh.entry as int < |s.dir| && fh.mode == WriteMode && fh.size < 65536
    ensures Close(s, fh).Sized() && Find(Close(s, fh).dir, name) == Find(s.dir, name)
  {
    hide Find, WithSize, Named;
    var t := Close(s, fh);
    forall i | 0 <= i < |s.dir| ensures Named(t.dir[i], name) == Named(s.dir[i], name) {
      SizedName(s.dir[fh.entry], fh.size, name);
    }
    FoundAgain(s, t, name);
  }

  lemma SecondSlot(s: State, b: Books, h: byte, k: byte, t: State)
    requires Inv(s, b) && EmptyFile(s, b, h) && k as int < |s.data|
    requires t == MarkSector(s, k, true).(dir := s.dir[h := s.dir[h][1 := k]])
    ensures Flawed(t, Hole(h as nat, 0)) && LiveMarked(t) && SameNames(s, t)
  {
    hide Inv, Sectors;
    Inside(s, b);
    EmptyFileShape(s, b, h);
    forall i, n | 0 <= i < |s.dir| ensures Named(t.dir[i], n) == Named(s.dir[i], n) {
      SlotNamed(s.dir[h], 1, k, n);
    }
    assert t.dir[h][1] != FREE;
    forall i | 0 <= i < |t.dir| && Live(t.dir[i]) ensures t.usedEntries[i] {
      assert Live(s.dir[i]);
      LiveIsUsed(s, b, i);
    }
  }

  // ---- A file that an append destroys ------------------------------------------------------------------------

  /** One file, of 128 bytes in sectors 0 and 1; sector 2 is free. */
  function TwoSectors(): State {
    State([[0, 1] + seq(10, _ => 255) + seq(16, _ => 65) + [128, 0, 0, 255]],
          seq(3, _ => seq(64, _ => 0)), [true, true, false], [true], 1)
  }

  function TwoSectorBooks(): Books {
    Books(map[0 := [Part(0, [0, 1])]], [Owned(0, 0), Owned(0, 1), Nobody], [Owned(0, 0)])
  }

  function Letters(): Name {
    seq(16, _ => 65)
  }

  lemma TwoSectorsFile()
    ensures var s, f := TwoSectors(), [Part(0, [0, 1])];
            FileOk(s.dir, 0, f) && Sectors(f) == [0, 1] && NameOf(s.dir[0]) == Letters() && SizeOf(s.dir[0]) == 128
  {
    var s, f := TwoSectors(), [Part(0, [0, 1])];
    assert f[..0] == [];
    assert Holds(s.dir[0], [0, 1]);
    assert PartOk(s.dir, f, 0);
    assert NameOf(s.dir[0]) == Letters();
  }

  lemma TwoSectorsFree()
    ensures CountFree([true, true, false]) == 1
  {
    assert [true, true, false][..2] == [true, true] && [true, true][..1] == [true] && [true][..0] == [];
  }

  lemma TwoSectorsOwned()
    requires Sectors([Part(0, [0, 1])]) == [0, 1]
    ensures SectorsOk(TwoSectors(), TwoSectorBooks())
  {
    hide Sectors;
    assert OwnsSector(TwoSectorBooks(), 0) && OwnsSector(TwoSectorBooks(), 1);
  }

  lemma TwoSectorsEntry()
    ensures EntriesOk(TwoSectors(), TwoSectorBooks())
  {
    assert OwnsEntry(TwoSectorBooks(), 0);
  }

  lemma TwoSectorsInv()
    ensures Inv(TwoSectors(), TwoSectorBooks()) && Sectors([Part(0, [0, 1])]) == [0, 1]
    ensures Find(TwoSectors().dir, Letters()) == 0 && SizeOf(TwoSectors().dir[0]) == 128
  {
    hide Sectors, CountFree, FileOk, SizeOf, NameOf, SectorsOk, EntriesOk;
    TwoSectorsFile();
    TwoSectorsFree();
    TwoSectorsOwned();
    TwoSectorsEntry();
  }

  /** Appending one byte to this file makes it unreadable. */
  lemma AppendCounterexample()
    ensures var s := TwoSectors();
            && s.Sized() && Find(s.dir, Letters()) as int < |s.dir| && Usable(s, OpenAppend(s, Letters()).fh)
            && Appending(s, Letters(), [7]).error == Ok && ReadBack(s, Letters(), [7], 129) == Broken
  {
    hide Inv, Find, TwoSectors, TwoSectorBooks, Letters, Sectors, SizeOf, Observe, Close, OpenAppend;
    TwoSectorsInv();
    var s, b := TwoSectors(), TwoSectorBooks();
    TwoSectorsComplete();
    AppendUsable(s, b, Letters());
    TwoSectorsAppend();
    UnsafeAppendBreaks(s, b, Letters(), [7]);
  }

  lemma TwoSectorsComplete()
    ensures Complete(TwoSectors(), TwoSectorBooks(), 0)
  {
    TwoSectorsInv();
  }

  lemma TwoSectorsAppend()
    ensures Find(TwoSectors().dir, Letters()) as int < 1
    ensures !AppendSafe(TwoSectors(), 0, [7])
    ensures Usable(TwoSectors(), OpenAppend(TwoSectors(), Letters()).fh)
    ensures Appending(TwoSectors(), Letters(), [7]).error == Ok
  {
    hide Inv, Find, Patch, WriteLoop, Extend, TwoSectors, TwoSectorBooks, Letters, Sectors, SizeOf, LastIndex, LastEntry, Usable, OpenAppend;
    TwoSectorsInv();
    TwoSectorsComplete();
    var s, b := TwoSectors(), TwoSectorBooks();
    AppendUsable(s, b, Letters());
    OpenAppendStands(s, b, Letters());
    TwoSectorShape();
    var fh := OpenAppend(s, Letters()).fh;
    ThirdSectorTaken(fh);
    WriteLoopRound(s, fh, [7], 0);
    var y := Round(s, fh, [7]);
    WriteLoopEnds(y.s, y.fh, [7][1..], 1);
  }

  lemma TwoSectorShape()
    ensures TwoSectorBooks().files == map[0 := [Part(0, [0, 1])]] && |TwoSectors().dir| == 1 && |TwoSectors().data| == 3 && TwoSectors().Sized()
  {}

  lemma ThirdSectorTaken(fh: Handle)
    requires fh.curEntry == 0 && fh.sindex == 0 && fh.sector as int < 3
    ensures TwoSectors().Sized() && Extend(TwoSectors(), fh).error == Ok
  {
    var s := TwoSectors();
    NextFreeFrom(s.usedSectors, fh.sector);
    assert !s.usedSectors[2];
  }
}
