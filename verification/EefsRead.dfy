/** Reading files of the EEPROM file system: sequences of reads yield the stored bytes in order, and no
    operation on one file shows in another (src/eeprom-fs.c, eepromfs_open and eepromfs_read). */
module EefsRead {
  import opened Bits
  import opened EefsModel
  import opened EefsInvariant
  import opened EefsWrite
  import opened EefsFiles
  import opened EefsMount

  // ---- Where a reader stands ---------------------------------------------------------

  /** The bytes of a file up to its recorded size. */
  function Stored(s: State, b: Books, h: byte): (r: seq<byte>)
    requires Readable(s, b, h)
    ensures |r| == SizeOf(s.dir[h])
  {
    Concat(s.data, Sectors(b.files[h]))[..SizeOf(s.dir[h])]
  }

  predicate Readable(s: State, b: Books, h: byte) {
    && h in b.files && h as int < |s.dir| && InRange(s.data, Sectors(b.files[h]))
    && SizeOf(s.dir[h]) <= SECTOR_SIZE * |Sectors(b.files[h])|
  }

  lemma FilesReadable(s: State, b: Books, h: byte)
    requires Inv(s, b) && h in b.files
    ensures Readable(s, b, h) && |b.files[h]| > 0
  {
    hide Sectors, CountFree, EntriesOk, NamesOk;
    FoundIsInside(s, b, h);
    assert FileOk(s.dir, h, b.files[h]);
    var ss := Sectors(b.files[h]);
    forall j | 0 <= j < |ss| ensures ss[j] as int < |s.data| {
      assert b.sectorOwner[ss[j]] == Owned(h, j);
    }
  }

  /** The handle stands at sector number index of the file. */
  predicate AtSector(f: File, fh: Handle, index: nat) {
    && index < |Sectors(f)| && fh.sector == Sectors(f)[index]
    && var p := PlaceIn(f, index);
    fh.curEntry == f[p.entry].entry && fh.sindex as nat == p.slot
  }

  /** Open for reading, at any offset; behind the last byte the sector does not matter. */
  ghost predicate Reading(s: State, b: Books, fh: Handle) {
    && Readable(s, b, fh.entry) && fh.mode == ReadMode
    && fh.size == SizeOf(s.dir[fh.entry]) && fh.offset <= fh.size
    && fh.soffset < SECTOR_SIZE && fh.curEntry as int < |s.dir|
    && (fh.offset < fh.size ==> exists q: nat :: Stands(b, fh, q))
  }

  ghost predicate Stands(b: Books, fh: Handle, q: nat)
    requires fh.entry in b.files
  {
    fh.offset == SECTOR_SIZE * q + fh.soffset && AtSector(b.files[fh.entry], fh, q)
  }

  /** The bytes of one sector of the file. */
  lemma {:induction false} SectorBytes(data: seq<Sector>, ss: seq<byte>, q: nat)
    requires InRange(data, ss) && q < |ss|
    ensures SECTOR_SIZE * (q + 1) <= |Concat(data, ss)|
    ensures Concat(data, ss)[SECTOR_SIZE * q..SECTOR_SIZE * (q + 1)] == data[ss[q]]
  {
    if q < |ss| - 1 {
      SectorBytes(data, ss[..|ss| - 1], q);
    }
  }

  /** A stretch inside one sector. */
  lemma Stretch(data: seq<Sector>, ss: seq<byte>, q: nat, at: nat, n: nat)
    requires InRange(data, ss) && q < |ss| && at + n <= SECTOR_SIZE
    ensures SECTOR_SIZE * q + at + n <= |Concat(data, ss)|
    ensures Concat(data, ss)[SECTOR_SIZE * q + at..SECTOR_SIZE * q + at + n] == data[ss[q]][at..at + n]
  {
    hide Concat;
    SectorBytes(data, ss, q);
    SliceOfSlice(Concat(data, ss), SECTOR_SIZE * q, SECTOR_SIZE * (q + 1), at, n);
  }

  lemma SliceOfSlice(bytes: seq<byte>, low: nat, high: nat, at: nat, n: nat)
    requires low <= high <= |bytes| && at + n <= high - low
    ensures bytes[low..high][at..at + n] == bytes[low + at..low + at + n]
  {
    var whole := bytes[low..high];
    var left, right := whole[at..at + n], bytes[low + at..low + at + n];
    forall i | 0 <= i < n ensures left[i] == right[i] {
      assert left[i] == whole[at + i] == bytes[low + (at + i)];
    }
  }

  /** The place of the next sector: the next slot, or the first one of the next entry. */
  lemma PlaceAfter(f: File, q: nat)
    requires q + 1 < |Sectors(f)|
    ensures var p, p1 := PlaceIn(f, q), PlaceIn(f, q + 1);
            p1 == Place(p.entry, p.slot + 1)
            || (p.slot + 1 == |f[p.entry].sectors| && p1.entry > p.entry && p1.slot == 0
                && forall k :: p.entry < k < p1.entry ==> f[k].sectors == [])
    decreases |f|
  {
    var front := |Sectors(f[..|f| - 1])|;
    if q + 1 < front {
      PlaceAfter(f[..|f| - 1], q);
    } else if q + 1 == front {
      LastPlace(f[..|f| - 1]);
    }
  }

  /** The place of the last sector is the last slot of the last entry that lists any. */
  lemma LastPlace(f: File)
    requires Sectors(f) != []
    ensures var p := PlaceIn(f, |Sectors(f)| - 1);
            p.slot + 1 == |f[p.entry].sectors| && forall k :: p.entry < k < |f| ==> f[k].sectors == []
  {
    if f[|f| - 1].sectors == [] {
      LastPlace(f[..|f| - 1]);
    }
  }

  lemma PartFacts(dir: seq<Entry>, h: byte, f: File, k: nat)
    requires FileOk(dir, h, f) && k < |f|
    ensures && f[k].entry as int < |dir| && Holds(dir[f[k].entry], f[k].sectors)
            && dir[f[k].entry][NEXT] == (if k + 1 < |f| then f[k + 1].entry else NONE)
            && (k + 1 < |f| ==> |f[k].sectors| == MaxSectors(dir[f[k].entry]))
            && (k > 0 ==> |f[k].sectors| > 0)
  {
    hide Holds, MaxSectors;
    assert PartOk(dir, f, k);
  }

  /** Slots of an entry, as the reader sees them. */
  lemma SlotOf(e: Entry, sectors: seq<byte>, m: nat)
    requires Holds(e, sectors) && m < |sectors|
    ensures m < MaxSectors(e) && e[m] == sectors[m]
  {}

  lemma SlotCount(e: Entry, sectors: seq<byte>)
    requires Holds(e, sectors)
    ensures |sectors| <= 30 && |sectors| <= MaxSectors(e)
  {}

  /** The sectors of a part are among the file's. */
  lemma PartSectors(data: seq<Sector>, f: File, k: nat)
    requires k < |f| && InRange(data, Sectors(f)) && |data| <= 255
    ensures forall j :: 0 <= j < |f[k].sectors| ==> f[k].sectors[j] as int < |data| && f[k].sectors[j] != FREE
  {
    hide Sectors, PlaceIn;
    forall j: nat | j < |f[k].sectors| ensures f[k].sectors[j] as int < |data| {
      PlaceInUnique(f, k, j);
    }
  }

  /** Along a chain of entries, moving on reaches the next sector. */
  lemma NextInChain(s: State, h: byte, f: File, fh: Handle, q: nat)
    requires s.Sized() && FileOk(s.dir, h, f) && AtSector(f, fh, q) && q + 1 < |Sectors(f)| && Sectors(f)[q + 1] as int < 255
    ensures fh.curEntry as int < |s.dir|
    ensures var p := NextSector(s, fh);
            && p.At? && AtSector(f, p.fh, q + 1) && p.fh.curEntry as int < |s.dir|
            && p.fh == fh.(curEntry := p.fh.curEntry, sindex := p.fh.sindex, sector := p.fh.sector)
  {
    hide Sectors, PlaceIn, Holds, FileOk;
    PlaceAfter(f, q);
    var p, p1 := PlaceIn(f, q), PlaceIn(f, q + 1);
    PartFacts(s.dir, h, f, p.entry);
    if p1.entry > p.entry {
      PartFacts(s.dir, h, f, p.entry + 1);
      assert p1.entry == p.entry + 1;
    }
    PartFacts(s.dir, h, f, p1.entry);
    SlotOf(s.dir[f[p1.entry].entry], f[p1.entry].sectors, p1.slot);
  }

  /** Moving on reaches the file's next sector; the assertions in the source hold. */
  lemma NextSectorReached(s: State, b: Books, fh: Handle, q: nat)
    requires Inv(s, b) && fh.entry in b.files && AtSector(b.files[fh.entry], fh, q) && q + 1 < |Sectors(b.files[fh.entry])|
    ensures s.Sized() && fh.curEntry as int < |s.dir|
    ensures var p := NextSector(s, fh);
            && p.At? && AtSector(b.files[fh.entry], p.fh, q + 1) && p.fh.curEntry as int < |s.dir|
            && p.fh == fh.(curEntry := p.fh.curEntry, sindex := p.fh.sindex, sector := p.fh.sector)
  {
    hide Sectors, AtSector, Inv, FileOk, NextSector;
    ChainOf(s, b, fh.entry);
    SectorIsReal(s, b, fh.entry, q + 1);
    NextInChain(s, fh.entry, b.files[fh.entry], fh, q);
  }

  lemma ChainOf(s: State, b: Books, h: byte)
    requires Inv(s, b) && h in b.files
    ensures s.Sized() && FileOk(s.dir, h, b.files[h])
  {
    hide Sectors, CountFree, FileOk;
  }

  lemma SectorIsReal(s: State, b: Books, h: byte, q: nat)
    requires Inv(s, b) && h in b.files && q < |Sectors(b.files[h])|
    ensures Sectors(b.files[h])[q] as int < |s.data| <= 255
  {
    hide Sectors, CountFree, FilesOk, EntriesOk, NamesOk;
  }

  // ---- Reading -------------------------------------------------------------------------

  /** eepromfs_open for reading: at the first byte of the file that has the name. */
  lemma OpenReadStands(s: State, b: Books, name: Name)
    requires Inv(s, b)
    ensures var o := OpenRead(s, name); var h := Find(s.dir, name);
            && o.s == s && (o.error == Ok <==> h != NONE)
            && (o.error == Ok ==> o.fh.entry == h && h in b.files && Reading(s, b, o.fh) && o.fh.offset == 0)
  {
    hide Sectors, CountFree, Find, FilesOk, SectorsOk, EntriesOk, NamesOk, PlaceIn, InRange;
    FindSpec(s, b, name);
    var h := Find(s.dir, name);
    if h != NONE {
      FilesReadable(s, b, h);
      if SizeOf(s.dir[h]) > 0 {
        FirstSector(s, b, h);
        var fh := OpenRead(s, name).fh;
        assert Stands(b, fh, 0);
      }
    }
  }

  lemma FirstSector(s: State, b: Books, h: byte)
    requires Inv(s, b) && h in b.files && Sectors(b.files[h]) != [] && h as int < |s.dir|
    ensures PlaceIn(b.files[h], 0) == Place(0, 0) && b.files[h][0].entry == h && Sectors(b.files[h])[0] == s.dir[h][0]
  {
    hide Inv, Sectors, FileOk, PlaceIn;
    ChainOf(s, b, h);
    ChainStarts(s.dir, h, b.files[h]);
  }

  /** The first sector of a chain is in the first slot. */
  lemma ChainStarts(dir: seq<Entry>, h: byte, f: File)
    requires FileOk(dir, h, f) && Sectors(f) != [] && h as int < |dir|
    ensures PlaceIn(f, 0) == Place(0, 0) && f[0].entry == h && Sectors(f)[0] == dir[h][0]
  {
    hide Sectors, PlaceIn;
    assert PartOk(dir, f, 0);
    NoSectors();
    if |f| == 1 {
      assert f == [] + [f[0]];
      SectorsMore([], f[0]);
    }
    PlaceInUnique(f, 0, 0);
    assert f[..0] == [];
  }

  lemma NoSectors()
    ensures Sectors([]) == []
  {}

  /** The bytes of the file from an offset on. */
  function Wanted(s: State, b: Books, fh: Handle, length: nat): (r: seq<byte>)
    requires Readable(s, b, fh.entry) && fh.offset + length <= SizeOf(s.dir[fh.entry])
    ensures |r| == length
  {
    Stored(s, b, fh.entry)[fh.offset..fh.offset + length]
  }

  /** What is left to do after a stretch. */
  function Advanced(fh: Handle, n: nat): Handle {
    fh.(offset := fh.offset + n, soffset := (fh.soffset + n) % SECTOR_SIZE)
  }

  /** One round of the loop: the stretch is the next bytes of the file, and the handle stands behind it. */
  lemma RoundReads(s: State, b: Books, fh: Handle, length: nat)
    requires Inv(s, b) && Reading(s, b, fh) && 0 < length <= fh.size - fh.offset
    ensures var n := Min(length, SECTOR_SIZE - fh.soffset); var fh1 := Advanced(fh, n);
            && fh.sector as int < |s.data| && n <= length
            && s.data[fh.sector][fh.soffset..fh.soffset + n] == Wanted(s, b, fh, n)
            && (if fh1.offset != fh1.size && fh1.soffset == 0
                then var p := NextSector(s, fh1); p.At? && Reading(s, b, p.fh) && SameButPlace(fh1, p.fh)
                else Reading(s, b, fh1))
  {
    hide Sectors, CountFree, FilesOk, SectorsOk, EntriesOk, NamesOk, PlaceIn, Concat, AtSector, NextSector, Inv;
    var q: nat :| Stands(b, fh, q);
    var n := Min(length, SECTOR_SIZE - fh.soffset);
    var fh1 := Advanced(fh, n);
    var ss := Sectors(b.files[fh.entry]);
    StandsInside(s, b, fh, q);
    Stretch(s.data, ss, q, fh.soffset, n);
    StretchOfFile(s, b, fh, q, n);
    if fh1.offset != fh1.size {
      SamePlace(b.files[fh.entry], fh, fh1, q);
      if fh1.soffset == 0 {
        NextSectorReached(s, b, fh1, q);
        assert s.Sized();
        assert Stands(b, NextSector(s, fh1).fh, q + 1);
      } else {
        assert Stands(b, fh1, q);
      }
    }
  }

  predicate SameButPlace(fh: Handle, fh1: Handle) {
    fh1 == fh.(curEntry := fh1.curEntry, sindex := fh1.sindex, sector := fh1.sector)
  }

  lemma SamePlace(f: File, fh: Handle, fh1: Handle, q: nat)
    requires AtSector(f, fh, q) && fh1 == fh.(offset := fh1.offset, soffset := fh1.soffset)
    ensures AtSector(f, fh1, q)
  {}

  lemma StandsInside(s: State, b: Books, fh: Handle, q: nat)
    requires Inv(s, b) && fh.entry in b.files && Stands(b, fh, q)
    ensures q < |Sectors(b.files[fh.entry])| && fh.sector == Sectors(b.files[fh.entry])[q] && fh.sector as int < |s.data|
  {
    hide Sectors, Inv;
    SectorIsReal(s, b, fh.entry, q);
  }

  lemma StretchOfFile(s: State, b: Books, fh: Handle, q: nat, n: nat)
    requires Readable(s, b, fh.entry) && fh.offset == SECTOR_SIZE * q + fh.soffset
    requires fh.offset + n <= SizeOf(s.dir[fh.entry])
    ensures Wanted(s, b, fh, n) == Concat(s.data, Sectors(b.files[fh.entry]))[SECTOR_SIZE * q + fh.soffset..SECTOR_SIZE * q + fh.soffset + n]
  {
    hide Sectors, Concat, SizeOf;
  }

  /** The loop of eepromfs_read delivers exactly the next bytes of the file. */
  lemma {:induction false} ReadLoopReads(s: State, b: Books, fh: Handle, length: nat, got: seq<byte>)
    requires Inv(s, b) && Reading(s, b, fh) && length <= fh.size - fh.offset
    ensures s.Sized()
    ensures var r := ReadLoop(s, fh, length, got);
            && r.Bytes? && r.bytes == got + Wanted(s, b, fh, length)
            && Reading(s, b, r.fh) && r.fh.offset == fh.offset + length && r.fh.entry == fh.entry && r.fh.size == fh.size
    decreases length
  {
    hide Inv, Sectors, Concat, PlaceIn, NextSector, Stands, Stored, Readable, ReadLoop, SizeOf;
    Inside(s, b);
    if length == 0 {
      ReadLoopEnds(s, fh, got);
      assert got + Wanted(s, b, fh, 0) == got;
    } else {
      RoundReads(s, b, fh, length);
      var n := Min(length, SECTOR_SIZE - fh.soffset);
      var fh1 := Advanced(fh, n);
      var fh2 := if fh1.offset != fh1.size && fh1.soffset == 0 then NextSector(s, fh1).fh else fh1;
      var got1 := got + Wanted(s, b, fh, n);
      ReadLoopRound(s, fh, length, got);
      ReadLoopReads(s, b, fh2, length - n, got1);
      WantedSplits(s, b, fh, fh2, n, length);
      assert got1 + Wanted(s, b, fh2, length - n) == got + (Wanted(s, b, fh, n) + Wanted(s, b, fh2, length - n));
    }
  }

  lemma ReadLoopEnds(s: State, fh: Handle, got: seq<byte>)
    requires s.Sized() && fh.curEntry as int < |s.dir| && fh.soffset < SECTOR_SIZE
    ensures ReadLoop(s, fh, 0, got) == Bytes(fh, got)
  {}

  lemma ReadLoopRound(s: State, fh: Handle, length: nat, got: seq<byte>)
    requires s.Sized() && fh.curEntry as int < |s.dir| && fh.soffset < SECTOR_SIZE && fh.sector as int < |s.data| && length > 0
    requires var fh1 := Advanced(fh, Min(length, SECTOR_SIZE - fh.soffset));
             fh1.offset != fh1.size && fh1.soffset == 0 ==>
               NextSector(s, fh1).At? && NextSector(s, fh1).fh.curEntry as int < |s.dir| && NextSector(s, fh1).fh.soffset < SECTOR_SIZE
    ensures var n := Min(length, SECTOR_SIZE - fh.soffset); var fh1 := Advanced(fh, n);
            var fh2 := if fh1.offset != fh1.size && fh1.soffset == 0 then NextSector(s, fh1).fh else fh1;
            ReadLoop(s, fh, length, got) == ReadLoop(s, fh2, length - n, got + s.data[fh.sector][fh.soffset..fh.soffset + n])
  {
    hide NextSector;
  }

  lemma WantedSplits(s: State, b: Books, fh: Handle, fh2: Handle, n: nat, length: nat)
    requires Readable(s, b, fh.entry) && fh2.entry == fh.entry && fh2.offset == fh.offset + n && n <= length
    requires fh.offset + length <= SizeOf(s.dir[fh.entry])
    ensures Wanted(s, b, fh, length) == Wanted(s, b, fh, n) + Wanted(s, b, fh2, length - n)
  {
    hide Readable, Stored, SizeOf;
  }

  /** eepromfs_read, for every state with the invariant and every handle open for reading: the bytes
      delivered are the next ones of the file, as many as asked for or as are left. No assertion of the
      source fails. */
  lemma ReadReads(s: State, b: Books, fh: Handle, length: nat)
    requires Inv(s, b) && Reading(s, b, fh)
    ensures s.Sized()
    ensures var r := Read(s, fh, length); var n := Min(length, fh.size - fh.offset);
            && r.Bytes? && r.bytes == Stored(s, b, fh.entry)[fh.offset..fh.offset + n]
            && Reading(s, b, r.fh) && r.fh.offset == fh.offset + n && r.fh.entry == fh.entry && r.fh.size == fh.size
  {
    hide Inv, ReadLoop, Stored, SizeOf, Readable;
    Inside(s, b);
    var n := Min(length, fh.size - fh.offset);
    ReadLoopReads(s, b, fh, n, []);
    assert [] + Wanted(s, b, fh, n) == Wanted(s, b, fh, n);
  }

  /** Any sequence of reads. */
  function ReadAll(s: State, fh: Handle, lengths: seq<nat>): ReadResult
    requires s.Sized()
    decreases |lengths|
  {
    if lengths == [] then Bytes(fh, [])
    else if fh.curEntry as int >= |s.dir| || fh.soffset >= SECTOR_SIZE || fh.offset > fh.size then AssertionFailed
    else
      var r := Read(s, fh, lengths[0]);
      if !r.Bytes? then r
      else
        var rest := ReadAll(s, r.fh, lengths[1..]);
        if !rest.Bytes? then rest else Bytes(rest.fh, r.bytes + rest.bytes)
  }

  function Sum(lengths: seq<nat>): nat {
    if lengths == [] then 0 else lengths[0] + Sum(lengths[1..])
  }

  /** Any sequence of reads delivers, put together, the next bytes of the file. */
  lemma {:induction false} ReadsConcatenate(s: State, b: Books, fh: Handle, lengths: seq<nat>)
    requires Inv(s, b) && Reading(s, b, fh)
    ensures s.Sized()
    ensures var r := ReadAll(s, fh, lengths); var n := Min(Sum(lengths), fh.size - fh.offset);
            && r.Bytes? && r.bytes == Stored(s, b, fh.entry)[fh.offset..fh.offset + n]
            && Reading(s, b, r.fh) && r.fh.offset == fh.offset + n && r.fh.entry == fh.entry && r.fh.size == fh.size
    decreases |lengths|
  {
    hide Inv, Read, Stored, SizeOf, Readable, ReadAll, Reading;
    Inside(s, b);
    ReadingInside(s, b, fh);
    if lengths == [] {
      assert ReadAll(s, fh, []) == Bytes(fh, []) by { ReadNothing(s, fh); }
    } else {
      ReadReads(s, b, fh, lengths[0]);
      ReadAllStep(s, fh, lengths);
      ReadsConcatenate(s, b, Read(s, fh, lengths[0]).fh, lengths[1..]);
    }
  }

  lemma ReadingInside(s: State, b: Books, fh: Handle)
    requires Reading(s, b, fh)
    ensures fh.curEntry as int < |s.dir| && fh.soffset < SECTOR_SIZE && fh.offset <= fh.size && fh.mode == ReadMode
    ensures Readable(s, b, fh.entry) && |Stored(s, b, fh.entry)| == fh.size
  {}

  lemma ReadNothing(s: State, fh: Handle)
    requires s.Sized()
    ensures ReadAll(s, fh, []) == Bytes(fh, [])
  {}

  lemma ReadAllStep(s: State, fh: Handle, lengths: seq<nat>)
    requires s.Sized() && lengths != [] && fh.curEntry as int < |s.dir| && fh.soffset < SECTOR_SIZE && fh.offset <= fh.size
    requires Read(s, fh, lengths[0]).Bytes?
    ensures var r := Read(s, fh, lengths[0]); var rest := ReadAll(s, r.fh, lengths[1..]);
            ReadAll(s, fh, lengths) == if rest.Bytes? then Bytes(rest.fh, r.bytes + rest.bytes) else rest
  {
    hide Read;
  }
}
