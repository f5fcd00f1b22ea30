/** The EEPROM file system as it runs: a byte memory, bitmaps packed into bytes, and one buffer for a
    directory entry, all updated in place (src/eeprom-fs.c). Every operation is tied to the function of
    the same name in EefsModel.dfy on the state that memory and bitmaps stand for. */
module EefsDevice {
  import opened Bits
  import opened EefsModel
  import opened EefsInvariant
  import opened EefsWrite
  import opened EefsFiles
  import opened EefsDelete
  import opened EefsMount
  import opened EefsRead

  const ENTRY_SIZE := 32

  // ---- Memory layout --------------------------------------------------------------

  function EntryAt(m: seq<byte>, i: nat): Entry
    requires 32 * i + 32 <= |m|
  {
    m[32 * i..32 * i + 32]
  }

  function SectorAt(m: seq<byte>, entries: nat, k: nat): Sector
    requires 32 * entries + 64 * k + 64 <= |m|
  {
    m[32 * entries + 64 * k..32 * entries + 64 * k + 64]
  }

  function Directory(m: seq<byte>, entries: nat): (r: seq<Entry>)
    requires 32 * entries <= |m|
    ensures |r| == entries
  {
    seq(entries, i requires 0 <= i < entries => EntryAt(m, i))
  }

  function Data(m: seq<byte>, entries: nat, sectors: nat): (r: seq<Sector>)
    requires 32 * entries + 64 * sectors <= |m|
    ensures |r| == sectors
  {
    seq(sectors, k requires 0 <= k < sectors => SectorAt(m, entries, k))
  }

  /** eeprom_write_block */
  function Overwritten(m: seq<byte>, at: nat, bytes: seq<byte>): (r: seq<byte>)
    requires at + |bytes| <= |m|
    ensures |r| == |m|
  {
    m[..at] + bytes + m[at + |bytes|..]
  }

  lemma OverwrittenAt(m: seq<byte>, at: nat, bytes: seq<byte>, j: nat)
    requires at + |bytes| <= |m| && j < |m|
    ensures Overwritten(m, at, bytes)[j] == if at <= j < at + |bytes| then bytes[j - at] else m[j]
  {}

  /** Replacing one entry changes that entry only. */
  lemma EntryReplaced(m: seq<byte>, entries: nat, sectors: nat, i: nat, e: Entry)
    requires 32 * entries + 64 * sectors <= |m| && i < entries
    ensures var m2 := Overwritten(m, 32 * i, e);
            Directory(m2, entries) == Directory(m, entries)[i := e] && Data(m2, entries, sectors) == Data(m, entries, sectors)
  {
    hide Overwritten;
    var m2 := Overwritten(m, 32 * i, e);
    forall j: nat | j < entries ensures EntryAt(m2, j) == if j == i then e else EntryAt(m, j) {
      forall x: nat | x < 32 ensures EntryAt(m2, j)[x] == if j == i then e[x] else EntryAt(m, j)[x] {
        OverwrittenAt(m, 32 * i, e, 32 * j + x);
      }
    }
    forall k: nat | k < sectors ensures SectorAt(m2, entries, k) == SectorAt(m, entries, k) {
      forall x: nat | x < 64 ensures SectorAt(m2, entries, k)[x] == SectorAt(m, entries, k)[x] {
        OverwrittenAt(m, 32 * i, e, 32 * entries + 64 * k + x);
      }
    }
  }

  /** Writing inside one sector patches that sector only. */
  lemma SectorPatched(m: seq<byte>, entries: nat, sectors: nat, k: nat, at: nat, bytes: seq<byte>)
    requires 32 * entries + 64 * sectors <= |m| && k < sectors && at + |bytes| <= SECTOR_SIZE
    ensures var m2 := Overwritten(m, 32 * entries + 64 * k + at, bytes);
            && Directory(m2, entries) == Directory(m, entries)
            && Data(m2, entries, sectors) == Data(m, entries, sectors)[k := Patch(SectorAt(m, entries, k), at, bytes)]
  {
    hide Overwritten;
    var base := 32 * entries + 64 * k + at;
    var m2 := Overwritten(m, base, bytes);
    forall j: nat | j < entries ensures EntryAt(m2, j) == EntryAt(m, j) {
      forall x: nat | x < 32 ensures EntryAt(m2, j)[x] == EntryAt(m, j)[x] {
        OverwrittenAt(m, base, bytes, 32 * j + x);
      }
    }
    forall j: nat | j < sectors
      ensures SectorAt(m2, entries, j) == if j == k then Patch(SectorAt(m, entries, k), at, bytes) else SectorAt(m, entries, j)
    {
      forall x: nat | x < 64
        ensures SectorAt(m2, entries, j)[x] == if j == k then Patch(SectorAt(m, entries, k), at, bytes)[x] else SectorAt(m, entries, j)[x]
      {
        OverwrittenAt(m, base, bytes, 32 * entries + 64 * j + x);
      }
    }
  }

  /** A file handle, which every operation updates in place. */
  class FileHandle {
    var at: Handle

    constructor ()
      ensures at == CLOSED
    {
      at := CLOSED;
    }
  }

  class Device {
    const entries: nat
    const sectors: nat
    const memory: array<byte>
    const usedSectors: array<byte>
    const usedEntries: array<byte>
    const buffer: array<byte>
    var freeSectors: byte
    ghost var wear: seq<nat>  // how often each byte of the EEPROM was written

    ghost predicate Valid()
      reads this
    {
      && 1 <= entries <= 255 && 1 <= sectors <= 255
      && memory.Length == 32 * entries + 64 * sectors && |wear| == memory.Length
      && usedSectors.Length == (sectors + 7) / 8 && usedEntries.Length == (entries + 7) / 8 && buffer.Length == 32
      && memory != usedSectors && memory != usedEntries && memory != buffer
      && usedSectors != usedEntries && usedSectors != buffer && usedEntries != buffer
    }

    /** The state that memory and bitmaps stand for. */
    ghost function View(): (s: State)
      requires Valid()
      reads this, memory, usedSectors, usedEntries
      ensures s.Sized() && |s.dir| == entries && |s.data| == sectors
    {
      State(Directory(memory[..], entries), Data(memory[..], entries, sectors),
            Flags(usedSectors[..], sectors), Flags(usedEntries[..], entries), freeSectors)
    }

    // ---- Blocks of memory ---------------------------------------------------------------

    /** eeprom_write_block: n bytes of the source from an index on. Every byte is written once. */
    method WriteBlock(src: array<byte>, start: nat, at: nat, n: nat)
      requires Valid() && start + n <= src.Length && at + n <= memory.Length && src != memory
      modifies memory, this`wear
      ensures memory[..] == Overwritten(old(memory[..]), at, src[start..start + n])
      ensures Valid() && forall j :: 0 <= j < |wear| ==> wear[j] == old(wear)[j] + if at <= j < at + n then 1 else 0
    {
      ghost var m := memory[..];
      var i := 0;
      while i < n
        invariant i <= n && Valid()
        invariant forall j :: 0 <= j < memory.Length ==> memory[j] == if at <= j < at + i then src[start + (j - at)] else m[j]
        invariant forall j :: 0 <= j < |wear| ==> wear[j] == old(wear)[j] + if at <= j < at + i then 1 else 0
      {
        memory[at + i] := src[start + i];
        wear := wear[at + i := wear[at + i] + 1];
        i := i + 1;
      }
      forall j: nat | j < memory.Length ensures memory[..][j] == Overwritten(m, at, src[start..start + n])[j] {
        OverwrittenAt(m, at, src[start..start + n], j);
      }
    }

    /** eeprom_read_block */
    method ReadBlock(dst: array<byte>, start: nat, at: nat, n: nat)
      requires Valid() && start + n <= dst.Length && at + n <= memory.Length && dst != memory
      modifies dst
      ensures dst[..] == old(dst[..start]) + memory[at..at + n] + old(dst[start + n..])
    {
      var i := 0;
      while i < n
        invariant i <= n
        invariant forall j :: 0 <= j < dst.Length ==> dst[j] == if start <= j < start + i then memory[at + (j - start)] else old(dst[j])
      {
        dst[start + i] := memory[at + i];
        i := i + 1;
      }
    }

    /** read_entry */
    method ReadEntry(index: byte)
      requires Valid() && index as int < entries
      modifies buffer
      ensures buffer[..] == View().dir[index]
    {
      ReadBlock(buffer, 0, 32 * index, ENTRY_SIZE);
    }

    /** write_entry: afterwards the entry is what the buffer holds and nothing else has changed; the bytes
        that were the same before were not written. */
    method WriteEntry(index: byte)
      requires Valid() && index as int < entries
      modifies memory, this`wear
      ensures Valid() && View() == old(View()).(dir := old(View()).dir[index := buffer[..]])
      ensures Copied(old(memory[..]), memory[..], old(wear), wear, buffer[..], 32 * index, 32)
    {
      hide Directory, Data, Flags, Overwritten, Copied;
      ghost var m := memory[..];
      WriteChanged(index);
      EntryCopied(m, memory[..], old(wear), wear, buffer[..], 32 * index);
      EntryReplaced(m, entries, sectors, index, buffer[..]);
    }

    lemma Shape(index: byte)
      requires Valid() && index as int < entries
      ensures buffer.Length == 32 && buffer != memory && 32 * index + 32 <= memory.Length && |wear| == memory.Length
    {}

    /** The loop of write_entry. */
    method WriteChanged(index: byte)
      requires Valid() && index as int < entries
      modifies memory, this`wear
      ensures Valid() && Copied(old(memory[..]), memory[..], old(wear), wear, buffer[..], 32 * index, 32)
    {
      hide Valid, View, Overwritten, Copied, Differ;
      Shape(index);
      ghost var m, base, entry := memory[..], 32 * index as nat, buffer[..];
      var orig := memory[32 * index..32 * index + ENTRY_SIZE];
      assert orig == m[base..base + 32];
      NothingCopied(m, wear, entry, base);
      NoneDiffer(entry, orig, 0);
      var i, start, nonmatching := 0, 0, false;
      while i < ENTRY_SIZE
        invariant 0 <= start <= i <= 32 && Valid() && buffer[..] == entry
        invariant nonmatching ==> Differ(entry, orig, start, i)
        invariant Copied(m, memory[..], old(wear), wear, entry, base, if nonmatching then start else i)
      {
        assert buffer[i] == entry[i];
        if nonmatching {
          if buffer[i] == orig[i] {
            nonmatching := false;
            assert entry[i] == orig[i];
            WriteStretch(index, m, orig, start, i, old(wear));
            SameCopied(m, memory[..], old(wear), wear, entry, orig, base, i);
          } else {
            OneMoreDiffers(entry, orig, start, i);
          }
        } else if buffer[i] != orig[i] {
          nonmatching := true;
          start := i;
          NoneDiffer(entry, orig, i);
          OneMoreDiffers(entry, orig, i, i);
        } else {
          SameCopied(m, memory[..], old(wear), wear, entry, orig, base, i);
        }
        i := i + 1;
      }
      if nonmatching {
        WriteStretch(index, m, orig, start, 32, old(wear));
      }
    }

    /** One stretch of bytes that all differ. */
    method WriteStretch(index: byte, ghost m: seq<byte>, ghost orig: seq<byte>, start: nat, end: nat, ghost worn: seq<nat>)
      requires Valid() && index as int < entries && start <= end <= 32
      requires |m| == memory.Length && orig == m[32 * index..32 * index + 32] && Differ(buffer[..], orig, start, end)
      requires Copied(m, memory[..], worn, wear, buffer[..], 32 * index, start)
      modifies memory, this`wear
      ensures Valid() && Copied(m, memory[..], worn, wear, buffer[..], 32 * index, end)
    {
      hide Overwritten;
      ghost var before, base := memory[..], 32 * index as nat;
      WriteBlock(buffer, start, 32 * index + start, end - start);
      ghost var after := memory[..];
      forall j: nat | j < |m| ensures after[j] == if base <= j < base + end then buffer[j - base] else m[j] {
        OverwrittenAt(before, base + start, buffer[start..end], j);
      }
      forall j | base + start <= j < base + end ensures m[j] != buffer[j - base] {
        assert orig[j - base] == m[base..base + 32][j - base];
      }
    }

    // ---- Bitmaps ----------------------------------------------------------------------------

    /** set_bit */
    method PutFlag(bitmap: array<byte>, bit: byte, state: bool)
      requires bit / 8 < bitmap.Length
      modifies bitmap
      ensures bitmap[..] == PutBit(old(bitmap[..]), bit, state)
    {
      bitmap[bit / 8] := if state then SetBit8(bitmap[bit / 8], bit % 8) else ClearBit8(bitmap[bit / 8], bit % 8);
    }

    /** mark_sector; its assertion is the precondition. */
    method Mark(sector: byte, used: bool)
      requires Valid() && sector as int < sectors && View().usedSectors[sector] != used
      modifies usedSectors, this`freeSectors
      ensures Valid() && View() == MarkSector(old(View()), sector, used)
    {
      hide Directory, Data, PutBit;
      FlagPut(usedSectors[..], sectors, sector, used);
      PutFlag(usedSectors, sector, used);
      if used {
        freeSectors := (freeSectors + 255) % 256;
      } else {
        freeSectors := (freeSectors + 1) % 256;
      }
    }

    /** next_free_sector */
    method NextFreeSector(start: byte) returns (cur: byte)
      requires Valid() && start as int < sectors
      ensures cur == NextFree(View().usedSectors, start, start)
    {
      hide Directory, Data;
      cur := start;
      while GetBit(usedSectors[..], cur)
        invariant cur as int < sectors
        invariant NextFree(View().usedSectors, start, cur) == NextFree(View().usedSectors, start, start)
        decreases if cur >= start then sectors - cur + start else start - cur
      {
        cur := if cur + 1 == sectors then 0 else cur + 1;
        if cur == start {
          return FREE;
        }
      }
    }

    /** next_free_entry: an entry found is marked as used. */
    method NextFreeEntry(start: byte) returns (cur: byte)
      requires Valid() && start as int < entries
      modifies usedEntries
      ensures Valid() && cur == NextFree(old(View()).usedEntries, start, start)
      ensures View() == if cur as int < entries then old(View()).(usedEntries := old(View()).usedEntries[cur := true]) else old(View())
    {
      hide Directory, Data, PutBit;
      cur := start;
      while GetBit(usedEntries[..], cur)
        invariant cur as int < entries
        invariant NextFree(View().usedEntries, start, cur) == NextFree(View().usedEntries, start, start)
        decreases if cur >= start then entries - cur + start else start - cur
      {
        cur := if cur + 1 == entries then 0 else cur + 1;
        if cur == start {
          return NONE;
        }
      }
      FlagPut(usedEntries[..], entries, cur, true);
      PutFlag(usedEntries, cur, true);
    }

    /** find_entry: the buffer then holds the entry found. */
    method FindEntry(name: Name) returns (index: byte)
      requires Valid()
      modifies buffer
      ensures index == Find(View().dir, name) && (index as int < entries ==> buffer[..] == View().dir[index])
      ensures Valid() && View() == old(View())
    {
      hide View;
      var i := 0;
      while i < entries
        invariant 0 <= i <= entries && Valid() && View() == old(View())
        invariant FindFrom(View().dir, name, i) == Find(View().dir, name)
      {
        ReadEntry(i);
        if Live(buffer[..]) && !IsList(buffer[..]) && buffer[NAME..SIZE] == name {
          assert buffer[NAME..SIZE] == NameOf(View().dir[i]);
          return i;
        }
        assert buffer[NAME..SIZE] == NameOf(View().dir[i]);
        i := i + 1;
      }
      index := NONE;
    }

    /** memset of the buffer */
    method ClearBuffer()
      requires Valid()
      modifies buffer
      ensures buffer[..] == Erased()
    {
      for i := 0 to 32
        invariant forall j :: 0 <= j < i ==> buffer[j] == 255
      {
        buffer[i] := 255;
      }
    }

    // ---- Opening -----------------------------------------------------------------------------------

    /** eepromfs_open for writing */
    method OpenWrite(name: Name, fh: FileHandle) returns (error: Error)
      requires Valid()
      modifies fh, memory, buffer, usedEntries, this`wear
      ensures Valid()
      ensures var o := Create(old(View()), name); View() == o.s && fh.at == o.fh && error == o.error
    {
      hide View, Find, NextFree;
      fh.at := CLOSED;
      var found := FindEntry(name);
      if found != NONE {
        return FileExists;
      }
      var e := NextFreeEntry(0);
      fh.at := fh.at.(entry := e);
      NextFreeFrom(old(View()).usedEntries, 0);
      if e == NONE {
        return DirFull;
      }
      fh.at := fh.at.(curEntry := e, sindex := 255, mode := WriteMode);
      BuildName(name);
      WriteEntry(e);
      error := Ok;
    }

    /** The buffer becomes a fresh name entry. */
    method BuildName(name: Name)
      requires Valid()
      modifies buffer
      ensures buffer[..] == FreshName(name)
    {
      ClearBuffer();
      for i := 0 to 16
        invariant forall j :: 0 <= j < 32 ==> buffer[j] == if NAME <= j < NAME + i then name[j - NAME] else 255
      {
        buffer[NAME + i] := name[i];
      }
      buffer[SIZE], buffer[SIZE + 1] := 0, 0;
      buffer[FLAGS] := 0;
    }

    /** eepromfs_open for reading */
    method OpenForReading(name: Name, fh: FileHandle) returns (error: Error)
      requires Valid()
      modifies fh, buffer
      ensures Valid() && View() == old(View())
      ensures var o := OpenRead(View(), name); fh.at == o.fh && error == o.error
    {
      hide View, Find;
      fh.at := CLOSED;
      var found := FindEntry(name);
      ghost var dir := View().dir;
      FoundOrNone(dir, name);
      if found == NONE {
        return FileNotFound;
      }
      fh.at := Handle(SizeOf(buffer[..]), 0, found, buffer[0], 0, found, 0, ReadMode);
      error := Ok;
    }

    /** eepromfs_open for appending: walk to the last entry, then to its last sector. */
    method OpenForAppending(name: Name, fh: FileHandle, ghost b: Books) returns (error: Error)
      requires Valid() && Inv(View(), b)
      modifies fh, buffer
      ensures Valid() && View() == old(View())
      ensures var o := OpenAppend(View(), name); fh.at == o.fh && error == o.error
    {
      hide View, Find, Inv, Sectors, LastEntry, LastIndex, SizeOf;
      fh.at := CLOSED;
      var found := FindEntry(name);
      ghost var s := View();
      FoundOrNone(s.dir, name);
      if found == NONE {
        return FileNotFound;
      }
      fh.at := fh.at.(entry := found, size := SizeOf(buffer[..]));
      var index := WalkToEnd(found, name, b);
      var slot := LastSlotUsed();
      var size := fh.at.size;
      fh.at := fh.at.(sector := buffer[slot], curEntry := index, offset := size, soffset := size % SECTOR_SIZE, mode := WriteMode);
      error := Ok;
    }

    /** Follow the chain to its last entry. */
    method WalkToEnd(first: byte, name: Name, ghost b: Books) returns (index: byte)
      requires Valid() && Inv(View(), b) && first as int < entries && first == Find(View().dir, name) && buffer[..] == View().dir[first]
      modifies buffer
      ensures Valid() && View() == old(View()) && index as int < entries
      ensures index == LastEntry(View().dir, first, entries) && buffer[..] == View().dir[index]
    {
      hide View, Find, Inv, Sectors, LastEntry;
      ghost var s, k := View(), 0;
      FindSpec(s, b, name);
      ghost var f := b.files[first];
      FirstEntry(s, b, first);
      ChainIsShort(s, b, first);
      LastEntryOfChain(s, b, first, 0, entries);
      ChainLink(s, b, first, 0);
      index := first;
      while buffer[NEXT] != NONE
        invariant Valid() && View() == s && 0 <= k < |f| && index == f[k].entry && index as int < entries && buffer[..] == s.dir[index]
        invariant s.dir[index][NEXT] == if k + 1 < |f| then f[k + 1].entry else NONE
        invariant k + 1 < |f| ==> f[k + 1].entry as int < entries
        decreases |f| - k
      {
        index := buffer[NEXT];
        ReadEntry(index);
        k := k + 1;
        ChainLink(s, b, first, k);
      }
      NoneIsLast(s, b, first, k);
    }

    /** The last slot before the first free one, or slot 0. */
    method LastSlotUsed() returns (slot: nat)
      requires Valid()
      ensures slot < 30 && slot == LastIndex(buffer[..], 0)
    {
      slot := 0;
      var i, max := 0, MaxSectors(buffer[..]);
      while i < max && buffer[i] != FREE
        invariant 0 <= i <= max && slot == (if i == 0 then 0 else i - 1)
        invariant LastIndex(buffer[..], i) == LastIndex(buffer[..], 0)
      {
        slot := i;
        i := i + 1;
      }
    }

    // ---- Writing ---------------------------------------------------------------------------------------

    /** The allocating part of eepromfs_write. */
    method AllocateSector(fh: FileHandle) returns (error: Error)
      requires Valid() && Usable(View(), fh.at)
      modifies fh, memory, buffer, usedSectors, usedEntries, this`wear, this`freeSectors
      ensures Valid()
      ensures var x := Extend(old(View()), old(fh.at)); View() == x.s && fh.at == x.fh && error == x.error
    {
      hide View, NextFree;
      ghost var s := View();
      var k := NextFreeSector(fh.at.sector);
      NextFreeFrom(s.usedSectors, fh.at.sector);
      if k == FREE {
        return DiskFull;
      }
      fh.at := fh.at.(sector := k, sindex := (fh.at.sindex + 1) % 256);
      ReadEntry(fh.at.curEntry);
      if fh.at.sindex as int >= MaxSectors(buffer[..]) {
        var e := NextFreeEntry(fh.at.curEntry);
        NextFreeFrom(s.usedEntries, fh.at.curEntry);
        if e == NONE {
          return DirFull;
        }
        LinkEntry(fh.at.curEntry, e);
        StoredTwice(View().dir, e, FreshList(), FreshList()[0 := k]);
        fh.at := fh.at.(curEntry := e, sindex := 0);
      }
      StoreSlot(fh.at.curEntry, fh.at.sindex, k);
      error := Ok;
    }

    /** Write the link to the new entry; the buffer becomes an empty list entry. */
    method LinkEntry(cur: byte, e: byte)
      requires Valid() && cur as int < entries && buffer[..] == View().dir[cur]
      modifies memory, buffer, this`wear
      ensures Valid() && View() == old(View()).(dir := old(View()).dir[cur := old(View()).dir[cur][NEXT := e]])
      ensures buffer[..] == FreshList()
    {
      hide View;
      buffer[NEXT] := e;
      assert buffer[..] == View().dir[cur][NEXT := e];
      WriteEntry(cur);
      ClearBuffer();
      buffer[FLAGS] := 2;
    }

    /** Mark the sector, and write its number into a slot of the entry in the buffer. */
    method StoreSlot(entry: byte, slot: byte, k: byte)
      requires Valid() && entry as int < entries && slot < 30 && k as int < sectors && !View().usedSectors[k]
      modifies memory, buffer, usedSectors, this`wear, this`freeSectors
      ensures Valid()
      ensures var m := MarkSector(old(View()), k, true); View() == m.(dir := m.dir[entry := old(buffer[..])[slot := k]])
    {
      hide View;
      Mark(k, true);
      buffer[slot] := k;
      assert buffer[..] == old(buffer[..])[slot := k];
      WriteEntry(entry);
    }

    /** The storing part of eepromfs_write. */
    method StoreBytes(fh: FileHandle, data: array<byte>, start: nat, n: nat)
      requires Valid() && Usable(View(), fh.at) && start + n <= data.Length && data != memory && fh.at.soffset + n <= SECTOR_SIZE
      modifies fh, memory, this`wear
      ensures Valid()
      ensures var y := Store(old(View()), old(fh.at), data[start..start + n]); View() == y.s && fh.at == y.fh
    {
      hide Directory, Data, Flags, Overwritten, Patch;
      ghost var m := memory[..];
      SectorPatched(m, entries, sectors, fh.at.sector, fh.at.soffset, data[start..start + n]);
      DataAt(m, entries, sectors, fh.at.sector);
      WriteBlock(data, start, 32 * entries + 64 * fh.at.sector + fh.at.soffset, n);
      fh.at := fh.at.(size := fh.at.size + n, offset := fh.at.offset + n, soffset := (fh.at.soffset + n) % SECTOR_SIZE);
    }

    /** eepromfs_write */
    method WriteFile(fh: FileHandle, data: array<byte>, length: nat) returns (error: Error, written: nat)
      requires Valid() && Usable(View(), fh.at) && length <= data.Length
      requires data != memory && data != buffer && data != usedSectors && data != usedEntries
      modifies fh, memory, buffer, usedSectors, usedEntries, this`wear, this`freeSectors
      ensures Valid()
      ensures var w := Write(old(View()), old(fh.at), data[..length]);
              View() == w.s && fh.at == w.fh && error == w.error && written == w.count
    {
      hide View, Extend, Patch, WriteLoop;
      written := 0;
      if fh.at.mode != WriteMode {
        return Invalid, 0;
      }
      ghost var s0, at0, bytes := View(), fh.at, data[..length];
      var left := length;
      assert bytes[written..] == bytes;
      while left > 0
        invariant Valid() && Usable(View(), fh.at) && written + left == length
        invariant data[..length] == bytes && WriteLoop(View(), fh.at, bytes[written..], written) == WriteLoop(s0, at0, bytes, 0)
      {
        ghost var s, at, rest := View(), fh.at, bytes[written..];
        WriteLoopRound(s, at, rest, written);
        ExtendUsable(s, at);
        if fh.at.soffset == 0 {
          error := AllocateSector(fh);
          if error != Ok {
            return;
          }
        }
        var n := Min(left, SECTOR_SIZE - fh.at.soffset);
        SplitSlice(bytes, written, n);
        SliceOfSlice(data[..], 0, length, written, n);
        assert data[..][written..written + n] == data[written..written + n] && data[..][0..length] == data[..length];
        StoreBytes(fh, data, written, n);
        left := left - n;
        written := written + n;
      }
      assert bytes[written..] == [];
      WriteLoopDone(View(), fh.at, written);
      error := Ok;
    }

    // ---- Reading -----------------------------------------------------------------------------------------------

    /** Moving to the next sector; the source's assertions are the precondition. */
    method Advance(fh: FileHandle)
      requires Valid() && fh.at.curEntry as int < entries && NextSector(View(), fh.at).At?
      modifies fh, buffer
      ensures Valid() && View() == old(View()) && At(fh.at) == NextSector(View(), old(fh.at))
    {
      hide View;
      ReadEntry(fh.at.curEntry);
      fh.at := fh.at.(sindex := (fh.at.sindex + 1) % 256);
      if fh.at.sindex as int >= MaxSectors(buffer[..]) {
        fh.at := fh.at.(curEntry := buffer[NEXT], sindex := 0);
        ReadEntry(fh.at.curEntry);
      }
      fh.at := fh.at.(sector := buffer[fh.at.sindex]);
    }

    /** eepromfs_read, as long as its assertions hold (ReadReads says that they do). */
    method ReadFile(fh: FileHandle, data: array<byte>, length: nat) returns (error: Error, count: nat)
      requires Valid() && fh.at.curEntry as int < entries && fh.at.soffset < SECTOR_SIZE && fh.at.offset <= fh.at.size
      requires length <= data.Length && data != memory && data != buffer && data != usedSectors && data != usedEntries
      requires Read(View(), fh.at, length) != AssertionFailed
      modifies fh, buffer, data
      ensures Valid() && View() == old(View()) && count <= data.Length
      ensures var r := Read(View(), old(fh.at), length);
              if r.Bytes? then error == Ok && fh.at == r.fh && data[..count] == r.bytes
              else error == Invalid && fh.at == old(fh.at) && count == 0
    {
      hide View, NextSector, ReadLoop;
      count := 0;
      if fh.at.mode != ReadMode {
        return Invalid, 0;
      }
      ghost var s, at0 := View(), fh.at;
      var left: nat := Min(length, fh.at.size - fh.at.offset);
      ghost var all := left;
      assert data[..0] == [];
      while left > 0
        invariant Valid() && View() == s && count + left == all <= data.Length
        invariant fh.at.curEntry as int < entries && fh.at.soffset < SECTOR_SIZE
        invariant ReadLoop(s, fh.at, left, data[..count]) == ReadLoop(s, at0, all, []) != AssertionFailed
      {
        ghost var at, got := fh.at, data[..count];
        ReadLoopCases(s, at, left, got);
        var n := Min(left, SECTOR_SIZE - fh.at.soffset);
        ReadBlock(data, count, 32 * entries + 64 * fh.at.sector + fh.at.soffset, n);
        Delivered(fh.at, n);
        assert data[..count + n] == got + s.data[at.sector][at.soffset..at.soffset + n];
        count := count + n;
        left := left - n;
        fh.at := Advanced(fh.at, n);
        if fh.at.offset != fh.at.size && fh.at.soffset == 0 {
          NextInside(s, fh.at);
          Advance(fh);
        }
      }
      ReadLoopEnds(s, fh.at, data[..count]);
      error := Ok;
    }

    /** The bytes read from memory are those of the sector. */
    lemma Delivered(at: Handle, n: nat)
      requires Valid() && at.sector as int < sectors && at.soffset + n <= SECTOR_SIZE
      ensures var a := 32 * entries + 64 * at.sector + at.soffset;
              memory[a..a + n] == View().data[at.sector][at.soffset..at.soffset + n]
    {
      hide Directory, Flags;
      var a := 32 * entries + 64 * at.sector as nat;
      SliceOfSlice(memory[..], a, a + 64, at.soffset, n);
    }

    // ---- Closing, renaming -----------------------------------------------------------------------------------------

    /** eepromfs_close */
    method CloseFile(fh: FileHandle)
      requires Valid() && fh.at.entry as int < entries
      modifies fh, memory, buffer, this`wear
      ensures Valid() && View() == Close(old(View()), old(fh.at)) && fh.at == old(fh.at).(mode := ReadMode)
    {
      hide View;
      if fh.at.mode != ReadMode {
        ReadEntry(fh.at.entry);
        buffer[SIZE], buffer[SIZE + 1] := fh.at.size % 256, fh.at.size / 256 % 256;
        assert buffer[..] == WithSize(View().dir[fh.at.entry], fh.at.size);
        WriteEntry(fh.at.entry);
      }
      fh.at := fh.at.(mode := ReadMode);
    }

    /** eepromfs_rename */
    method RenameFile(from: Name, to: Name) returns (error: Error)
      requires Valid()
      modifies memory, buffer, this`wear
      ensures Valid()
      ensures var r := Rename(old(View()), from, to); View() == r.s && error == r.error
    {
      hide View, Find;
      FoundOrNone(View().dir, to);
      var found := FindEntry(to);
      if found != NONE {
        return FileExists;
      }
      FoundOrNone(View().dir, from);
      found := FindEntry(from);
      if found == NONE {
        return FileNotFound;
      }
      for i := 0 to 16
        invariant Valid() && View() == old(View())
        invariant forall j :: 0 <= j < 32 ==> buffer[j] == if NAME <= j < NAME + i then to[j - NAME] else View().dir[found][j]
      {
        buffer[NAME + i] := to[i];
      }
      assert buffer[..] == WithName(View().dir[found], to);
      WriteEntry(found);
      error := Ok;
    }

    // ---- Deleting ---------------------------------------------------------------------------------------------------

    /** eepromfs_delete */
    method DeleteFile(name: Name, ghost b: Books) returns (error: Error)
      requires Valid() && Inv(View(), b)
      modifies memory, buffer, usedSectors, this`wear, this`freeSectors
      ensures Valid()
      ensures var r := Delete(old(View()), name); View() == r.s && error == r.error
    {
      hide View, Find, Inv, Sectors, DeleteChain, Underway, Holds, FreeSlots;
      ghost var s := View();
      FindSpec(s, b, name);
      FoundOrNone(s.dir, name);
      var index := FindEntry(name);
      if index == NONE {
        return FileNotFound;
      }
      ghost var h, k := index, 0;
      ghost var f := b.files[h];
      DeletionStarts(s, b, h);
      ChainLink(s, b, h, 0);
      while index != NONE
        invariant Valid() && k <= |f| && Underway(s, b, h, View(), k, |Sectors(f[..k])|)
        invariant index == if k < |f| then f[k].entry else NONE
        invariant k < |f| ==> index as int < entries && buffer[..] == View().dir[index]
        decreases |f| - k
      {
        EntryErased(s, b, h, View(), k);
        FreeEntrySlots(b, h, s, k);
        var old_ := index;
        index := buffer[NEXT];
        ChainLink(s, b, h, k);
        ClearBuffer();
        WriteEntry(old_);
        k := k + 1;
        if index != NONE {
          ChainLink(s, b, h, k);
          ReadEntry(index);
        }
      }
      assert f[..k] == f;
      assert f[..0] == [];
      NoSectors();
      ChainIsShort(s, b, h);
      ChainErased(s, b, h, s, 0, |s.dir|);
      UnderwayOnce(s, b, h, View(), DeleteChain(s, h, |s.dir|), |f|, |Sectors(f)|);
      error := Ok;
    }

    /** Free the sectors of the entry in the buffer. */
    method FreeEntrySlots(ghost b: Books, ghost h: byte, ghost s: State, ghost k: nat)
      requires Valid() && Inv(s, b) && h in b.files && k < |b.files[h]|
      requires Underway(s, b, h, View(), k, |Sectors(b.files[h][..k])|) && buffer[..] == s.dir[b.files[h][k].entry]
      modifies usedSectors, this`freeSectors
      ensures Valid() && View() == FreeSlots(old(View()), buffer[..], 0)
    {
      hide View, Inv, Sectors, Underway, Holds, FreeSlots, MarkSector;
      PartHoldsOf(s, b, h, k);
      SlotCount(buffer[..], b.files[h][k].sectors);
      PartSlice(b.files[h], k);
      ghost var f := b.files[h];
      ghost var m, v0 := |Sectors(f[..k])|, View();
      var i, max := 0, MaxSectors(buffer[..]);
      while i < max && buffer[i] != FREE
        invariant 0 <= i <= |f[k].sectors| <= max && Valid()
        invariant Underway(s, b, h, View(), k, m + i)
        invariant FreeSlots(View(), buffer[..], i) == FreeSlots(v0, buffer[..], 0)
      {
        SlotHeld(buffer[..], f[k].sectors, i);
        SectorFreedOf(s, b, h, View(), k, m + i);
        assert buffer[i] == Sectors(f)[m..m + |f[k].sectors|][i] == Sectors(f)[m + i];
        FreeSlotsStep(View(), buffer[..], i);
        Mark(buffer[i], false);
        i := i + 1;
      }
      FreeSlotsDone(View(), buffer[..], i);
    }

    // ---- Mounting, formatting ------------------------------------------------------------------------------------------

    /** memset of a bitmap */
    method ClearFlags(bitmap: array<byte>)
      modifies bitmap
      ensures forall j :: 0 <= j < bitmap.Length ==> bitmap[j] == 0
    {
      for i := 0 to bitmap.Length
        invariant forall j :: 0 <= j < i ==> bitmap[j] == 0
      {
        bitmap[i] := 0;
      }
    }

    /** eepromfs_init, for any directory and data that some state with the invariant has. */
    method Mount(ghost s: State, ghost b: Books)
      requires Valid() && Inv(s, b) && View().dir == s.dir && View().data == s.data
      modifies buffer, usedSectors, usedEntries, this`freeSectors
      ensures Valid() && View() == Init(s.dir, s.data)
    {
      hide Directory, Data, Inv, InitFrom, Scanning, PlacesOk, MarkSlots, Live;
      ghost var places := PlacesExist(s, b);
      Inside(s, b);
      ScanStarts(s, places);
      freeSectors := sectors;
      ClearFlags(usedSectors);
      ClearFlags(usedEntries);
      ghost var start := View();
      NoFlags(usedSectors[..], sectors);
      NoFlags(usedEntries[..], entries);
      assert start == State(s.dir, s.data, seq(|s.data|, _ => false), seq(|s.dir|, _ => false), |s.data|);
      ScanAll(s, b, places);
      ScanRebuilds(s, places, start, 0);
      SameEnd(s, places, View(), InitFrom(start, 0));
    }

    /** The scan over all entries. */
    method ScanAll(ghost s: State, ghost b: Books, ghost places: seq<Place>)
      requires Valid() && Inv(s, b) && Scanning(s, places, View(), 0, 0) && View().usedEntries == LiveBefore(s.dir, 0)
      modifies buffer, usedSectors, usedEntries, this`freeSectors
      ensures Valid() && Scanning(s, places, View(), entries, 0) && View().usedEntries == LiveBefore(s.dir, entries)
    {
      hide View, Inv, Scanning, Live, MaxSectors;
      ScanSizes(s, places, View(), 0, 0);
      var i := 0;
      while i < entries
        invariant 0 <= i <= entries && Valid() && Scanning(s, places, View(), i, 0) && View().usedEntries == LiveBefore(s.dir, i)
      {
        ScanSizes(s, places, View(), i, 0);
        ReadEntry(i);
        if Live(buffer[..]) {
          ScanEntry(s, b, places, i);
        } else {
          EntryScanned(s, places, View(), i, 0);
          assert LiveBefore(s.dir, i + 1) == LiveBefore(s.dir, i);
        }
        i := i + 1;
      }
    }

    /** A live entry, which is in the buffer: mark it and its sectors. */
    method ScanEntry(ghost s: State, ghost b: Books, ghost places: seq<Place>, i: byte)
      requires Valid() && i as int < entries && Inv(s, b) && Scanning(s, places, View(), i, 0) && View().usedEntries == LiveBefore(s.dir, i)
      requires buffer[..] == View().dir[i] && Live(buffer[..])
      modifies usedSectors, usedEntries, this`freeSectors
      ensures Valid() && Scanning(s, places, View(), i + 1, 0) && View().usedEntries == LiveBefore(s.dir, i + 1)
    {
      hide View, Inv, Scanning, Live, MarkSector;
      ghost var before := View();
      ScanSizes(s, places, before, i, 0);
      MarkEntry(i);
      SameScan(s, places, before, View(), i, 0);
      assert LiveBefore(s.dir, i + 1) == before.usedEntries[i := true];
      var j, max := 0, MaxSectors(buffer[..]);
      while j < max
        invariant 0 <= j <= max && Valid() && Scanning(s, places, View(), i, j) && View().usedEntries == LiveBefore(s.dir, i + 1)
      {
        ScanSizes(s, places, View(), i, j);
        SlotMarked(s, places, View(), i, j);
        SlotInside(s, b, i, j);
        if buffer[j] != FREE {
          MarkedEntries(View(), buffer[j]);
          Mark(buffer[j], true);
        }
        j := j + 1;
      }
      ScanSizes(s, places, View(), i, j);
      EntryScanned(s, places, View(), i, j);
    }

    /** eepromfs_format: four bytes at a time, and only those that are not erased already. */
    method Reformat()
      requires Valid()
      modifies memory, buffer, usedSectors, usedEntries, this`freeSectors
      ensures Valid() && View() == Format(entries, sectors)
    {
      hide Init, Inv, Flags;
      var i := 0;
      while i < memory.Length
        invariant 0 <= i <= memory.Length && i % 4 == 0
        invariant forall j :: 0 <= j < i ==> memory[j] == 255
      {
        if memory[i] != 255 || memory[i + 1] != 255 || memory[i + 2] != 255 || memory[i + 3] != 255 {
          memory[i], memory[i + 1], memory[i + 2], memory[i + 3] := 255, 255, 255, 255;
        }
        i := i + 4;
      }
      AllErased(memory[..], entries, sectors);
      FormatEmpties(entries, sectors);
      FormatShape(entries, sectors);
      Mount(Format(entries, sectors), NoFiles(entries, sectors));
    }

    method MarkEntry(i: byte)
      requires Valid() && i as int < entries
      modifies usedEntries
      ensures Valid() && View() == old(View()).(usedEntries := old(View()).usedEntries[i := true])
    {
      hide Directory, Data, PutBit;
      FlagPut(usedEntries[..], entries, i, true);
      PutFlag(usedEntries, i, true);
    }
  }

  /** The first bytes of an entry are copied, and only those that differed were written, once each. */
  ghost predicate Copied(m: seq<byte>, m2: seq<byte>, worn: seq<nat>, wear: seq<nat>, entry: seq<byte>, base: nat, done: nat) {
    && |m2| == |m| == |worn| == |wear| && |entry| == 32 && base + 32 <= |m| && done <= 32
    && (forall j {:trigger m2[j]} :: 0 <= j < |m| ==> m2[j] == if base <= j < base + done then entry[j - base] else m[j])
    && (forall j {:trigger wear[j]} :: 0 <= j < |m| ==>
          wear[j] == worn[j] + if base <= j < base + done && m[j] != entry[j - base] then 1 else 0)
  }

  predicate Differ(a: seq<byte>, b: seq<byte>, low: nat, high: nat) {
    high <= |a| && high <= |b| && forall j :: low <= j < high ==> a[j] != b[j]
  }

  lemma NoneDiffer(a: seq<byte>, b: seq<byte>, i: nat)
    requires i <= |a| && i <= |b|
    ensures Differ(a, b, i, i)
  {}

  lemma OneMoreDiffers(a: seq<byte>, b: seq<byte>, low: nat, i: nat)
    requires Differ(a, b, low, i) && i < |a| && i < |b| && a[i] != b[i]
    ensures Differ(a, b, low, i + 1)
  {}

  lemma NothingCopied(m: seq<byte>, wear: seq<nat>, entry: seq<byte>, base: nat)
    requires |wear| == |m| && |entry| == 32 && base + 32 <= |m|
    ensures Copied(m, m, wear, wear, entry, base, 0)
  {}

  lemma SameCopied(m: seq<byte>, m2: seq<byte>, worn: seq<nat>, wear: seq<nat>, entry: seq<byte>, orig: seq<byte>, base: nat, i: nat)
    requires Copied(m, m2, worn, wear, entry, base, i) && i < 32 && orig == m[base..base + 32] && entry[i] == orig[i]
    ensures Copied(m, m2, worn, wear, entry, base, i + 1)
  {
    assert orig[i] == m[base + i];
  }

  lemma EntryCopied(m: seq<byte>, m2: seq<byte>, worn: seq<nat>, wear: seq<nat>, e: seq<byte>, base: nat)
    requires Copied(m, m2, worn, wear, e, base, 32)
    ensures m2 == Overwritten(m, base, e)
  {}

  lemma FoundOrNone(dir: seq<Entry>, name: Name)
    requires |dir| <= 255
    ensures Find(dir, name) as int < |dir| <==> Find(dir, name) != NONE
  {
    hide Named;
    FindFromSpec(dir, name, 0);
  }

  /** Only the last entry has no successor. */
  lemma NoneIsLast(s: State, b: Books, h: byte, k: nat)
    requires Inv(s, b) && h in b.files && k < |b.files[h]| && b.files[h][k].entry as int < |s.dir|
    requires s.dir[b.files[h][k].entry][NEXT] == NONE
    ensures k == |b.files[h]| - 1
  {
    hide Inv, Sectors;
    Inside(s, b);
    ChainLink(s, b, h, k);
  }

  lemma SplitSlice(bytes: seq<byte>, at: nat, n: nat)
    requires at + n <= |bytes|
    ensures bytes[at..][..n] == bytes[at..at + n] && bytes[at..][n..] == bytes[at + n..]
  {}

  lemma StoredTwice(dir: seq<Entry>, e: byte, first: Entry, second: Entry)
    requires e as int < |dir|
    ensures dir[e := first][e := second] == dir[e := second] && dir[e := first][e] == first
  {}

  lemma DataAt(m: seq<byte>, entries: nat, sectors: nat, k: nat)
    requires 32 * entries + 64 * sectors <= |m| && k < sectors
    ensures Data(m, entries, sectors)[k] == SectorAt(m, entries, k)
  {}

  lemma WriteLoopDone(s: State, fh: Handle, count: nat)
    requires Usable(s, fh)
    ensures WriteLoop(s, fh, [], count) == Written(s, fh, count, Ok)
  {}

  /** A round of the reading loop, whatever comes behind it. */
  lemma ReadLoopCases(s: State, fh: Handle, length: nat, got: seq<byte>)
    requires s.Sized() && fh.curEntry as int < |s.dir| && fh.soffset < SECTOR_SIZE && length > 0
    requires ReadLoop(s, fh, length, got) != AssertionFailed
    ensures fh.sector as int < |s.data|
    ensures var n := Min(length, SECTOR_SIZE - fh.soffset); var fh1 := Advanced(fh, n); var got1 := got + s.data[fh.sector][fh.soffset..fh.soffset + n];
            if fh1.offset != fh1.size && fh1.soffset == 0
            then NextSector(s, fh1).At? && InsideNext(s, fh1) && ReadLoop(s, fh, length, got) == ReadLoop(s, NextSector(s, fh1).fh, length - n, got1)
            else ReadLoop(s, fh, length, got) == ReadLoop(s, fh1, length - n, got1)
  {
    hide NextSector;
    var n := Min(length, SECTOR_SIZE - fh.soffset);
    if NextSector(s, Advanced(fh, n)).At? {
      NextInside(s, Advanced(fh, n));
    }
  }

  predicate InsideNext(s: State, fh: Handle)
    requires s.Sized() && fh.curEntry as int < |s.dir| && NextSector(s, fh).At?
  {
    NextSector(s, fh).fh.curEntry as int < |s.dir| && NextSector(s, fh).fh.soffset == fh.soffset
  }

  lemma NextInside(s: State, fh: Handle)
    requires s.Sized() && fh.curEntry as int < |s.dir| && NextSector(s, fh).At?
    ensures InsideNext(s, fh)
  {}

  lemma UnderwayOnce(s: State, b: Books, h: byte, t: State, u: State, k: nat, m: nat)
    requires Underway(s, b, h, t, k, m) && Underway(s, b, h, u, k, m)
    ensures t == u
  {}

  lemma PartHoldsOf(s: State, b: Books, h: byte, k: nat)
    requires Inv(s, b) && h in b.files && k < |b.files[h]|
    ensures var p := b.files[h][k]; p.entry as int < |s.dir| && Holds(s.dir[p.entry], p.sectors)
  {
    hide Sectors, CountFree, SectorsOk, EntriesOk, NamesOk, Holds;
    PartHolds(s, b, h, k);
  }

  lemma SectorFreedOf(s: State, b: Books, h: byte, t: State, k: nat, m: nat)
    requires Inv(s, b) && h in b.files && m < |Sectors(b.files[h])| && Underway(s, b, h, t, k, m)
    ensures var x := Sectors(b.files[h])[m];
            && x as int < |s.data| && t.Sized() && x as int < |t.data| && t.usedSectors[x]
            && Underway(s, b, h, MarkSector(t, x as int, false), k, m + 1)
  {
    hide Sectors, CountFree, FilesOk, EntriesOk, NamesOk, SectorsOk;
    SectorFreed(s, b, h, t, k, m);
  }

  lemma SlotHeld(e: Entry, sectors: seq<byte>, i: nat)
    requires Holds(e, sectors) && i < MaxSectors(e) && e[i] != FREE
    ensures i < |sectors| && e[i] == sectors[i]
  {}

  lemma FreeSlotsStep(s: State, e: Entry, i: nat)
    requires s.Sized() && i < MaxSectors(e) && e[i] as int < |s.data|
    ensures FreeSlots(s, e, i) == FreeSlots(MarkSector(s, e[i], false), e, i + 1)
  {}

  lemma FreeSlotsDone(s: State, e: Entry, i: nat)
    requires s.Sized() && i <= MaxSectors(e) && (i == MaxSectors(e) || e[i] == FREE)
    ensures FreeSlots(s, e, i) == s
  {}

  lemma NoFlags(bitmap: seq<byte>, n: nat)
    requires (n + 7) / 8 <= |bitmap| && forall j :: 0 <= j < |bitmap| ==> bitmap[j] == 0
    ensures Flags(bitmap, n) == seq(n, _ => false)
  {
    forall k: nat | k < n ensures !GetBit(bitmap, k) {
      NoBits(k % 8);
    }
  }

  lemma SameEnd(s: State, places: seq<Place>, t: State, u: State)
    requires Scanning(s, places, t, |s.dir|, 0) && Scanning(s, places, u, |s.dir|, 0) && t.usedEntries == u.usedEntries
    ensures t == u
  {}

  /** A slot of a live entry holds a sector number or is free. */
  lemma SlotInside(s: State, b: Books, e: nat, m: nat)
    requires Inv(s, b) && e < |s.dir| && Live(s.dir[e]) && m < MaxSectors(s.dir[e])
    ensures s.dir[e][m] == FREE || s.dir[e][m] as int < |s.data|
  {
    hide Sectors, CountFree, SectorsOk, NamesOk;
    assert OwnsEntry(b, e);
    var o := b.entryOwner[e];
    assert PartOk(s.dir, b.files[o.head], o.index);
    FilesReadable(s, b, o.head);
    PartSectors(s.data, b.files[o.head], o.index);
  }

  lemma MarkedEntries(t: State, k: byte)
    requires t.Sized() && k as int < |t.data|
    ensures MarkSector(t, k, true).usedEntries == t.usedEntries
  {}

  lemma AllErased(m: seq<byte>, entries: nat, sectors: nat)
    requires |m| == 32 * entries + 64 * sectors && forall j :: 0 <= j < |m| ==> m[j] == 255
    ensures Directory(m, entries) == seq(entries, _ => Erased())
    ensures Data(m, entries, sectors) == seq(sectors, _ => seq(64, _ => 255))
  {
    forall i: nat | i < entries ensures EntryAt(m, i) == Erased() {
    }
    forall k: nat | k < sectors ensures SectorAt(m, entries, k) == seq(64, _ => 255) {
    }
  }

  lemma FormatShape(entries: nat, sectors: nat)
    requires 1 <= entries <= 255 && 1 <= sectors <= 255
    ensures var s := Format(entries, sectors);
            && s.dir == seq(entries, _ => Erased()) && s.data == seq(sectors, _ => seq(64, _ => 255)) && s == Init(s.dir, s.data)
  {
    hide InitFrom;
  }
}
