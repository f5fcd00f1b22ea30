/** The EEPROM file system as functions on its state: directory entries, data sectors and the
    bookkeeping in RAM (src/eeprom-fs.c). The device that carries the state out is in EefsDevice.dfy. */
module EefsModel {
  import opened Bits

  const SECTOR_SIZE := 64
  const FREE: byte := 255   // SECTOR_FREE
  const NONE: byte := 255   // no further directory entry, no entry found

  type Entry = e: seq<byte> | |e| == 32 witness seq(32, _ => 255)
  type Sector = s: seq<byte> | |s| == 64 witness seq(64, _ => 255)
  type Name = n: seq<byte> | |n| == 16 witness seq(16, _ => 0xa0)

  /** free counts the sectors not marked as used; it is an 8-bit variable. */
  datatype State = State(dir: seq<Entry>, data: seq<Sector>, usedSectors: seq<bool>, usedEntries: seq<bool>, free: byte)
  {
    /** The sizes the static assertions allow. */
    predicate Sized() {
      && 1 <= |dir| <= 255 && |usedEntries| == |dir|
      && 1 <= |data| <= 255 && |usedSectors| == |data|
    }
  }

  // ---- Directory entries ------------------------------------------------------

  const NAME := 12
  const SIZE := 28
  const FLAGS := 30
  const NEXT := 31

  /** flags & EEFS_FLAG_DELETED is clear */
  predicate Live(e: Entry) {
    e[FLAGS] % 2 == 0
  }

  /** flags & EEFS_FLAG_LISTENTRY */
  predicate IsList(e: Entry) {
    e[FLAGS] / 2 % 2 == 1
  }

  function MaxSectors(e: Entry): nat {
    if IsList(e) then 30 else 12
  }

  function NameOf(e: Entry): Name {
    e[NAME..SIZE]
  }

  function SizeOf(e: Entry): nat {
    var low: nat, high: nat := e[SIZE], e[SIZE + 1];
    low + 256 * high
  }

  function WithSize(e: Entry, size: nat): Entry {
    e[SIZE := size % 256][SIZE + 1 := size / 256 % 256]
  }

  function WithName(e: Entry, name: Name): Entry {
    e[..NAME] + name + e[SIZE..]
  }

  function Erased(): Entry {
    seq(32, _ => 255)
  }

  function FreshName(name: Name): Entry {
    seq(12, _ => 255) + name + [0, 0, 0, 255]
  }

  function FreshList(): Entry {
    seq(30, _ => 255) + [2, 255]
  }

  // ---- Searching -----------------------------------------------------------------

  /** find_entry, from an index on */
  function FindFrom(dir: seq<Entry>, name: Name, i: nat): byte
    requires i <= |dir| <= 255
    decreases |dir| - i
  {
    if i == |dir| then NONE
    else if Live(dir[i]) && !IsList(dir[i]) && NameOf(dir[i]) == name then i
    else FindFrom(dir, name, i + 1)
  }

  function Find(dir: seq<Entry>, name: Name): byte
    requires |dir| <= 255
  {
    FindFrom(dir, name, 0)
  }

  /** next_free_sector and next_free_entry: the first unused number from cur on, wrapping at the end
      and giving up when start comes up again. */
  function NextFree(used: seq<bool>, start: nat, cur: nat): byte
    requires start < |used| && cur < |used| <= 255
    decreases if cur >= start then |used| - cur + start else start - cur
  {
    if !used[cur] then cur
    else
      var next := if cur + 1 == |used| then 0 else cur + 1;
      if next == start then NONE else NextFree(used, start, next)
  }

  // ---- File handles ----------------------------------------------------------------

  datatype Mode = ReadMode | WriteMode

  datatype Handle = Handle(size: nat, offset: nat, entry: byte, sector: byte, soffset: nat, curEntry: byte, sindex: byte, mode: Mode)

  datatype Error = Ok | FileNotFound | FileExists | DirFull | DiskFull | Invalid

  datatype Opened = Opened(s: State, fh: Handle, error: Error)

  const CLOSED: Handle := Handle(0, 0, 0, 0, 0, 0, 0, ReadMode)

  /** eepromfs_open for writing */
  function Create(s: State, name: Name): Opened
    requires s.Sized()
  {
    if Find(s.dir, name) != NONE then Opened(s, CLOSED, FileExists)
    else
      var e := NextFree(s.usedEntries, 0, 0);
      if e as int >= |s.dir| then Opened(s, CLOSED.(entry := NONE), DirFull)
      else Opened(s.(dir := s.dir[e := FreshName(name)], usedEntries := s.usedEntries[e := true]),
                  Handle(0, 0, e, 0, 0, e, 255, WriteMode), Ok)
  }

  /** eepromfs_open for reading */
  function OpenRead(s: State, name: Name): Opened
    requires s.Sized()
  {
    var e := Find(s.dir, name);
    if e as int >= |s.dir| then Opened(s, CLOSED, FileNotFound)
    else Opened(s, Handle(SizeOf(s.dir[e]), 0, e, s.dir[e][0], 0, e, 0, ReadMode), Ok)
  }

  /** The last entry of a chain, within the given number of links. */
  function LastEntry(dir: seq<Entry>, e: byte, links: nat): (r: byte)
    requires e as int < |dir|
    ensures r as int < |dir|
    decreases links
  {
    var next := dir[e][NEXT];
    if next == NONE || next as int >= |dir| || links == 0 then e else LastEntry(dir, next, links - 1)
  }

  /** Index of the last sector of an entry, as eepromfs_open finds it: the one before the first free
      slot, or 0. */
  function LastIndex(e: Entry, i: nat): (r: nat)
    requires i <= MaxSectors(e)
    ensures r < 30
    decreases MaxSectors(e) - i
  {
    if i == MaxSectors(e) || e[i] == FREE then (if i == 0 then 0 else i - 1) else LastIndex(e, i + 1)
  }

  /** eepromfs_open for appending. The index of the current sector in its entry stays 0. */
  function OpenAppend(s: State, name: Name): Opened
    requires s.Sized()
  {
    var e := Find(s.dir, name);
    if e as int >= |s.dir| then Opened(s, CLOSED, FileNotFound)
    else
      var size, last := SizeOf(s.dir[e]), LastEntry(s.dir, e, |s.dir|);
      Opened(s, Handle(size, size, e, s.dir[last][LastIndex(s.dir[last], 0)], size % SECTOR_SIZE, last, 0, WriteMode), Ok)
  }

  // ---- Writing ------------------------------------------------------------------------

  datatype Stepped = Stepped(s: State, fh: Handle, error: Error)

  /** mark_sector */
  function MarkSector(s: State, k: nat, used: bool): State
    requires s.Sized() && k < |s.data|
  {
    s.(usedSectors := s.usedSectors[k := used], free := if used then (s.free + 255) % 256 else (s.free + 1) % 256)
  }

  /** Store a sector number in the current slot of the current entry. */
  function StoreNumber(s: State, fh: Handle, k: byte): Stepped
    requires s.Sized() && fh.curEntry as int < |s.dir| && fh.sindex < 30 && k as int < |s.data|
  {
    var m := MarkSector(s, k, true);
    Stepped(m.(dir := m.dir[fh.curEntry := m.dir[fh.curEntry][fh.sindex := k]]), fh, Ok)
  }

  /** The allocating part of eepromfs_write. */
  function Extend(s: State, fh: Handle): Stepped
    requires s.Sized() && fh.curEntry as int < |s.dir| && fh.sector as int < |s.data|
  {
    var k := NextFree(s.usedSectors, fh.sector, fh.sector);
    if k as int >= |s.data| then Stepped(s, fh, DiskFull)
    else
      var index := (fh.sindex + 1) % 256;
      var fh1 := fh.(sector := k, sindex := index);
      if index < MaxSectors(s.dir[fh.curEntry]) then StoreNumber(s, fh1, k)
      else
        var e := NextFree(s.usedEntries, fh.curEntry, fh.curEntry);
        if e as int >= |s.dir| then Stepped(s, fh1, DirFull)
        else
          var dir := s.dir[fh.curEntry := s.dir[fh.curEntry][NEXT := e]];
          StoreNumber(s.(dir := dir[e := FreshList()], usedEntries := s.usedEntries[e := true]),
                      fh1.(curEntry := e, sindex := 0), k)
  }

  function Min(a: nat, b: nat): nat {
    if a < b then a else b
  }

  /** Bytes that replace a part of a sector. */
  function Patch(sector: Sector, at: nat, bytes: seq<byte>): Sector
    requires at + |bytes| <= SECTOR_SIZE
  {
    sector[..at] + bytes + sector[at + |bytes|..]
  }

  /** The storing part of eepromfs_write. */
  function Store(s: State, fh: Handle, bytes: seq<byte>): Stepped
    requires s.Sized() && fh.sector as int < |s.data| && fh.soffset + |bytes| <= SECTOR_SIZE
  {
    Stepped(s.(data := s.data[fh.sector := Patch(s.data[fh.sector], fh.soffset, bytes)]),
            fh.(size := fh.size + |bytes|, offset := fh.offset + |bytes|, soffset := (fh.soffset + |bytes|) % SECTOR_SIZE), Ok)
  }

  datatype Written = Written(s: State, fh: Handle, count: nat, error: Error)

  /** A handle that points into the file system. */
  predicate Usable(s: State, fh: Handle) {
    && s.Sized() && fh.curEntry as int < |s.dir| && fh.sector as int < |s.data| && fh.soffset < SECTOR_SIZE
    && fh.entry as int < |s.dir|
  }

  lemma ExtendUsable(s: State, fh: Handle)
    requires Usable(s, fh)
    ensures Extend(s, fh).s.Sized() && |Extend(s, fh).s.dir| == |s.dir| && |Extend(s, fh).s.data| == |s.data|
    ensures Usable(Extend(s, fh).s, Extend(s, fh).fh) && Extend(s, fh).fh.soffset == fh.soffset
    ensures Extend(s, fh).fh.entry == fh.entry && Extend(s, fh).fh.mode == fh.mode
  {}

  /** The loop of eepromfs_write. */
  function WriteLoop(s: State, fh: Handle, bytes: seq<byte>, count: nat): (r: Written)
    requires Usable(s, fh)
    ensures Usable(r.s, r.fh) && r.fh.entry == fh.entry && r.fh.mode == fh.mode && |r.s.dir| == |s.dir| && |r.s.data| == |s.data|
    decreases |bytes|
  {
    if bytes == [] then Written(s, fh, count, Ok)
    else
      ExtendUsable(s, fh);
      var x := if fh.soffset == 0 then Extend(s, fh) else Stepped(s, fh, Ok);
      if x.error != Ok then Written(x.s, x.fh, count, x.error)
      else
        var n := Min(|bytes|, SECTOR_SIZE - x.fh.soffset);
        var y := Store(x.s, x.fh, bytes[..n]);
        WriteLoop(y.s, y.fh, bytes[n..], count + n)
  }

  /** eepromfs_write */
  function Write(s: State, fh: Handle, bytes: seq<byte>): (r: Written)
    requires Usable(s, fh)
    ensures Usable(r.s, r.fh) && r.fh.entry == fh.entry && r.fh.mode == fh.mode && |r.s.dir| == |s.dir| && |r.s.data| == |s.data|
  {
    if fh.mode != WriteMode then Written(s, fh, 0, Invalid) else WriteLoop(s, fh, bytes, 0)
  }

  /** eepromfs_close */
  function Close(s: State, fh: Handle): State
    requires fh.entry as int < |s.dir|
  {
    if fh.mode == ReadMode then s else s.(dir := s.dir[fh.entry := WithSize(s.dir[fh.entry], fh.size)])
  }

  // ---- Reading ----------------------------------------------------------------------------

  datatype ReadResult = Bytes(fh: Handle, bytes: seq<byte>) | Refused | AssertionFailed

  datatype Position = At(fh: Handle) | Lost

  /** Moving to the next sector; Lost where the source's assertions fail. */
  function NextSector(s: State, fh: Handle): Position
    requires s.Sized() && fh.curEntry as int < |s.dir|
  {
    var index := (fh.sindex + 1) % 256;
    if index < MaxSectors(s.dir[fh.curEntry]) then
      var k := s.dir[fh.curEntry][index];
      if k == FREE then Lost else At(fh.(sindex := index, sector := k))
    else
      var e := s.dir[fh.curEntry][NEXT];
      if e == NONE || e as int >= |s.dir| || s.dir[e][0] == FREE then Lost
      else At(fh.(sindex := 0, curEntry := e, sector := s.dir[e][0]))
  }

  /** The loop of eepromfs_read. */
  function ReadLoop(s: State, fh: Handle, length: nat, got: seq<byte>): ReadResult
    requires s.Sized() && fh.curEntry as int < |s.dir| && fh.soffset < SECTOR_SIZE
    decreases length
  {
    if length == 0 then Bytes(fh, got)
    else if fh.sector as int >= |s.data| then AssertionFailed
    else
      var n := Min(length, SECTOR_SIZE - fh.soffset);
      var got1 := got + s.data[fh.sector][fh.soffset..fh.soffset + n];
      var fh1 := fh.(offset := fh.offset + n, soffset := (fh.soffset + n) % SECTOR_SIZE);
      if fh1.offset != fh1.size && fh1.soffset == 0 then
        var p := NextSector(s, fh1);
        if p == Lost then AssertionFailed else ReadLoop(s, p.fh, length - n, got1)
      else ReadLoop(s, fh1, length - n, got1)
  }

  /** eepromfs_read */
  function Read(s: State, fh: Handle, length: nat): ReadResult
    requires s.Sized() && fh.curEntry as int < |s.dir| && fh.soffset < SECTOR_SIZE && fh.offset <= fh.size
  {
    if fh.mode != ReadMode then Refused else ReadLoop(s, fh, Min(length, fh.size - fh.offset), [])
  }

  // ---- Rename, delete -------------------------------------------------------------------------

  datatype Result = Result(s: State, error: Error)

  /** eepromfs_rename */
  function Rename(s: State, old_: Name, new_: Name): Result
    requires s.Sized()
  {
    if Find(s.dir, new_) != NONE then Result(s, FileExists)
    else
      var e := Find(s.dir, old_);
      if e as int >= |s.dir| then Result(s, FileNotFound)
      else Result(s.(dir := s.dir[e := WithName(s.dir[e], new_)]), Ok)
  }

  /** Free the sectors of an entry, up to its first free slot. */
  function FreeSlots(s: State, e: Entry, i: nat): (r: State)
    requires s.Sized() && i <= MaxSectors(e)
    ensures r.Sized() && r.dir == s.dir && r.data == s.data && r.usedEntries == s.usedEntries
    decreases MaxSectors(e) - i
  {
    if i == MaxSectors(e) || e[i] as int >= |s.data| then s
    else FreeSlots(MarkSector(s, e[i], false), e, i + 1)
  }

  /** The loop of eepromfs_delete; every round erases an entry that still had a successor or is the
      last one. */
  function DeleteChain(s: State, e: byte, links: nat): (r: State)
    requires s.Sized() && e as int < |s.dir|
    ensures r.Sized() && |r.dir| == |s.dir| && |r.data| == |s.data|
    decreases links
  {
    var next := s.dir[e][NEXT];
    var f := FreeSlots(s, s.dir[e], 0);
    var g := f.(dir := f.dir[e := Erased()]);
    if next == NONE || next as int >= |s.dir| || links == 0 then g else DeleteChain(g, next, links - 1)
  }

  /** eepromfs_delete */
  function Delete(s: State, name: Name): Result
    requires s.Sized()
  {
    var e := Find(s.dir, name);
    if e as int >= |s.dir| then Result(s, FileNotFound) else Result(DeleteChain(s, e, |s.dir|), Ok)
  }

  // ---- Mounting, formatting ----------------------------------------------------------------------

  function MarkSlots(s: State, e: Entry, j: nat): (r: State)
    requires s.Sized() && j <= MaxSectors(e)
    ensures r.Sized() && r.dir == s.dir && r.data == s.data && r.usedEntries == s.usedEntries
    decreases MaxSectors(e) - j
  {
    if j == MaxSectors(e) then s
    else MarkSlots(if e[j] as int >= |s.data| then s else MarkSector(s, e[j], true), e, j + 1)
  }

  function InitFrom(s: State, i: nat): (r: State)
    requires s.Sized() && i <= |s.dir|
    ensures r.Sized() && r.dir == s.dir && r.data == s.data
    decreases |s.dir| - i
  {
    if i == |s.dir| then s
    else if !Live(s.dir[i]) then InitFrom(s, i + 1)
    else InitFrom(MarkSlots(s.(usedEntries := s.usedEntries[i := true]), s.dir[i], 0), i + 1)
  }

  /** eepromfs_init */
  function Init(dir: seq<Entry>, data: seq<Sector>): (r: State)
    requires 1 <= |dir| <= 255 && 1 <= |data| <= 255
    ensures r.Sized() && r.dir == dir && r.data == data
  {
    InitFrom(State(dir, data, seq(|data|, _ => false), seq(|dir|, _ => false), |data|), 0)
  }

  /** eepromfs_format */
  function Format(entries: nat, sectors: nat): State
    requires 1 <= entries <= 255 && 1 <= sectors <= 255
  {
    Init(seq(entries, _ => Erased()), seq(sectors, _ => seq(64, _ => 255)))
  }
}
