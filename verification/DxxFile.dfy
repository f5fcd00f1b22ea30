/** Files in a Dxx image, written through the listen path, read through the talk path and deleted
    (src/d64ops.c, with the byte handling of src/iec.c). */
module DxxFile {
  import opened Bits
  import BusBuffer
  import opened Geometry
  import opened BamLayout
  import opened Bam
  import opened SectorSearch
  import opened DxxChain
  import opened DxxRoom
  import opened DxxSteps
  import opened FreeSpace

  /** What the channel sees of a buffer flush. A full DNP image sets no error (reported is false). */
  datatype Outcome = Done | DiskFull(reported: bool)

  /** Value of an unsigned 16-bit variable after storing n in it. */
  function Word(n: nat): nat {
    n % 0x10000
  }

  // ---- Directory entries -----------------------------------------------------------

  const TYPE := 2
  const TRACK := 3
  const SECTOR := 4
  const NAME := 5
  const YEAR := 25
  const SIZE_LOW := 30
  const SIZE_HI := 31

  type Stamp = s: seq<byte> | |s| == 5 witness [82, 8, 31, 0, 0]

  function EntryByte(dir: Block, entry: nat, i: nat): byte
    requires entry < 8 && i < 32
  {
    dir[32 * entry + i]
  }

  function PutEntry(dir: Block, entry: nat, bytes: seq<byte>): (r: Block)
    requires entry < 8 && |bytes| == 32
    ensures r[32 * entry..32 * entry + 32] == bytes
    ensures forall i :: 0 <= i < 256 && !(32 * entry <= i < 32 * entry + 32) ==> r[i] == dir[i]
  {
    dir[..32 * entry] + bytes + dir[32 * entry + 32..]
  }

  /** The entry as d64_open_write builds it: link bytes kept, name padded with 0xa0. */
  function NewEntry(dir: Block, entry: nat, fileType: byte, t: byte, s: byte, name: seq<byte>, stamp: Stamp): (r: seq<byte>)
    requires entry < 8 && |name| <= 16
    ensures |r| == 32
  {
    [EntryByte(dir, entry, 0), EntryByte(dir, entry, 1), fileType, t, s]
    + name + seq(16 - |name|, _ => 0xa0) + [0, 0, 0, 0] + stamp + [0, 0]
  }

  /** The entry as d64_write_cleanup leaves it: closed flag, block count and time stamp. */
  function ClosedEntry(dir: Block, entry: nat, blocks: nat, stamp: Stamp): (r: seq<byte>)
    requires entry < 8
    ensures |r| == 32
  {
    var e := dir[32 * entry..32 * entry + 32];
    e[..TYPE] + [SetBit8(e[TYPE], 7)] + e[TRACK..YEAR] + stamp + [blocks % 256, blocks / 256 % 256]
  }

  /** Number of chain sectors that d64_freeblocks would report if they were free. */
  function Unreserved(kind: Kind, chain: seq<Ts>): nat {
    if chain == [] then 0 else
      var last := chain[|chain| - 1];
      Unreserved(kind, chain[..|chain| - 1]) + (if Reserved(kind, last.track, last.sector) then 0 else 1)
  }

  /** The directory sector is the same outside one entry. */
  ghost predicate OnlyEntryChanged(d: Disk, e: Disk, dir: Ts, entry: nat) {
    && dir in d.blocks && dir in e.blocks
    && forall i :: 0 <= i < 256 && !(32 * entry <= i < 32 * entry + 32) ==> e.blocks[dir][i] == d.blocks[dir][i]
  }

  /** All sectors of the file but the last are on the disk. */
  ghost predicate Growing(d: Disk, dir: Ts, chain: seq<Ts>, bodies: seq<seq<byte>>) {
    Protected(d, dir) && Owned(d, chain, dir) && Stored(d, chain, bodies)
  }

  /** Nothing but the BAM, one directory entry and the chain has changed; every sector in use is still
      in use; the sectors the chain has gained were free; and the disk has as many free blocks less as
      the chain has grown. */
  ghost predicate Framed(before: Disk, d: Disk, dir: Ts, entry: nat, chain: seq<Ts>, given: nat) {
    && d.(blocks := map[]) == before.(blocks := map[]) && given <= |chain|
    && (forall ts :: ts in d.blocks && !IsBam(d.kind, ts) && ts != dir && ts !in chain ==> d.blocks[ts] == before.blocks[ts])
    && (forall ts :: Taken(before, ts) ==> Taken(d, ts))
    && (forall k :: given <= k < |chain| ==> chain[k].track <= d.lastBamTrack && !Taken(before, chain[k]))
    && OnlyEntryChanged(before, d, dir, entry)
    && FreeBlocksOf(before) == FreeBlocksOf(d) + Unreserved(d.kind, chain[given..])
  }

  /** The fields of buffer_t and of its d64 handle that writing uses. */
  datatype Buffer = Buffer(data: Block, position: byte, lastused: byte, mustflush: bool,
                           track: byte, sector: byte, blocks: nat)

  /** The file so far: its sectors, the contents of the full ones and of the one in the buffer. */
  datatype Log = Log(chain: seq<Ts>, bodies: seq<seq<byte>>, tail: seq<byte>)
  {
    function Contents(): seq<byte> {
      Flatten(bodies) + tail
    }
  }

  /** Where the file is entered; the image, the number of sectors and the number in the entry when it was
      opened. */
  datatype Place = Place(dir: Ts, entry: nat, before: Disk, given: nat, count: nat)

  /** The number for the entry when the file has n sectors: whatever it was, and the new ones, in 16 bits. */
  function BlockCount(p: Place, n: nat): nat
    requires p.given <= n + 1
  {
    Word(p.count + 0x10000 + n - p.given)
  }

  lemma BlockCountStep(p: Place, n: nat)
    requires p.given <= n + 1
    ensures Word(BlockCount(p, n) + 1) == BlockCount(p, n + 1)
  {}

  /** The image part of the invariant. */
  ghost predicate Linked(p: Place, d: Disk, b: Buffer, log: Log) {
    && p.entry < 8 && Growing(d, p.dir, log.chain, log.bodies)
    && log.chain[|log.bodies|] == Ts(b.track, b.sector)
    && p.given <= |log.bodies| + 1 && b.blocks == BlockCount(p, |log.bodies|)
    && Framed(p.before, d, p.dir, p.entry, log.chain, p.given)
  }

  /** The buffer holds the tail of the file, and position tells how long it is. */
  ghost predicate Buffered(b: Buffer, tail: seq<byte>) {
    BusBuffer.Holding(b.data, b.position, b.lastused, tail)
  }

  lemma BufferedPayload(b: Buffer, tail: seq<byte>)
    ensures Buffered(b, tail) <==>
              && |tail| <= 254 && Payload(b.data)[..|tail|] == tail
              && b.position == (if |tail| == 254 then 0 else |tail| + 2) && (|tail| > 0 ==> b.lastused == |tail| + 1)
  {}

  /** Between two bytes: a full buffer waits to be flushed, and an empty one belongs to a new file that
      would hold a single carriage return, or was the empty last sector of an old one. */
  ghost predicate Ready(b: Buffer, log: Log) {
    && Buffered(b, log.tail) && (b.mustflush <==> b.position == 0)
    && (log.tail == [] ==> if b.lastused == 2 then log.bodies == [] && b.data[2] == 13 else b.lastused == 1)
  }

  /** What the last sector holds when the file is closed now. */
  function Closing(b: Buffer, tail: seq<byte>): seq<byte> {
    if tail == [] && b.lastused == 2 then [13] else tail
  }

  /** The last sector tells the position of its last byte; 0 would say that it ends before its own link. */
  ghost predicate Exact(d: Disk, log: Log) {
    && |log.chain| == |log.bodies| + 1 && log.chain[|log.bodies|] in d.blocks
    && d.blocks[log.chain[|log.bodies|]][1] as int == |log.tail| + 1
  }

  /** What a complete file leaves behind: the disk holds it, and only it has changed. */
  ghost predicate Complete(p: Place, d: Disk, log: Log) {
    && Protected(d, p.dir) && Owned(d, log.chain, p.dir) && IsFile(d, log.chain, log.bodies, log.tail) && Exact(d, log)
    && p.entry < 8 && Framed(p.before, d, p.dir, p.entry, log.chain, p.given)
  }

  /** The number of sectors that an entry tells. */
  function EntryBlocks(dir: Block, entry: nat): nat
    requires entry < 8
  {
    EntryByte(dir, entry, SIZE_LOW) + 256 * EntryByte(dir, entry, SIZE_HI)
  }

  /** The entry points to the first sector. */
  predicate PointsTo(dir: Block, entry: nat, ts: Ts)
    requires entry < 8
  {
    EntryByte(dir, entry, TRACK) == ts.track && EntryByte(dir, entry, SECTOR) == ts.sector
  }

  /** A complete file with its directory entry. */
  ghost predicate Listed(d: Disk, dir: Ts, entry: nat, log: Log) {
    && Protected(d, dir) && Owned(d, log.chain, dir) && IsFile(d, log.chain, log.bodies, log.tail) && entry < 8
    && PointsTo(d.blocks[dir], entry, log.chain[0])
  }

  ghost predicate Appendable(d: Disk, dir: Ts, entry: nat, log: Log) {
    Listed(d, dir, entry, log) && Exact(d, log)
  }

  /** The directory sector after update_timestamp of one entry. */
  function StampedBlock(dir: Block, entry: nat, stamp: Stamp): Block
    requires entry < 8
  {
    dir[32 * entry + YEAR := stamp[0]][32 * entry + YEAR + 1 := stamp[1]][32 * entry + YEAR + 2 := stamp[2]]
       [32 * entry + YEAR + 3 := stamp[3]][32 * entry + YEAR + 4 := stamp[4]]
  }

  lemma AppendStart(d: Disk, dir: Ts, entry: nat, log: Log, data: Block)
    requires Appendable(d, dir, entry, log) && data == d.blocks[log.chain[|log.bodies|]]
    ensures Protected(d, dir) && entry < 8 && dir in d.blocks
    ensures |log.tail| <= 254 && data[1] == |log.tail| + 1 && Payload(data)[..|log.tail|] == log.tail
    ensures |log.chain| == |log.bodies| + 1
  {
    hide CountersMatch, IsFree, Owned, IsBam;
  }

  /** write_entry with the new time stamp */
  method StampEntry(d: Disk, dir: Ts, entry: nat, stamp: Stamp, ghost log: Log) returns (e: Disk, steps: seq<Step>)
    requires Appendable(d, dir, entry, log)
    ensures Growing(e, dir, log.chain, log.bodies) && Framed(d, e, dir, entry, log.chain, |log.chain|)
    ensures dir in d.blocks && entry < 8 && dir in e.blocks && e.blocks[dir] == StampedBlock(d.blocks[dir], entry, stamp)
    ensures SameRoom(d, e) && Leads(d, steps, e)
  {
    hide CountersMatch, FreeBlocksOf, IsFree, StampedBlock, IsBam, Leads;
    var block := StampedBlock(d.blocks[dir], entry, stamp);
    e, steps := WriteDirectory(d, dir, entry, block[32 * entry..32 * entry + 32]);
    StampedAgrees(d.blocks[dir], e.blocks[dir], entry, stamp);
    assert log.chain[|log.chain|..] == [];
    forall k | 0 <= k < |log.bodies| ensures FullSector(e, log.chain[k], log.chain[k + 1], log.bodies[k]) {
      assert FullSector(d, log.chain[k], log.chain[k + 1], log.bodies[k]);
    }
  }

  lemma StampedAgrees(block: Block, after: Block, entry: nat, stamp: Stamp)
    requires entry < 8 && after[32 * entry..32 * entry + 32] == StampedBlock(block, entry, stamp)[32 * entry..32 * entry + 32]
    requires forall i :: 0 <= i < 256 && !(32 * entry <= i < 32 * entry + 32) ==> after[i] == block[i]
    ensures after == StampedBlock(block, entry, stamp)
  {
    var want := StampedBlock(block, entry, stamp);
    forall i | 0 <= i < 256 ensures after[i] == want[i] {
      if 32 * entry <= i < 32 * entry + 32 {
        assert after[i] == after[32 * entry..32 * entry + 32][i - 32 * entry];
        assert want[i] == want[32 * entry..32 * entry + 32][i - 32 * entry];
      }
    }
  }

  class Writer {
    var d: Disk
    var buf: Buffer
    var steps: seq<Step>  // what has been done to the image since the file was opened
    ghost var log: Log
    ghost const place: Place
    const dir: Ts
    const entry: nat

    ghost predicate Valid()
      reads this
    {
      && place.dir == dir && place.entry == entry && Linked(place, d, buf, log) && Ready(buf, log)
      && Leads(place.before, steps, d)
    }

    /** The end of d64_open_write for a new file: the first sector has been chosen. */
    constructor Create(d: Disk, dir: Ts, entry: nat, t: byte, s: byte, fileType: byte, name: seq<byte>,
                       stamp: Stamp, data: Block)
      requires Protected(d, dir) && entry < 8 && |name| <= 16
      requires Mapped(d, t, s) && IsFree(d, t, s)
      ensures Valid() && place == Place(dir, entry, d, 0, 0) && log == Log([Ts(t, s)], [], []) && log.Contents() == []
      ensures dir in d.blocks && dir in this.d.blocks && this.dir == dir && this.entry == entry
      ensures this.d.blocks[dir][32 * entry..32 * entry + 32] == NewEntry(d.blocks[dir], entry, fileType, t, s, name, stamp)
      ensures SectorTaken(d, this.d, t) && buf.track == t && !buf.mustflush && buf.lastused == 2
    {
      hide SectorTaken, Growing, Framed, IsFree, NewEntry, Payload, CountersMatch, IsBam, Leads;
      var written := NewEntry(d.blocks[dir], entry, fileType, t, s, name, stamp);
      var e, entered := EnterFile(d, dir, entry, t, s, written);
      var prepared := Prepare(data);
      this.d, this.dir, this.entry, steps := e, dir, entry, entered;
      buf := Buffer(prepared, 2, 2, false, t, s, 0);
      log, place := Log([Ts(t, s)], [], []), Place(dir, entry, d, 0, 0);
    }

    /** The append half of d64_open_write: the last sector of the file is in the buffer, and writing
        goes on behind its last byte. The time stamp of the entry is renewed at once. */
    constructor Append(d: Disk, dir: Ts, entry: nat, stamp: Stamp, t: byte, s: byte, data: Block, ghost log: Log)
      requires Appendable(d, dir, entry, log) && log.chain[|log.bodies|] == Ts(t, s) && data == d.blocks[Ts(t, s)]
      ensures entry < 8 && dir in d.blocks && Valid() && this.log == log
      ensures place == Place(dir, entry, d, |log.chain|, EntryBlocks(d.blocks[dir], entry))
      ensures SameRoom(d, this.d) && buf.track == t && (log.tail == [] ==> buf.lastused == 1)
      ensures this.dir == dir && this.entry == entry && dir in d.blocks && dir in this.d.blocks
      ensures this.d.blocks[dir] == StampedBlock(d.blocks[dir], entry, stamp)
    {
      hide Appendable, Growing, Framed, Payload, Protected, StampedBlock, SameRoom, Leads;
      AppendStart(d, dir, entry, log, data);
      var e, stamped := StampEntry(d, dir, entry, stamp, log);
      this.d, this.dir, this.entry, steps := e, dir, entry, stamped;
      var lastused := data[1];
      var position: byte := if lastused == 255 then 0 else lastused + 1;
      var size := EntryBlocks(d.blocks[dir], entry);
      buf := Buffer(data, position, lastused, position == 0, t, s, Word(size + 0xffff));
      this.log, place := log, Place(dir, entry, d, |log.chain|, size);
      BufferedPayload(Buffer(data, position, lastused, position == 0, t, s, Word(size + 0xffff)), log.tail);
    }

    /** d64_write, called when the buffer is full. Either the sector is written with a link to a newly
        allocated one, or it is written as the last sector of a complete file and the channel is
        closed. A full DNP image is the exception: no error is set and the channel stays open, with
        track 0 as its current track. */
    method Refill() returns (outcome: Outcome)
      requires place.dir == dir && place.entry == entry && Linked(place, d, buf, log)
      requires Buffered(buf, log.tail) && |log.tail| == 254 && NextSearchEnds(d, buf.track) && Leads(place.before, steps, d)
      modifies this
      ensures log.Contents() == old(log.Contents()) && Leads(place.before, steps, d)
      ensures outcome == Done ==> Linked(place, d, buf, log) && Buffered(buf, log.tail) && log.tail == [] && !buf.mustflush && buf.lastused == 1
      ensures outcome == Done ==> log.chain == old(log.chain) + [Ts(buf.track, buf.sector)]
      ensures outcome == Done ==> SectorTaken(old(d), d, buf.track) && NextFound(old(d), old(buf.track), buf.track)
      ensures dir in old(d).blocks && dir in d.blocks && d.blocks[dir] == old(d).blocks[dir]
      ensures outcome.DiskFull? ==> log == old(log) && Complete(place, d, log) && buf.track == 0
      ensures outcome.DiskFull? ==> (outcome.reported <==> d.kind != DNP)
      ensures outcome.DiskFull? ==> forall t: byte :: NextSearched(old(d), old(buf.track), t) ==> FreeSectors(old(d), t) == 0
    {
      hide SectorTaken, Growing, Framed, Complete, FreeSectors, NextSearched, IsFree, CountersMatch, Payload, Flatten, BlockCount, NextSearchEnds,
           Leads;
      StandsOnDisk(place, d, buf, log);
      var found, t, s := GetNextSector(d, buf.track, buf.sector);
      var more;
      if found {
        d, buf, more, log := Advance(place, d, dir, entry, buf, log, t, s);
        outcome := Done;
      } else {
        d, buf, more := Terminate(place, d, dir, entry, buf, log, s);
        outcome := DiskFull(d.kind != DNP);
      }
      LeadsOn(place.before, steps, old(d), more, d);
      steps := steps + more;
    }

    /** A byte arrives in iec_listen_handler: flush a full buffer first, then store the byte. */
    method Listen(c: byte) returns (outcome: Outcome)
      requires Valid() && (buf.mustflush ==> NextSearchEnds(d, buf.track))
      modifies this
      ensures outcome == Done ==> Valid() && log.Contents() == old(log.Contents()) + [c] && log.tail != []
      ensures outcome == Done ==> log.chain == if old(buf.mustflush) then old(log.chain) + [Ts(buf.track, buf.sector)] else old(log.chain)
      ensures outcome == Done && old(buf.mustflush) ==> SectorTaken(old(d), d, buf.track) && NextFound(old(d), old(buf.track), buf.track)
      ensures outcome == Done && !old(buf.mustflush) ==> d == old(d) && buf.track == old(buf.track)
      ensures dir in old(d).blocks && dir in d.blocks && d.blocks[dir] == old(d).blocks[dir]
      ensures outcome.DiskFull? ==> old(buf.mustflush) && log == old(log) && Complete(place, d, log) && buf.track == 0
      ensures Leads(place.before, steps, d)
      ensures outcome.DiskFull? ==> (outcome.reported <==> d.kind != DNP)
      ensures outcome.DiskFull? ==> forall t: byte :: NextSearched(old(d), old(buf.track), t) ==> FreeSectors(old(d), t) == 0
    {
      hide Growing, Framed, Complete, Payload, Flatten, IsFree, FreeSectors, NextSearched, SectorTaken, NextFound, NextSearchEnds, Leads;
      outcome := Done;
      DirectoryPresent(place, d, buf, log);
      if buf.mustflush {
        outcome := Refill();
        if outcome != Done {
          return;
        }
      }
      ghost var tail := log.tail;
      buf := StoreByte(buf, tail, c);
      log := log.(tail := tail + [c]);
      assert Flatten(log.bodies) + (tail + [c]) == (Flatten(log.bodies) + tail) + [c];
    }

    /** d64_write_cleanup: write the last sector and close the directory entry. A new file nothing was
        written to holds a carriage return. */
    method Close(stamp: Stamp)
      requires Valid()
      modifies this
      ensures Complete(place, d, log) && log == old(log).(tail := Closing(old(buf), old(log.tail))) && Leads(place.before, steps, d)
      ensures dir in old(d).blocks && dir in d.blocks && entry < 8 && place.given <= |log.chain| + 1
      ensures d.blocks[dir][32 * entry..32 * entry + 32]
           == ClosedEntry(old(d).blocks[dir], entry, BlockCount(place, |log.chain|), stamp)
    {
      hide Growing, Framed, Complete, Flatten, IsFree, ClosedEntry, BlockCount, Payload, Leads;
      DirectoryPresent(place, d, buf, log);
      var more;
      d, buf, more, log := CloseFile(place, d, dir, entry, buf, log, stamp);
      LeadsOn(place.before, steps, old(d), more, d);
      steps := steps + more;
    }
  }

  lemma DirectoryPresent(p: Place, d: Disk, b: Buffer, log: Log)
    requires Linked(p, d, b, log)
    ensures p.dir in d.blocks && p.entry < 8
  {}

  lemma StandsOnDisk(p: Place, d: Disk, b: Buffer, log: Log)
    requires Linked(p, d, b, log)
    ensures Present(d, b.track, b.sector) && CountersMatch(d) && p.dir in d.blocks
    ensures d.kind == DNP ==> b.track <= d.lastBamTrack
  {
    hide CountersMatch;
  }

  /** A byte goes into the buffer. */
  method StoreByte(b: Buffer, ghost tail: seq<byte>, c: byte) returns (r: Buffer)
    requires Buffered(b, tail) && !b.mustflush && |tail| < 254
    requires tail == [] ==> b.lastused <= 2
    ensures Buffered(r, tail + [c]) && (r.mustflush <==> r.position == 0)
    ensures r.track == b.track && r.sector == b.sector && r.blocks == b.blocks
  {
    hide BusBuffer.Holding;
    var data, position, lastused, mustflush := BusBuffer.StoreByte(b.data, b.position, b.lastused, tail, c);
    r := b.(data := data, lastused := lastused, position := position, mustflush := mustflush);
  }

  method CloseFile(ghost p: Place, d: Disk, dir: Ts, entry: nat, b: Buffer, ghost log: Log, stamp: Stamp)
    returns (e: Disk, c: Buffer, steps: seq<Step>, ghost log2: Log)
    requires p.dir == dir && p.entry == entry && Linked(p, d, b, log) && Ready(b, log)
    ensures Leads(d, steps, e) && Complete(p, e, log2) && log2 == log.(tail := Closing(b, log.tail))
    ensures dir in d.blocks && dir in e.blocks && p.given <= |log.chain| + 1
    ensures e.blocks[dir][32 * entry..32 * entry + 32] == ClosedEntry(d.blocks[dir], entry, BlockCount(p, |log.chain|), stamp)
  {
    hide Growing, Framed, Complete, Flatten, ClosedEntry, BlockCount, Payload, Owned, IsFile, Protected, Leads;
    log2 := log.(tail := Closing(b, log.tail));
    var f, more;
    f, c, steps := LastSectorOut(p, d, dir, entry, b, log, log2.tail);
    e, more := CloseEntry(p, f, dir, entry, log2, ClosedEntry(f.blocks[dir], entry, c.blocks, stamp));
    LeadsOn(d, steps, f, more, e);
    steps := steps + more;
  }

  method LastSectorOut(ghost p: Place, d: Disk, dir: Ts, entry: nat, b: Buffer, ghost log: Log, ghost tail: seq<byte>)
    returns (f: Disk, c: Buffer, steps: seq<Step>)
    requires p.dir == dir && p.entry == entry && Linked(p, d, b, log) && Ready(b, log)
    requires tail == Closing(b, log.tail)
    ensures Complete(p, f, log.(tail := tail)) && p.given <= |log.chain| + 1 && c.blocks == BlockCount(p, |log.chain|)
    ensures Leads(d, steps, f) && entry < 8 && dir in d.blocks && dir in f.blocks && f.blocks[dir] == d.blocks[dir]
  {
    hide Growing, Framed, Complete, Flatten, Word, BlockCount, Payload, Owned, IsFile, Protected, Leads;
    DirectoryPresent(p, d, b, log);
    ClosingTail(p, d, b, log);
    BlockCountStep(p, |log.bodies|);
    var data := WithLink(b.data, 0, b.lastused);
    f, steps := FinishSector(p.before, d, dir, entry, log.chain, log.bodies, p.given, tail, Ts(b.track, b.sector), data);
    SameDirectory(p, d, f, log);
    c := b.(data := data, blocks := Word(b.blocks + 1));
    IsComplete(p, f, log.(tail := tail));
  }

  lemma IsComplete(p: Place, d: Disk, log: Log)
    requires p.entry < 8
    requires Protected(d, p.dir) && Owned(d, log.chain, p.dir) && IsFile(d, log.chain, log.bodies, log.tail) && Exact(d, log)
    requires Framed(p.before, d, p.dir, p.entry, log.chain, p.given)
    ensures Complete(p, d, log)
  {}

  lemma ClosingTail(p: Place, d: Disk, b: Buffer, log: Log)
    requires Linked(p, d, b, log) && Ready(b, log)
    ensures var tail := Closing(b, log.tail);
            |tail| <= 254 && b.lastused == |tail| + 1 && Payload(b.data)[..|tail|] == tail
    ensures |log.chain| == |log.bodies| + 1 && p.given <= |log.bodies| + 1 && b.blocks == BlockCount(p, |log.bodies|)
  {}

  lemma SameDirectory(p: Place, d: Disk, e: Disk, log: Log)
    requires Growing(d, p.dir, log.chain, log.bodies) && p.dir in e.blocks
    requires forall u :: u in d.blocks && u != log.chain[|log.bodies|] ==> u in e.blocks && e.blocks[u] == d.blocks[u]
    ensures e.blocks[p.dir] == d.blocks[p.dir]
  {}

  /** d64_write when there is another sector: link to it and start with an empty buffer. */
  method Advance(ghost p: Place, d: Disk, dir: Ts, entry: nat, b: Buffer, ghost log: Log, t: byte, s: byte)
    returns (e: Disk, c: Buffer, steps: seq<Step>, ghost log2: Log)
    requires p.dir == dir && p.entry == entry && Linked(p, d, b, log) && Buffered(b, log.tail) && |log.tail| == 254
    requires Mapped(d, t, s) && IsFree(d, t, s)
    ensures Leads(d, steps, e) && SectorTaken(d, e, t) && c.track == t
    ensures Linked(p, e, c, log2) && Buffered(c, log2.tail) && log2.tail == [] && !c.mustflush && c.lastused == 1
    ensures log2.Contents() == log.Contents() && log2.chain == log.chain + [Ts(c.track, c.sector)]
    ensures dir in d.blocks && dir in e.blocks && e.blocks[dir] == d.blocks[dir]
  {
    hide Growing, Framed, IsFree, Flatten, Word, BlockCount, Payload, SectorTaken, Leads;
    FlattenAppend(log.bodies, log.tail);
    BlockCountStep(p, |log.bodies|);
    FullBuffer(p, d, b, log);
    var data := WithLink(b.data, t, s);
    e, steps := LinkSector(p.before, d, dir, entry, log.chain, log.bodies, p.given, Ts(b.track, b.sector), t, s, data);
    log2 := Log(log.chain + [Ts(t, s)], log.bodies + [log.tail], []);
    c := Buffer(data, 2, 1, false, t, s, Word(b.blocks + 1));
  }

  lemma FullBuffer(p: Place, d: Disk, b: Buffer, log: Log)
    requires Linked(p, d, b, log) && Buffered(b, log.tail) && |log.tail| == 254
    ensures |log.chain| == |log.bodies| + 1 && Payload(b.data) == log.tail
  {
    assert Payload(b.data)[..254] == Payload(b.data);
  }

  /** d64_write when there is none: the sector becomes the last one of a complete file. */
  method Terminate(ghost p: Place, d: Disk, dir: Ts, entry: nat, b: Buffer, ghost log: Log, s: byte)
    returns (e: Disk, c: Buffer, steps: seq<Step>)
    requires p.dir == dir && p.entry == entry && Linked(p, d, b, log) && Buffered(b, log.tail) && |log.tail| == 254
    ensures Leads(d, steps, e) && Complete(p, e, log) && c.track == 0
    ensures dir in d.blocks && dir in e.blocks && e.blocks[dir] == d.blocks[dir]
  {
    hide Protected, Owned, IsFile, Framed, Payload, Leads;
    DirectoryPresent(p, d, b, log);
    BufferedPayload(b, log.tail);
    var data := WithLink(b.data, 0, b.lastused);
    e, steps := FinishSector(p.before, d, dir, entry, log.chain, log.bodies, p.given, log.tail, Ts(b.track, b.sector), data);
    c := Buffer(data, 2, 1, false, 0, s, Word(b.blocks + 1));
    SameDirectory(p, d, e, log);
  }

  /** The byte a file holds that is closed without anything written to it. */
  method Prepare(buffer: Block) returns (r: Block)
    ensures r[2] == 13
  {
    r := buffer[2 := 13];
  }

  /** allocate_sector on a free sector */
  method TakeSector(d: Disk, dir: Ts, t: byte, s: byte) returns (e: Disk, steps: seq<Step>)
    requires Protected(d, dir) && Mapped(d, t, s) && IsFree(d, t, s)
    ensures Leads(d, steps, e)
    ensures Protected(e, dir) && e.(blocks := map[]) == d.(blocks := map[])
    ensures Taken(e, Ts(t, s)) && !Taken(d, Ts(t, s)) && !IsBam(d.kind, Ts(t, s)) && Ts(t, s) != dir
    ensures forall ts :: Taken(d, ts) ==> Taken(e, ts)
    ensures forall ts :: ts in d.blocks && !IsBam(d.kind, ts) ==> e.blocks[ts] == d.blocks[ts]
    ensures FreeBlocksOf(d) == FreeBlocksOf(e) + if Reserved(d.kind, t, s) then 0 else 1
    ensures SectorTaken(d, e, t)
  {
    hide SectorTaken, Leads;
    e, steps := Allocate(d, t, s), [Take(t, s)];
    LeadsThere(d, Take(t, s));
    AllocateTakesOne(d, t, s);
    AllocateEffect(d, dir, t, s);
    AllocateTakesOneBlock(d, t, s);
  }

  /** Allocate the first sector and write the directory entry. */
  method EnterFile(d: Disk, dir: Ts, entry: nat, t: byte, s: byte, bytes: seq<byte>) returns (e: Disk, steps: seq<Step>)
    requires Protected(d, dir) && entry < 8 && |bytes| == 32
    requires Mapped(d, t, s) && IsFree(d, t, s)
    ensures Growing(e, dir, [Ts(t, s)], []) && Framed(d, e, dir, entry, [Ts(t, s)], 0) && Leads(d, steps, e)
    ensures dir in d.blocks && dir in e.blocks && e.blocks[dir][32 * entry..32 * entry + 32] == bytes && SectorTaken(d, e, t)
  {
    hide SectorTaken, SameRoom, IsFree, FreeBlocksOf, CountersMatch, Leads;
    var a, more;
    a, steps := TakeSector(d, dir, t, s);
    e, more := WriteDirectory(a, dir, entry, bytes);
    LeadsOn(d, steps, a, more, e);
    steps := steps + more;
    TakenThenSame(d, a, e, t);
    UnreservedOne(d.kind, Ts(t, s));
    FirstSectorOnly(d, a, e, dir, entry, Ts(t, s));
    GrowingFromOne(e, dir, Ts(t, s));
  }

  lemma GrowingFromOne(e: Disk, dir: Ts, ts: Ts)
    requires Protected(e, dir) && Taken(e, ts) && !IsBam(e.kind, ts) && ts != dir
    ensures Growing(e, dir, [ts], [])
  {
    hide Taken, Protected, Distinct, IsBam;
    DistinctOne(ts);
  }

  lemma DistinctOne(ts: Ts)
    ensures Distinct([ts])
  {
    DistinctMore([], ts);
    assert [] + [ts] == [ts];
  }

  lemma UnreservedOne(kind: Kind, ts: Ts)
    ensures Unreserved(kind, [ts][0..]) == if Reserved(kind, ts.track, ts.sector) then 0 else 1
  {
    assert [ts][0..] == [ts] && [ts][..0] == [];
  }

  /** write_entry */
  method WriteDirectory(d: Disk, dir: Ts, entry: nat, bytes: seq<byte>) returns (e: Disk, steps: seq<Step>)
    requires Protected(d, dir) && entry < 8 && |bytes| == 32
    ensures Leads(d, steps, e) && Protected(e, dir) && e == WithBlock(d, dir, e.blocks[dir])
    ensures OnlyEntryChanged(d, e, dir, entry) && e.blocks[dir][32 * entry..32 * entry + 32] == bytes
    ensures (forall ts :: Taken(d, ts) <==> Taken(e, ts)) && FreeBlocksOf(e) == FreeBlocksOf(d)
    ensures SameRoom(d, e)
  {
    hide FreeSectors, Leads;
    var block := PutEntry(d.blocks[dir], entry, bytes);
    RewriteSector(d, dir, dir, block);
    RewriteKeepsFreeBlocks(d, dir, block);
    RewriteKeepsRoom(d, dir, block);
    LeadsThere(d, Store(dir, block));
    e, steps := WithBlock(d, dir, block), [Store(dir, block)];
  }

  lemma FirstSectorOnly(d: Disk, a: Disk, e: Disk, dir: Ts, entry: nat, ts: Ts)
    requires Protected(a, dir) && dir in e.blocks && e == WithBlock(a, dir, e.blocks[dir])
    requires d.(blocks := map[]) == a.(blocks := map[])
    requires forall u :: u in d.blocks && !IsBam(d.kind, u) ==> a.blocks[u] == d.blocks[u]
    ensures forall u :: u in d.blocks && !IsBam(d.kind, u) && u != dir && u !in [ts] ==> e.blocks[u] == d.blocks[u]
    ensures OnlyEntryChanged(a, e, dir, entry) ==> OnlyEntryChanged(d, e, dir, entry)
  {}

  lemma UnreservedMore(kind: Kind, chain: seq<Ts>, given: nat, ts: Ts)
    requires given <= |chain|
    ensures Unreserved(kind, (chain + [ts])[given..])
         == Unreserved(kind, chain[given..]) + if Reserved(kind, ts.track, ts.sector) then 0 else 1
  {
    var more := (chain + [ts])[given..];
    assert more == chain[given..] + [ts];
    assert more[..|more| - 1] == chain[given..];
  }

  /** image_write of a sector of the chain */
  method WriteSector(d: Disk, dir: Ts, ts: Ts, block: Block) returns (e: Disk, steps: seq<Step>)
    requires Protected(d, dir) && Taken(d, ts) && !IsBam(d.kind, ts) && ts != dir
    ensures Leads(d, steps, e)
    ensures Protected(e, dir) && e.(blocks := map[]) == d.(blocks := map[])
    ensures e.blocks[ts] == block && forall u :: u in d.blocks && u != ts ==> e.blocks[u] == d.blocks[u]
    ensures (forall u :: Taken(d, u) <==> Taken(e, u)) && FreeBlocksOf(e) == FreeBlocksOf(d)
    ensures SameRoom(d, e)
  {
    hide FreeSectors, Leads;
    RewriteSector(d, dir, ts, block);
    RewriteKeepsFreeBlocks(d, ts, block);
    RewriteKeepsRoom(d, ts, block);
    LeadsThere(d, Store(ts, block));
    e, steps := WithBlock(d, ts, block), [Store(ts, block)];
  }

  /** The disk part of a d64_write that found another sector: the full sector is linked to it. */
  method LinkSector(ghost before: Disk, d: Disk, dir: Ts, entry: nat, ghost chain: seq<Ts>, ghost bodies: seq<seq<byte>>,
                    ghost given: nat, last: Ts, t: byte, s: byte, block: Block) returns (e: Disk, steps: seq<Step>)
    requires Growing(d, dir, chain, bodies) && entry < 8 && Framed(before, d, dir, entry, chain, given)
    requires last == chain[|bodies|] && block[0] == t && block[1] == s
    requires Mapped(d, t, s) && IsFree(d, t, s)
    ensures Growing(e, dir, chain + [Ts(t, s)], bodies + [Payload(block)]) && SectorTaken(d, e, t)
    ensures Framed(before, e, dir, entry, chain + [Ts(t, s)], given) && Leads(d, steps, e)
    ensures dir in d.blocks && dir in e.blocks && e.blocks[dir] == d.blocks[dir]
  {
    hide Growing, Framed, Protected, Taken, IsFree, FreeBlocksOf, Payload, SectorTaken, SameRoom, Leads;
    GrowingParts(d, dir, chain, bodies);
    var a, more;
    a, steps := TakeSector(d, dir, t, s);
    e, more := WriteSector(a, dir, last, block);
    LeadsOn(d, steps, a, more, e);
    steps := steps + more;
    TakenThenSame(d, a, e, t);
    LinkedOn(d, e, dir, chain, bodies, Ts(t, s), block);
    FramedOn(before, d, e, dir, entry, chain, given, Ts(t, s), |bodies|);
  }

  lemma GrowingParts(d: Disk, dir: Ts, chain: seq<Ts>, bodies: seq<seq<byte>>)
    requires Growing(d, dir, chain, bodies)
    ensures Protected(d, dir) && |chain| == |bodies| + 1 && dir in d.blocks && !IsBam(d.kind, dir)
    ensures Taken(d, chain[|bodies|]) && !IsBam(d.kind, chain[|bodies|]) && chain[|bodies|] != dir
  {}

  lemma FramedOn(before: Disk, d: Disk, e: Disk, dir: Ts, entry: nat, chain: seq<Ts>, given: nat, next: Ts, n: nat)
    requires Framed(before, d, dir, entry, chain, given) && d.(blocks := map[]) == e.(blocks := map[]) && n < |chain|
    requires next.track <= d.lastBamTrack && !Taken(d, next) && !IsBam(d.kind, dir) && chain[n] != dir
    requires forall ts :: Taken(d, ts) ==> Taken(e, ts)
    requires forall ts :: ts in d.blocks && !IsBam(d.kind, ts) && ts != chain[n] ==> ts in e.blocks && e.blocks[ts] == d.blocks[ts]
    requires FreeBlocksOf(d) == FreeBlocksOf(e) + if Reserved(d.kind, next.track, next.sector) then 0 else 1
    ensures Framed(before, e, dir, entry, chain + [next], given)
  {
    hide Taken, IsFree, FreeBlocksOf, IsBam, Reserved;
    UnreservedMore(d.kind, chain, given, next);
  }

  lemma LinkedOn(d: Disk, e: Disk, dir: Ts, chain: seq<Ts>, bodies: seq<seq<byte>>, next: Ts, block: Block)
    requires Growing(d, dir, chain, bodies) && Protected(e, dir) && d.(blocks := map[]) == e.(blocks := map[])
    requires Taken(e, next) && !Taken(d, next) && !IsBam(d.kind, next) && next != dir
    requires forall ts :: Taken(d, ts) ==> Taken(e, ts)
    requires forall ts :: ts in d.blocks && !IsBam(d.kind, ts) && ts != chain[|bodies|] ==> e.blocks[ts] == d.blocks[ts]
    requires e.blocks[chain[|bodies|]] == block && block[0] == next.track && block[1] == next.sector
    ensures Growing(e, dir, chain + [next], bodies + [Payload(block)])
  {
    StoredOn(d, e, dir, chain, bodies, next, block);
    OwnedOn(d, e, dir, chain, next);
  }

  lemma OwnedOn(d: Disk, e: Disk, dir: Ts, chain: seq<Ts>, next: Ts)
    requires Owned(d, chain, dir) && d.kind == e.kind
    requires Taken(e, next) && !Taken(d, next) && !IsBam(d.kind, next) && next != dir
    requires forall ts :: Taken(d, ts) ==> Taken(e, ts)
    ensures Owned(e, chain + [next], dir)
  {
    hide Taken, Distinct, IsBam;
    NotTaken(d, chain, next);
    DistinctMore(chain, next);
  }

  lemma NotTaken(d: Disk, chain: seq<Ts>, next: Ts)
    requires !Taken(d, next) && forall k :: 0 <= k < |chain| ==> Taken(d, chain[k])
    ensures next !in chain
  {
    hide Taken;
  }

  lemma StoredOn(d: Disk, e: Disk, dir: Ts, chain: seq<Ts>, bodies: seq<seq<byte>>, next: Ts, block: Block)
    requires Owned(d, chain, dir) && Stored(d, chain, bodies)
    requires forall ts :: ts in d.blocks && !IsBam(d.kind, ts) && ts != chain[|bodies|] ==> ts in e.blocks && e.blocks[ts] == d.blocks[ts]
    requires chain[|bodies|] in e.blocks && e.blocks[chain[|bodies|]] == block
    requires block[0] == next.track && block[1] == next.sector
    ensures Stored(e, chain + [next], bodies + [Payload(block)])
  {
    var chain2, bodies2 := chain + [next], bodies + [Payload(block)];
    forall k | 0 <= k < |bodies2| ensures FullSector(e, chain2[k], chain2[k + 1], bodies2[k]) {
      if k < |bodies| {
        assert FullSector(d, chain[k], chain[k + 1], bodies[k]);
        DistinctAt(chain, k, |bodies|);
      }
    }
  }

  /** The last sector is written out; the file on the disk is complete. */
  method FinishSector(ghost before: Disk, d: Disk, dir: Ts, entry: nat, ghost chain: seq<Ts>, ghost bodies: seq<seq<byte>>,
                      ghost given: nat, ghost tail: seq<byte>, last: Ts, block: Block) returns (e: Disk, steps: seq<Step>)
    requires Growing(d, dir, chain, bodies) && entry < 8 && Framed(before, d, dir, entry, chain, given)
    requires last == chain[|bodies|] && |tail| <= 254 && block[0] == 0 && block[1] as int == |tail| + 1
    requires Payload(block)[..|tail|] == tail
    ensures Protected(e, dir) && Owned(e, chain, dir) && IsFile(e, chain, bodies, tail) && Exact(e, Log(chain, bodies, tail))
    ensures Framed(before, e, dir, entry, chain, given) && Leads(d, steps, e)
    ensures forall u :: u in d.blocks && u != last ==> u in e.blocks && e.blocks[u] == d.blocks[u]
  {
    hide Leads, SameRoom, FreeBlocksOf, CountersMatch, IsFree, Growing, Framed, IsFile, Exact, Protected, Owned, Taken;
    GrowingParts(d, dir, chain, bodies);
    e, steps := WriteSector(d, dir, last, block);
    FinishedFile(d, e, dir, chain, bodies, tail, block);
    FramedSame(before, d, e, dir, entry, chain, given, |bodies|);
  }

  lemma FinishedFile(d: Disk, e: Disk, dir: Ts, chain: seq<Ts>, bodies: seq<seq<byte>>, tail: seq<byte>, block: Block)
    requires Growing(d, dir, chain, bodies) && d.(blocks := map[]) == e.(blocks := map[])
    requires |tail| <= 254 && block[0] == 0 && block[1] as int == |tail| + 1 && Payload(block)[..|tail|] == tail
    requires |chain| == |bodies| + 1 && chain[|bodies|] in e.blocks && e.blocks[chain[|bodies|]] == block
    requires forall u :: u in d.blocks && u != chain[|bodies|] ==> u in e.blocks && e.blocks[u] == d.blocks[u]
    requires forall u :: Taken(d, u) <==> Taken(e, u)
    ensures Owned(e, chain, dir) && IsFile(e, chain, bodies, tail) && Exact(e, Log(chain, bodies, tail))
  {
    hide Taken, Protected, IsBam;
    forall k | 0 <= k < |bodies| ensures FullSector(e, chain[k], chain[k + 1], bodies[k]) {
      assert FullSector(d, chain[k], chain[k + 1], bodies[k]);
      DistinctAt(chain, k, |bodies|);
    }
  }

  lemma FramedSame(before: Disk, d: Disk, e: Disk, dir: Ts, entry: nat, chain: seq<Ts>, given: nat, n: nat)
    requires Framed(before, d, dir, entry, chain, given) && d.(blocks := map[]) == e.(blocks := map[]) && n < |chain| && chain[n] != dir
    requires forall ts :: Taken(d, ts) ==> Taken(e, ts)
    requires forall ts :: ts in d.blocks && ts != chain[n] ==> ts in e.blocks && e.blocks[ts] == d.blocks[ts]
    requires FreeBlocksOf(d) == FreeBlocksOf(e)
    ensures Framed(before, e, dir, entry, chain, given)
  {
    hide Taken, IsFree, FreeBlocksOf, IsBam, Unreserved;
  }

  method WithLink(data: Block, t: byte, s: byte) returns (r: Block)
    ensures r[0] == t && r[1] == s && Payload(r) == Payload(data)
  {
    r := data[0 := t][1 := s];
  }

  /** write_entry on the entry of a complete file */
  method CloseEntry(ghost p: Place, d: Disk, dir: Ts, entry: nat, ghost log: Log, bytes: seq<byte>) returns (e: Disk, steps: seq<Step>)
    requires p.dir == dir && p.entry == entry && Complete(p, d, log) && |bytes| == 32
    ensures Leads(d, steps, e) && Complete(p, e, log) && dir in e.blocks && e.blocks[dir][32 * entry..32 * entry + 32] == bytes
  {
    hide Leads, SameRoom, FreeBlocksOf, CountersMatch, IsFree, Framed, IsFile, Exact, Owned, Taken;
    e, steps := WriteDirectory(d, dir, entry, bytes);
    SameFile(d, e, dir, log);
    FramedEntry(p.before, d, e, dir, entry, log.chain, p.given);
  }

  /** Writing the directory sector leaves the file as it is. */
  lemma SameFile(d: Disk, e: Disk, dir: Ts, log: Log)
    requires Owned(d, log.chain, dir) && IsFile(d, log.chain, log.bodies, log.tail) && Exact(d, log) && e.kind == d.kind
    requires forall u :: u in d.blocks && u != dir ==> u in e.blocks && e.blocks[u] == d.blocks[u]
    requires forall u :: Taken(d, u) <==> Taken(e, u)
    ensures Owned(e, log.chain, dir) && IsFile(e, log.chain, log.bodies, log.tail) && Exact(e, log)
  {
    hide Taken, IsBam;
    forall k | 0 <= k < |log.bodies| ensures FullSector(e, log.chain[k], log.chain[k + 1], log.bodies[k]) {
      assert FullSector(d, log.chain[k], log.chain[k + 1], log.bodies[k]);
    }
  }

  lemma FramedEntry(before: Disk, d: Disk, e: Disk, dir: Ts, entry: nat, chain: seq<Ts>, given: nat)
    requires Framed(before, d, dir, entry, chain, given) && OnlyEntryChanged(d, e, dir, entry) && e == WithBlock(d, dir, e.blocks[dir])
    requires forall ts :: Taken(d, ts) ==> Taken(e, ts)
    requires FreeBlocksOf(d) == FreeBlocksOf(e)
    ensures Framed(before, e, dir, entry, chain, given)
  {
    hide Taken, IsFree, FreeBlocksOf, IsBam, Unreserved;
  }

  lemma RewriteKeepsFreeBlocks(d: Disk, ts: Ts, block: Block)
    requires ts in d.blocks && !IsBam(d.kind, ts)
    ensures FreeBlocksOf(WithBlock(d, ts, block)) == FreeBlocksOf(d)
  {
    WriteKeepsBam(d, ts, block);
    SameBamFreeBlocks(d, WithBlock(d, ts, block), d.lastBamTrack);
  }

  lemma RewriteKeepsRoom(d: Disk, ts: Ts, block: Block)
    requires ts in d.blocks && !IsBam(d.kind, ts) && CountersMatch(d)
    ensures SameRoom(d, WithBlock(d, ts, block))
  {
    WriteKeepsBam(d, ts, block);
    SameBamRoom(d, WithBlock(d, ts, block));
  }

  lemma {:induction false} SameBamReportable(d: Disk, e: Disk, t: byte, n: nat)
    requires SameBam(d, e) && Present(d, t, 0) && n <= SectorsPerTrack(d.kind, t)
    ensures Reportable(d, t, n) == Reportable(e, t, n)
  {
    if n > 0 {
      SameBamReportable(d, e, t, n - 1);
      assert Present(d, t, n - 1);
    }
  }

  lemma {:induction false} SameBamFreeBlocks(d: Disk, e: Disk, t: byte)
    requires SameBam(d, e) && t <= d.lastBamTrack
    ensures ReportableUpTo(d, t) == ReportableUpTo(e, t)
  {
    if t > 0 {
      LastBamTrack(d);
      SameBamFreeBlocks(d, e, t - 1);
      SameBamReportable(d, e, t, SectorsPerTrack(d.kind, t));
    }
  }
}
