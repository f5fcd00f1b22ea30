/** Whole sessions on files of a Dxx image: saving, loading and deleting (src/d64ops.c, src/iec.c). */
module DxxSession {
  import opened Bits
  import BusBuffer
  import opened Geometry
  import opened BamLayout
  import opened Bam
  import opened SectorSearch
  import opened DxxChain
  import opened DxxRoom
  import opened DxxSteps
  import opened DxxFile
  import opened FreeSpace

  // ---- Saving -----------------------------------------------------------------------

  /** Sectors still to be taken when n more bytes arrive. */
  function Needed(log: Log, n: nat): int {
    FileSectors(|log.Contents()| + n) - |log.chain|
  }

  /** A file between two bytes has as many sectors as its bytes need, and one more if the last one of an old
      file is empty; a full buffer means they are full. */
  lemma SectorsSoFar(p: Place, d: Disk, b: Buffer, log: Log)
    requires Linked(p, d, b, log) && Ready(b, log)
    ensures |log.chain| >= FileSectors(|log.Contents()|) && |log.chain| > 0
    ensures log.tail != [] ==> |log.chain| == FileSectors(|log.Contents()|)
    ensures b.mustflush ==> |log.Contents()| == 254 * |log.chain|
  {
    forall k | 0 <= k < |log.bodies| ensures |log.bodies[k]| == 254 {
      assert FullSector(d, log.chain[k], log.chain[k + 1], log.bodies[k]);
    }
    FlattenLength(log.bodies);
  }

  /** How far a LISTEN for every byte has come: as many sectors taken as the chain has gained. */
  ghost predicate Sending(d: Disk, b: Buffer, log: Log, total: nat, before: nat, room: nat) {
    && before <= |log.chain| && |log.chain| + NextRoom(d, b.track) == before + room
    && SearchesEnd(d, b.track, FileSectors(total) - |log.chain|)
  }

  lemma SendingOn(d: Disk, b: Buffer, log: Log, d2: Disk, b2: Buffer, log2: Log, total: nat, before: nat, room: nat)
    requires Sending(d, b, log, total, before, room) && |log2.chain| == |log.chain| + 1
    requires SectorTaken(d, d2, b2.track) && NextFound(d, b.track, b2.track)
    ensures Sending(d2, b2, log2, total, before, room)
  {
    hide NextRoom, SearchesEnd, SectorTaken;
    NextRoomTaken(d, d2, b.track, b2.track);
    SearchesStillEnd(d, d2, b.track, b2.track, FileSectors(total) - |log.chain|);
  }

  /** The next byte can be taken: a search, if there is one, ends. */
  lemma SendingEnds(p: Place, d: Disk, b: Buffer, log: Log, total: nat, before: nat, room: nat)
    requires Linked(p, d, b, log) && Ready(b, log) && Sending(d, b, log, total, before, room) && |log.Contents()| < total
    ensures b.mustflush ==> NextSearchEnds(d, b.track) && |log.Contents()| == 254 * |log.chain| && FileSectors(total) > |log.chain|
  {
    hide Linked, Ready, SearchesEnd, NextSearchEnds;
    SectorsSoFar(p, d, b, log);
    StandsOnDisk(p, d, b, log);
    OnDiskTrack(d, b);
    if b.mustflush {
      NextSearchWillEnd(d, b.track, FileSectors(total) - |log.chain|);
    }
  }

  lemma OnDiskTrack(d: Disk, b: Buffer)
    requires Present(d, b.track, b.sector)
    ensures 1 <= b.track
  {}

  lemma SendingStopped(d: Disk, b: Buffer, log: Log, total: nat, before: nat, room: nat)
    requires Sending(d, b, log, total, before, room) && forall t: byte :: NextSearched(d, b.track, t) ==> FreeSectors(d, t) == 0
    ensures |log.chain| == before + room
  {
    hide SearchesEnd, NextRoom;
    NoNextRoom(d, b.track);
  }

  /** As many bytes as fit into n sectors. */
  predicate CutOff(all: seq<byte>, n: nat, got: seq<byte>) {
    254 * n <= |all| && got == all[..254 * n]
  }

  lemma IsCutOff(before: seq<byte>, bytes: seq<byte>, i: nat, got: seq<byte>, n: nat)
    requires i <= |bytes| && got == before + bytes[..i] && |got| == 254 * n
    ensures CutOff(before + bytes, n, got)
  {
    assert (before + bytes)[..|got|] == got;
  }

  /** A LISTEN for one of the bytes: it is appended, or the searched tracks are full. */
  method SendOne(w: Writer, c: byte, ghost total: nat, ghost start: nat, ghost room: nat) returns (outcome: Outcome)
    requires w.Valid() && Sending(w.d, w.buf, w.log, total, start, room) && |w.log.Contents()| < total
    modifies w
    ensures Leads(w.place.before, w.steps, w.d)
    ensures outcome == Done ==> w.Valid() && Sending(w.d, w.buf, w.log, total, start, room)
    ensures outcome == Done ==> w.log.Contents() == old(w.log.Contents()) + [c] && w.log.tail != []
    ensures outcome.DiskFull? ==> Complete(w.place, w.d, w.log) && (outcome.reported <==> w.d.kind != DNP) && w.log == old(w.log)
    ensures outcome.DiskFull? ==> |w.log.chain| == start + room && |w.log.Contents()| == 254 * |w.log.chain|
    ensures w.dir in w.d.blocks && w.dir in old(w.d.blocks) && w.d.blocks[w.dir] == old(w.d.blocks)[w.dir]
    ensures |w.log.chain| > 0 && |old(w.log.chain)| > 0 && w.log.chain[0] == old(w.log.chain[0])
  {
    hide Complete, Linked, Ready, Log.Contents, IsFree, FreeSectors, NextSearched, NextRoom, SearchesEnd, SectorTaken, NextFound, NextSearchEnds,
         Sending, Leads;
    DirectoryPresent(w.place, w.d, w.buf, w.log);
    SectorsSoFar(w.place, w.d, w.buf, w.log);
    SendingEnds(w.place, w.d, w.buf, w.log, total, start, room);
    ghost var d, buf, log := w.d, w.buf, w.log;
    outcome := w.Listen(c);
    if outcome != Done {
      SendingStopped(d, buf, log, total, start, room);
    } else if buf.mustflush {
      SendingOn(d, buf, log, w.d, w.buf, w.log, total, start, room);
    } else {
      SendingSame(d, buf, log, w.buf, w.log, total, start, room);
    }
  }

  /** A LISTEN for every byte. All arrive if and only if the tracks that the searches look at have the
      sectors for them; otherwise they are full, and the file ends with the byte that filled them. */
  method Send(w: Writer, bytes: seq<byte>) returns (outcome: Outcome)
    requires w.Valid() && SearchesEnd(w.d, w.buf.track, Needed(w.log, |bytes|))
    modifies w
    ensures Leads(w.place.before, w.steps, w.d)
    ensures outcome == Done <==> old(Needed(w.log, |bytes|)) <= old(NextRoom(w.d, w.buf.track))
    ensures outcome == Done ==> w.Valid() && w.log.Contents() == old(w.log.Contents()) + bytes
    ensures outcome == Done ==> if bytes == [] then w.buf == old(w.buf) && w.log == old(w.log) else w.log.tail != []
    ensures outcome.DiskFull? ==> Complete(w.place, w.d, w.log) && (outcome.reported <==> w.d.kind != DNP)
    ensures outcome.DiskFull? ==> CutOff(old(w.log.Contents()) + bytes, |old(w.log.chain)| + old(NextRoom(w.d, w.buf.track)), w.log.Contents())
    ensures w.dir in w.d.blocks && w.dir in old(w.d.blocks) && w.d.blocks[w.dir] == old(w.d.blocks)[w.dir]
    ensures |w.log.chain| > 0 && |old(w.log.chain)| > 0 && w.log.chain[0] == old(w.log.chain[0])
  {
    hide Complete, Linked, Ready, Log.Contents, NextRoom, SearchesEnd, Sending, CutOff, Leads, FileSectors;
    ghost var start, room, total := |w.log.chain|, NextRoom(w.d, w.buf.track), |w.log.Contents()| + |bytes|;
    ghost var d, log := w.d, w.log;
    SendingStarts(w.d, w.buf, w.log, |bytes|);
    SectorsSoFar(w.place, w.d, w.buf, w.log);
    DirectoryPresent(w.place, w.d, w.buf, w.log);
    ByteByByte(log.Contents(), bytes, 0);
    outcome := Done;
    var i := 0;
    while i < |bytes|
      invariant 0 <= i <= |bytes| && w.Valid() && w.log.Contents() == log.Contents() + bytes[..i]
      invariant w.dir in w.d.blocks && w.dir in d.blocks && w.d.blocks[w.dir] == d.blocks[w.dir]
      invariant |w.log.chain| > 0 && w.log.chain[0] == log.chain[0]
      invariant if i == 0 then w.buf == old(w.buf) && w.log == log else w.log.tail != []
      invariant Sending(w.d, w.buf, w.log, total, start, room)
    {
      outcome := SendOne(w, bytes[i], total, start, room);
      if outcome != Done {
        IsCutOff(log.Contents(), bytes, i, w.log.Contents(), start + room);
        StoppedShort(log, bytes, start, room, i, w.log);
        return;
      }
      ByteByByte(log.Contents(), bytes, i);
      i := i + 1;
    }
    SectorsSoFar(w.place, w.d, w.buf, w.log);
    SendingDone(w.d, w.buf, w.log, total, start, room);
    outcome := Done;
  }

  lemma ByteByByte(before: seq<byte>, bytes: seq<byte>, i: nat)
    ensures before + bytes[..0] == before && bytes[..|bytes|] == bytes
    ensures i < |bytes| ==> before + bytes[..i + 1] == (before + bytes[..i]) + [bytes[i]]
  {}

  /** All sectors are full, and there are bytes left. */
  lemma StoppedShort(log: Log, bytes: seq<byte>, start: nat, room: nat, i: nat, now: Log)
    requires i < |bytes| && |now.Contents()| == |log.Contents()| + i == 254 * |now.chain| && |now.chain| == start + room && start == |log.chain|
    ensures Needed(log, |bytes|) > room
  {
    hide Log.Contents;
  }

  lemma SendingStarts(d: Disk, b: Buffer, log: Log, n: nat)
    requires SearchesEnd(d, b.track, Needed(log, n))
    ensures Sending(d, b, log, |log.Contents()| + n, |log.chain|, NextRoom(d, b.track))
  {
    hide SearchesEnd, NextRoom;
  }

  lemma SendingSame(d: Disk, b: Buffer, log: Log, b2: Buffer, log2: Log, total: nat, before: nat, room: nat)
    requires Sending(d, b, log, total, before, room) && log2.chain == log.chain && b2.track == b.track
    ensures Sending(d, b2, log2, total, before, room)
  {
    hide SearchesEnd, NextRoom;
  }

  lemma SendingDone(d: Disk, b: Buffer, log: Log, total: nat, before: nat, room: nat)
    requires Sending(d, b, log, total, before, room) && |log.chain| >= FileSectors(total)
    ensures FileSectors(total) - before <= room
  {
    hide SearchesEnd, NextRoom;
  }

  /** Where a new file goes. */
  datatype Target = Target(dir: Ts, entry: nat, fileType: byte, name: seq<byte>, first: Stamp, last: Stamp)

  ghost predicate Saveable(d: Disk, f: Target, n: nat) {
    Protected(d, f.dir) && f.entry < 8 && |f.name| <= 16 && SaveEnds(d, FileSectors(n))
  }

  /** A successful save: the bytes sent, one sector for every 254 of them, and a closed entry. */
  ghost predicate Saved(e: Disk, f: Target, log: Log, bytes: seq<byte>) {
    && log.Contents() == (if bytes == [] then [13] else bytes) && log.tail != [] && |log.chain| == FileSectors(|bytes|)
    && Entered(e, f, log.chain) && Appendable(e, f.dir, f.entry, log)
  }

  /** A save that filled the disk: as many bytes as there was room for, and an entry that is still open. */
  ghost predicate SavedInPart(d: Disk, e: Disk, f: Target, log: Log, bytes: seq<byte>, room: nat) {
    CutOff(bytes, room, log.Contents()) && LeftOpen(d, e, f, log.chain)
  }

  /** OPEN for writing, a LISTEN for every byte, CLOSE. The save succeeds if and only if the tracks that the
      searches look at have a sector for every 254 bytes begun. A disk that fills up ends the file early but
      leaves it terminated; a full one stays as it is. Everything else on the disk is as before. */
  method Save(d: Disk, f: Target, data: Block, bytes: seq<byte>)
    returns (outcome: Outcome, e: Disk, steps: seq<Step>, ghost log: Log)
    requires Saveable(d, f, |bytes|)
    ensures Leads(d, steps, e)
    ensures outcome == Done <==> FileSectors(|bytes|) <= SaveRoom(d)
    ensures outcome.DiskFull? ==> (outcome.reported <==> d.kind != DNP)
    ensures if SaveRoom(d) == 0 then e == d else Complete(Place(f.dir, f.entry, d, 0, 0), e, log)
    ensures outcome == Done ==> Saved(e, f, log, bytes)
    ensures outcome.DiskFull? && SaveRoom(d) > 0 ==> SavedInPart(d, e, f, log, bytes, SaveRoom(d))
  {
    hide Complete, CountersMatch, Linked, Ready, Flatten, IsFree, FreeSectors, NewEntry, Word, SaveRoom, NextRoom,
         SearchesEnd, SaveEnds, SectorTaken, FirstSearchEnds, FirstFound, FirstSearched, Saved, SavedInPart, Leads;
    log := Log([], [], []);
    e, steps := d, [];
    LeadsNowhere(d);
    FirstSearchWillEnd(d, FileSectors(|bytes|));
    var found, t, s := GetFirstSector(d);
    if !found {
      NoSaveRoom(d);
      outcome := DiskFull(d.kind != DNP);
    } else {
      var w := new Writer.Create(d, f.dir, f.entry, t, s, f.fileType, f.name, f.first, data);
      FoundFirst(d, t);
      SaveRoomTaken(d, w.d, t);
      SaveStillEnds(d, w.d, t, FileSectors(|bytes|));
      outcome := WriteNew(w, f, bytes, d);
      e, steps, log := w.d, w.steps, w.log;
    }
  }

  lemma FoundFirst(d: Disk, t: byte)
    requires FirstSearched(d, t)
    requires d.kind != DNP ==> forall t2: byte :: FileTrack(d, t2) && Before(d.kind, t2, t) ==> FreeSectors(d, t2) == 0
    requires d.kind == DNP ==> forall t2: byte :: 2 <= t2 && (t2 < t || t == 1) && NativeSearched(d, t2) ==> FreeSectors(d, t2) == 0
    ensures FirstFound(d, t)
  {}

  /** The writing part of a save. */
  method WriteNew(w: Writer, f: Target, bytes: seq<byte>, ghost d: Disk) returns (outcome: Outcome)
    requires w.Valid() && w.dir == f.dir && w.entry == f.entry && f.entry < 8 && |f.name| <= 16 && f.dir in d.blocks && f.dir in w.d.blocks
    requires w.place == Place(f.dir, f.entry, d, 0, 0) && |w.log.chain| == 1 && w.log.bodies == [] && w.log.tail == [] && w.buf.lastused == 2
    requires w.d.blocks[f.dir][32 * f.entry..32 * f.entry + 32]
             == NewEntry(d.blocks[f.dir], f.entry, f.fileType, w.log.chain[0].track, w.log.chain[0].sector, f.name, f.first)
    requires SearchesEnd(w.d, w.buf.track, FileSectors(|bytes|) - 1)
    modifies w
    ensures Leads(w.place.before, w.steps, w.d)
    ensures outcome == Done <==> FileSectors(|bytes|) <= old(NextRoom(w.d, w.buf.track)) + 1
    ensures outcome.DiskFull? ==> (outcome.reported <==> d.kind != DNP)
    ensures Complete(w.place, w.d, w.log)
    ensures outcome == Done ==> Saved(w.d, f, w.log, bytes)
    ensures outcome.DiskFull? ==> SavedInPart(d, w.d, f, w.log, bytes, old(NextRoom(w.d, w.buf.track)) + 1)
  {
    hide Complete, Linked, Ready, Flatten, NewEntry, ClosedEntry, BlockCount, NextRoom, SearchesEnd, CutOff, Entered, LeftOpen, Appendable, Leads;
    ghost var written := w.d.blocks[f.dir];
    NothingYet(w.log, bytes);
    outcome := Send(w, bytes);
    if outcome == Done {
      ClosedContents(w.buf, w.log, bytes);
      w.Close(f.last);
      FreshCount(w.place, |w.log.chain|);
      EntryIsRight(d.blocks[f.dir], written, w.d.blocks[f.dir], f, w.d, w.log.chain);
      ClosedFile(w.place, w.d, w.log);
      SavedIsAppendable(w.place, w.d, f, w.log);
    } else {
      KindKept(w.place, w.d, w.log);
      OpenEntry(d, w.d, f, w.log.chain, written);
    }
  }

  lemma NothingYet(log: Log, bytes: seq<byte>)
    requires log.bodies == [] && log.tail == []
    ensures log.Contents() == [] && [] + bytes == bytes
  {}

  /** A new file holds what was written to it, or a carriage return. */
  lemma ClosedContents(b: Buffer, log: Log, bytes: seq<byte>)
    requires log.Contents() == bytes && if bytes == [] then log.bodies == [] && log.tail == [] && b.lastused == 2 else log.tail != []
    ensures var closed := log.(tail := Closing(b, log.tail));
            closed.tail != [] && closed.Contents() == if bytes == [] then [13] else bytes
  {}

  lemma FreshCount(p: Place, n: nat)
    requires p.count == 0 && p.given == 0
    ensures BlockCount(p, n) == Word(n)
  {}

  lemma KindKept(p: Place, d: Disk, log: Log)
    requires Complete(p, d, log)
    ensures d.kind == p.before.kind
  {}

  lemma SavedIsAppendable(p: Place, d: Disk, f: Target, log: Log)
    requires Complete(p, d, log) && Entered(d, f, log.chain) && p.dir == f.dir && p.entry == f.entry
    ensures Appendable(d, f.dir, f.entry, log)
  {
    hide Protected, Owned, Framed;
  }

  /** The entry of a file that the disk had no room for: written when the file was opened, and not closed. */
  predicate LeftOpen(d: Disk, e: Disk, f: Target, chain: seq<Ts>) {
    && f.dir in d.blocks && f.dir in e.blocks && f.entry < 8 && |f.name| <= 16 && |chain| > 0
    && e.blocks[f.dir][32 * f.entry..32 * f.entry + 32]
       == NewEntry(d.blocks[f.dir], f.entry, f.fileType, chain[0].track, chain[0].sector, f.name, f.first)
  }

  lemma OpenEntry(d: Disk, e: Disk, f: Target, chain: seq<Ts>, written: Block)
    requires f.dir in d.blocks && f.dir in e.blocks && f.entry < 8 && |f.name| <= 16 && |chain| > 0 && e.blocks[f.dir] == written
    requires written[32 * f.entry..32 * f.entry + 32]
             == NewEntry(d.blocks[f.dir], f.entry, f.fileType, chain[0].track, chain[0].sector, f.name, f.first)
    ensures LeftOpen(d, e, f, chain)
  {}

  lemma ClosedFile(p: Place, d: Disk, log: Log)
    requires Complete(p, d, log) && log.tail != []
    ensures |log.chain| == (|log.Contents()| + 253) / 254
    ensures d.kind == p.before.kind && p.dir in d.blocks
  {
    FileLength(d, log.chain, log.bodies, log.tail);
  }

  lemma EntryIsRight(before: Block, written: Block, after: Block, f: Target, d: Disk, chain: seq<Ts>)
    requires f.entry < 8 && |f.name| <= 16 && |chain| > 0 && f.dir in d.blocks && d.blocks[f.dir] == after
    requires written[32 * f.entry..32 * f.entry + 32]
             == NewEntry(before, f.entry, f.fileType, chain[0].track, chain[0].sector, f.name, f.first)
    requires after[32 * f.entry..32 * f.entry + 32] == ClosedEntry(written, f.entry, Word(|chain|), f.last)
    ensures Entered(d, f, chain)
  {
    hide SetBit8, PaddedName, NewEntry, ClosedEntry;
    NewEntryIs(before, f.entry, f.fileType, chain[0].track, chain[0].sector, f.name, f.first);
    ClosedEntryIs(written, f.entry, Word(|chain|), f.last);
    NameInEntry(after, f.entry);
    var a := after[32 * f.entry..32 * f.entry + 32];
    assert after[32 * f.entry + 2] == a[2] && after[32 * f.entry + 3] == a[3] && after[32 * f.entry + 4] == a[4];
    assert after[32 * f.entry + 30] == a[30] && after[32 * f.entry + 31] == a[31];
  }

  lemma NewEntryIs(dir: Block, entry: nat, fileType: byte, t: byte, s: byte, name: seq<byte>, stamp: Stamp)
    requires entry < 8 && |name| <= 16
    ensures var e := NewEntry(dir, entry, fileType, t, s, name, stamp);
            e[2] == fileType && e[3] == t && e[4] == s && e[5..21] == PaddedName(name)
  {}

  lemma ClosedEntryIs(dir: Block, entry: nat, blocks: nat, stamp: Stamp)
    requires entry < 8
    ensures var e, w := ClosedEntry(dir, entry, blocks, stamp), dir[32 * entry..32 * entry + 32];
            && e[2] == SetBit8(w[2], 7) && e[3] == w[3] && e[4] == w[4] && e[5..21] == w[5..21]
            && e[30] == blocks % 256 && e[31] == blocks / 256 % 256
  {
    hide SetBit8;
  }

  lemma NameInEntry(block: Block, entry: nat)
    requires entry < 8
    ensures block[32 * entry..32 * entry + 32][5..21] == block[32 * entry + 5..32 * entry + 21]
  {
    var a, b := block[32 * entry..32 * entry + 32][5..21], block[32 * entry + 5..32 * entry + 21];
    forall i | 0 <= i < 16 ensures a[i] == b[i] {
      assert a[i] == block[32 * entry..32 * entry + 32][5 + i];
    }
  }

  /** A name in a directory entry. */
  function PaddedName(name: seq<byte>): seq<byte>
    requires |name| <= 16
  {
    name + seq(16 - |name|, _ => 0xa0)
  }

  /** The directory entry has type and name, with the flag of a closed file, points to the first sector and
      tells the number of sectors. */
  predicate Entered(d: Disk, f: Target, chain: seq<Ts>) {
    && f.dir in d.blocks && f.entry < 8 && |chain| > 0 && |f.name| <= 16
    && EntryByte(d.blocks[f.dir], f.entry, TYPE) == SetBit8(f.fileType, 7)
    && d.blocks[f.dir][32 * f.entry + NAME..32 * f.entry + NAME + 16] == PaddedName(f.name)
    && PointsTo(d.blocks[f.dir], f.entry, chain[0])
    && EntryBlocks(d.blocks[f.dir], f.entry) == |chain| % 0x10000
  }

  // ---- Loading -----------------------------------------------------------------------

  /** d64_read with the two tests of checked_read: the sector must be on the disk and not among those whose
      error code makes it unreadable (ErrorInfo.Cache.Check decides which are). */
  method ReadSector(d: Disk, bad: set<Ts>, t: byte, s: byte) returns (ok: bool, data: Block, lastused: byte, eoi: bool)
    ensures ok <==> InRange(d.kind, d.lastTrack, t, s) && Ts(t, s) !in bad
    ensures ok ==> Ts(t, s) in d.blocks && data == d.blocks[Ts(t, s)]
    ensures ok ==> if data[0] == 0 then eoi && lastused == data[1] else !eoi && lastused == 255
  {
    if t < 1 || t > d.lastTrack || s >= SectorsPerTrack(d.kind, t) || Ts(t, s) in bad {
      return false, seq(256, _ => 0), 0, false;
    }
    data := d.blocks[Ts(t, s)];
    ok, lastused, eoi := true, if data[0] == 0 then data[1] else 255, data[0] == 0;
  }

  /** Number of sectors before the first bad one. */
  function GoodFront(bad: set<Ts>, chain: seq<Ts>): (r: nat)
    ensures r <= |chain|
  {
    if chain == [] || chain[0] in bad then 0 else 1 + GoodFront(bad, chain[1..])
  }

  lemma {:induction false} GoodFrontIs(bad: set<Ts>, chain: seq<Ts>, k: nat)
    requires k <= |chain| && (forall j :: 0 <= j < k ==> chain[j] !in bad) && (k < |chain| ==> chain[k] in bad)
    ensures GoodFront(bad, chain) == k
  {
    if k > 0 {
      forall j | 0 <= j < k - 1 ensures chain[1..][j] !in bad {
        assert chain[1..][j] == chain[j + 1];
      }
      GoodFrontIs(bad, chain[1..], k - 1);
    }
  }

  lemma SectorOf(d: Disk, dir: Ts, log: Log, k: nat)
    requires Owned(d, log.chain, dir) && IsFile(d, log.chain, log.bodies, log.tail) && k <= |log.bodies|
    ensures |log.chain| == |log.bodies| + 1 && log.chain[k] in d.blocks
    ensures InRange(d.kind, d.lastTrack, log.chain[k].track, log.chain[k].sector)
    ensures var block := d.blocks[log.chain[k]];
            if k < |log.bodies|
            then block[0] == log.chain[k + 1].track != 0 && block[1] == log.chain[k + 1].sector && block[2..256] == log.bodies[k]
            else block[0] == 0 && block[2..(if block[1] < 2 then 2 else block[1]) + 1] == Heard(block, log.tail)
  {
    var ts := log.chain[k];
    if k < |log.bodies| {
      assert FullSector(d, log.chain[k], log.chain[k + 1], log.bodies[k]);
      assert Taken(d, log.chain[k + 1]);
    } else {
      assert Payload(d.blocks[ts])[..|log.tail|] == d.blocks[ts][2..|log.tail| + 2];
    }
  }

  /** What is sent of a last sector: the byte at position 2 goes out even if there is none. */
  function Heard(block: Block, tail: seq<byte>): seq<byte> {
    if tail == [] then [block[2]] else tail
  }

  /** Loading a file sends exactly its contents, for every terminated chain of distinct sectors, and one byte
      more if the last sector has none; an unreadable sector ends it with what the sectors before it hold. */
  method Load(d: Disk, bad: set<Ts>, t: byte, s: byte, ghost dir: Ts, ghost log: Log) returns (ok: bool, sent: seq<byte>)
    requires Owned(d, log.chain, dir) && IsFile(d, log.chain, log.bodies, log.tail)
    requires log.chain[0] == Ts(t, s)
    ensures ok <==> GoodFront(bad, log.chain) == |log.chain|
    ensures |log.chain| == |log.bodies| + 1 && log.chain[|log.bodies|] in d.blocks
    ensures ok ==> sent == Flatten(log.bodies) + Heard(d.blocks[log.chain[|log.bodies|]], log.tail)
    ensures ok && log.tail != [] ==> sent == log.Contents()
    ensures !ok ==> GoodFront(bad, log.chain) <= |log.bodies| && sent == Flatten(log.bodies[..GoodFront(bad, log.chain)])
  {
    hide Owned, IsFile, InRange, Flatten;
    SectorOf(d, dir, log, 0);
    SectorOf(d, dir, log, |log.bodies|);
    FirstPart(log);
    var data, lastused, eoi, chunk;
    ok, data, lastused, eoi := ReadSector(d, bad, t, s);
    if !ok {
      GoodFrontIs(bad, log.chain, 0);
      return false, [];
    }
    sent := BusBuffer.SendBuffer(data, lastused);
    ghost var k := 0;
    while !eoi
      invariant 0 <= k <= |log.bodies| < |log.chain| && (eoi <==> k == |log.bodies|)
      invariant log.chain[k] in d.blocks && data == d.blocks[log.chain[k]] && ok
      invariant forall j :: 0 <= j <= k ==> log.chain[j] !in bad
      invariant sent == Flatten(log.bodies[..k]) + (if k < |log.bodies| then log.bodies[k] else Heard(data, log.tail))
      decreases |log.bodies| - k
    {
      SectorOf(d, dir, log, k);
      SectorOf(d, dir, log, k + 1);
      NextPart(log, k);
      ok, data, lastused, eoi := ReadSector(d, bad, data[0], data[1]);
      k := k + 1;
      if !ok {
        GoodFrontIs(bad, log.chain, k);
        return;
      }
      chunk := BusBuffer.SendBuffer(data, lastused);
      sent := sent + chunk;
    }
    assert log.bodies[..k] == log.bodies;
    GoodFrontIs(bad, log.chain, |log.chain|);
  }

  lemma FirstPart(log: Log)
    ensures Flatten(log.bodies[..0]) == []
  {}

  lemma NextPart(log: Log, k: nat)
    requires k < |log.bodies|
    ensures Flatten(log.bodies[..k + 1]) == Flatten(log.bodies[..k]) + log.bodies[k]
  {
    assert log.bodies[..k + 1] == log.bodies[..k] + [log.bodies[k]];
    FlattenAppend(log.bodies[..k], log.bodies[k]);
  }

  /** What was saved is what is loaded: the round trip through the directory entry. */
  method SaveThenLoad(d: Disk, f: Target, data: Block, bytes: seq<byte>) returns (outcome: Outcome, loaded: seq<byte>)
    requires Saveable(d, f, |bytes|)
    ensures outcome == Done <==> FileSectors(|bytes|) <= SaveRoom(d)
    ensures outcome == Done ==> loaded == if bytes == [] then [13] else bytes
  {
    hide Complete, Owned, IsFile, SaveRoom, Saveable, Listed, Entered, SavedInPart;
    var e, steps;
    ghost var log;
    outcome, e, steps, log := Save(d, f, data, bytes);
    loaded := [];
    if outcome == Done {
      ListedParts(e, f.dir, f.entry, log);
      GoodFrontIs({}, log.chain, |log.chain|);
      var ok;
      ok, loaded := Load(e, {}, EntryByte(e.blocks[f.dir], f.entry, TRACK), EntryByte(e.blocks[f.dir], f.entry, SECTOR), f.dir, log);
    }
  }

  // ---- Appending -----------------------------------------------------------------------

  /** The loop of d64_open_write that reads up to the last sector of the file. */
  method ReadToEnd(d: Disk, bad: set<Ts>, t: byte, s: byte, ghost dir: Ts, ghost log: Log)
    returns (ok: bool, track: byte, sector: byte, data: Block)
    requires Owned(d, log.chain, dir) && IsFile(d, log.chain, log.bodies, log.tail)
    requires log.chain[0] == Ts(t, s)
    ensures ok <==> GoodFront(bad, log.chain) == |log.chain|
    ensures ok ==> |log.chain| == |log.bodies| + 1 && Ts(track, sector) == log.chain[|log.bodies|]
    ensures ok ==> Ts(track, sector) in d.blocks && data == d.blocks[Ts(track, sector)]
  {
    hide Owned, IsFile, InRange;
    SectorOf(d, dir, log, 0);
    track, sector := t, s;
    var lastused, eoi;
    ok, data, lastused, eoi := ReadSector(d, bad, t, s);
    if !ok {
      GoodFrontIs(bad, log.chain, 0);
      return;
    }
    ghost var k := 0;
    while data[0] != 0
      invariant 0 <= k <= |log.bodies| < |log.chain| && log.chain[k] == Ts(track, sector)
      invariant log.chain[k] in d.blocks && data == d.blocks[log.chain[k]]
      invariant forall j :: 0 <= j <= k ==> log.chain[j] !in bad
      decreases |log.bodies| - k
    {
      SectorOf(d, dir, log, k);
      SectorOf(d, dir, log, k + 1);
      track, sector := data[0], data[1];
      ok, data, lastused, eoi := ReadSector(d, bad, track, sector);
      k := k + 1;
      if !ok {
        GoodFrontIs(bad, log.chain, k);
        return;
      }
    }
    SectorOf(d, dir, log, k);
    GoodFrontIs(bad, log.chain, |log.chain|);
    ok := true;
  }

  /** The last sector of a file. */
  function LastTrack(log: Log): byte
    requires |log.chain| > 0
  {
    log.chain[|log.chain| - 1].track
  }

  /** A successful append: all bytes are there, the entry tells as many sectors more as the file has
      gained, and the file can be appended to again. */
  ghost predicate Lengthened(d: Disk, e: Disk, dir: Ts, entry: nat, log: Log, after: Log, bytes: seq<byte>) {
    && after.Contents() == log.Contents() + bytes && Appendable(e, dir, entry, after)
    && entry < 8 && dir in d.blocks && dir in e.blocks && |after.chain| >= |log.chain|
    && EntryBlocks(e.blocks[dir], entry) == (EntryBlocks(d.blocks[dir], entry) + |after.chain| - |log.chain|) % 0x10000
  }

  /** An append that filled the disk: as many bytes as there was room for, and of the entry only the time
      stamp has changed. */
  ghost predicate CutShort(d: Disk, e: Disk, dir: Ts, entry: nat, log: Log, after: Log, bytes: seq<byte>, room: nat, first: Stamp) {
    && CutOff(log.Contents() + bytes, |log.chain| + room, after.Contents())
    && entry < 8 && dir in d.blocks && dir in e.blocks && e.blocks[dir] == StampedBlock(d.blocks[dir], entry, first)
  }

  /** OPEN for appending, a LISTEN for every byte, CLOSE. The file is opened if all of its sectors can be
      read. All bytes arrive if and only if there is room behind its last sector. */
  method AppendBytes(d: Disk, bad: set<Ts>, dir: Ts, entry: nat, first: Stamp, last: Stamp, bytes: seq<byte>, ghost log: Log)
    returns (ok: bool, outcome: Outcome, e: Disk, steps: seq<Step>, ghost after: Log)
    requires Appendable(d, dir, entry, log) && |log.chain| > 0 && SearchesEnd(d, LastTrack(log), Needed(log, |bytes|))
    ensures Leads(d, steps, e)
    ensures ok <==> GoodFront(bad, log.chain) == |log.chain|
    ensures !ok ==> e == d && after == log
    ensures ok ==> (outcome == Done <==> Needed(log, |bytes|) <= NextRoom(d, LastTrack(log)))
    ensures ok ==> entry < 8 && dir in d.blocks
    ensures ok ==> Complete(Place(dir, entry, d, |log.chain|, EntryBlocks(d.blocks[dir], entry)), e, after)
    ensures ok && outcome == Done ==> Lengthened(d, e, dir, entry, log, after, bytes)
    ensures ok && outcome.DiskFull? ==> CutShort(d, e, dir, entry, log, after, bytes, NextRoom(d, LastTrack(log)), first)
    ensures ok && outcome.DiskFull? ==> (outcome.reported <==> d.kind != DNP)
  {
    hide Listed, Exact, Owned, IsFile, Complete, CountersMatch, Linked, Ready, Flatten, StampedBlock, ClosedEntry, BlockCount, NextRoom, SameRoom, Framed,
         SearchesEnd, NextSearched, FreeSectors, GoodFront, PointsTo, EntryBlocks, Lengthened, CutShort, Leads;
    outcome, e, steps, after := Done, d, [], log;
    LeadsNowhere(d);
    ListedParts(d, dir, entry, log);
    var track, sector, data;
    ok, track, sector, data :=
      ReadToEnd(d, bad, EntryByte(d.blocks[dir], entry, TRACK), EntryByte(d.blocks[dir], entry, SECTOR), dir, log);
    if ok {
      var w := new Writer.Append(d, dir, entry, first, track, sector, data, log);
      NextRoomSame(d, w.d, track);
      SearchesSame(d, w.d, track, Needed(log, |bytes|));
      outcome := WriteOn(w, first, last, bytes, d, log);
      e, steps, after := w.d, w.steps, w.log;
    }
  }

  /** The writing part of an append. */
  method WriteOn(w: Writer, first: Stamp, last: Stamp, bytes: seq<byte>, ghost d: Disk, ghost log: Log) returns (outcome: Outcome)
    requires w.Valid() && Appendable(d, w.dir, w.entry, log) && w.log == log && |log.chain| > 0 && w.entry < 8 && w.dir in d.blocks
    requires w.place == Place(w.dir, w.entry, d, |log.chain|, EntryBlocks(d.blocks[w.dir], w.entry))
    requires SearchesEnd(w.d, w.buf.track, Needed(log, |bytes|)) && (log.tail == [] ==> w.buf.lastused == 1)
    requires w.dir in w.d.blocks && w.d.blocks[w.dir] == StampedBlock(d.blocks[w.dir], w.entry, first)
    modifies w
    ensures Leads(w.place.before, w.steps, w.d)
    ensures outcome == Done <==> Needed(log, |bytes|) <= old(NextRoom(w.d, w.buf.track))
    ensures Complete(w.place, w.d, w.log)
    ensures outcome == Done ==> Lengthened(d, w.d, w.dir, w.entry, log, w.log, bytes)
    ensures outcome.DiskFull? ==> CutShort(d, w.d, w.dir, w.entry, log, w.log, bytes, old(NextRoom(w.d, w.buf.track)), first)
    ensures outcome.DiskFull? ==> (outcome.reported <==> d.kind != DNP)
  {
    hide Appendable, Complete, Linked, Ready, Log.Contents, StampedBlock, ClosedEntry, BlockCount, NextRoom, SearchesEnd, EntryBlocks, CutOff,
         Lengthened, CutShort, FileSectors, Leads;
    outcome := Send(w, bytes);
    if outcome == Done {
      assert w.log.(tail := Closing(w.buf, w.log.tail)) == w.log;
      w.Close(last);
      IsLengthened(d, w.d, w.place, log, w.log, bytes, first, last);
    } else {
      KindKept(w.place, w.d, w.log);
      IsCutShort(d, w.d, w.dir, w.entry, log, w.log, bytes, old(NextRoom(w.d, w.buf.track)), first);
    }
  }

  lemma IsLengthened(d: Disk, e: Disk, p: Place, log: Log, after: Log, bytes: seq<byte>, first: Stamp, last: Stamp)
    requires after.Contents() == log.Contents() + bytes && Appendable(d, p.dir, p.entry, log) && Complete(p, e, after)
    requires p.entry < 8 && p.dir in d.blocks && p.dir in e.blocks && |log.chain| > 0 && |after.chain| > 0 && after.chain[0] == log.chain[0]
    requires p == Place(p.dir, p.entry, d, |log.chain|, EntryBlocks(d.blocks[p.dir], p.entry)) && p.given <= |after.chain| + 1
    requires e.blocks[p.dir][32 * p.entry..32 * p.entry + 32]
             == ClosedEntry(StampedBlock(d.blocks[p.dir], p.entry, first), p.entry, BlockCount(p, |after.chain|), last)
    ensures Lengthened(d, e, p.dir, p.entry, log, after, bytes)
  {
    hide Appendable, Complete, EntryBlocks, BlockCount, StampedBlock, ClosedEntry, Flatten;
    var stamped := StampedBlock(d.blocks[p.dir], p.entry, first);
    AppendedEntry(d.blocks[p.dir], stamped, e.blocks[p.dir], p.entry, first, last, p, |after.chain|);
    AppendedFile(p, d, e, log, after);
  }

  lemma IsCutShort(d: Disk, e: Disk, dir: Ts, entry: nat, log: Log, after: Log, bytes: seq<byte>, room: nat, first: Stamp)
    requires CutOff(log.Contents() + bytes, |log.chain| + room, after.Contents())
    requires entry < 8 && dir in d.blocks && dir in e.blocks && e.blocks[dir] == StampedBlock(d.blocks[dir], entry, first)
    ensures CutShort(d, e, dir, entry, log, after, bytes, room, first)
  {
    hide StampedBlock, CutOff;
  }

  lemma SearchesSame(d: Disk, e: Disk, t0: byte, need: int)
    requires SameRoom(d, e) && SearchesEnd(d, t0, need)
    ensures SearchesEnd(e, t0, need)
  {
    hide FreeSectors;
  }

  /** Stamping and closing leave type, start and name, and count up the sectors. */
  lemma AppendedEntry(before: Block, stamped: Block, after: Block, entry: nat, first: Stamp, last: Stamp, p: Place, n: nat)
    requires entry < 8 && stamped == StampedBlock(before, entry, first) && p.given <= n + 1
    requires after[32 * entry..32 * entry + 32] == ClosedEntry(stamped, entry, BlockCount(p, n), last)
    ensures EntryByte(after, entry, TRACK) == EntryByte(before, entry, TRACK)
    ensures EntryByte(after, entry, SECTOR) == EntryByte(before, entry, SECTOR)
    ensures EntryBlocks(after, entry) == BlockCount(p, n)
  {
    hide ClosedEntry, StampedBlock;
    ClosedEntryIs(stamped, entry, BlockCount(p, n), last);
    StampedStart(before, entry, first);
    var w, a := stamped[32 * entry..32 * entry + 32], after[32 * entry..32 * entry + 32];
    assert w[3] == stamped[32 * entry + 3] && w[4] == stamped[32 * entry + 4];
    assert after[32 * entry + 3] == a[3] && after[32 * entry + 4] == a[4];
    assert after[32 * entry + 30] == a[30] && after[32 * entry + 31] == a[31];
  }

  lemma StampedStart(block: Block, entry: nat, stamp: Stamp)
    requires entry < 8
    ensures var s := StampedBlock(block, entry, stamp); s[32 * entry + 3] == block[32 * entry + 3] && s[32 * entry + 4] == block[32 * entry + 4]
  {}

  /** The file that was appended to is one that can be appended to. */
  lemma AppendedFile(p: Place, d: Disk, e: Disk, log: Log, after: Log)
    requires Complete(p, e, after) && Appendable(d, p.dir, p.entry, log) && p.dir in d.blocks && p.dir in e.blocks && p.entry < 8
    requires |log.chain| > 0 && |after.chain| > 0 && after.chain[0] == log.chain[0]
    requires EntryByte(e.blocks[p.dir], p.entry, TRACK) == EntryByte(d.blocks[p.dir], p.entry, TRACK)
    requires EntryByte(e.blocks[p.dir], p.entry, SECTOR) == EntryByte(d.blocks[p.dir], p.entry, SECTOR)
    requires p.given == |log.chain|
    ensures Appendable(e, p.dir, p.entry, after) && |after.chain| >= |log.chain|
    ensures BlockCount(p, |after.chain|) == (p.count + |after.chain| - |log.chain|) % 0x10000
  {
    hide Protected, Owned, IsFile;
  }

  lemma ListedParts(d: Disk, dir: Ts, entry: nat, log: Log)
    requires Listed(d, dir, entry, log)
    ensures Protected(d, dir) && Owned(d, log.chain, dir) && IsFile(d, log.chain, log.bodies, log.tail)
    ensures |log.chain| == |log.bodies| + 1 && entry < 8 && dir in d.blocks
    ensures EntryByte(d.blocks[dir], entry, TRACK) == log.chain[0].track && EntryByte(d.blocks[dir], entry, SECTOR) == log.chain[0].sector
  {}

  // ---- Deleting ------------------------------------------------------------------------

  /** How far d64_delete has come: the first k sectors of the chain are free again, and nothing else
      has changed. */
  ghost predicate Freed(d: Disk, e: Disk, dir: Ts, chain: seq<Ts>, k: nat) {
    && k <= |chain| && Protected(e, dir) && e.(blocks := map[]) == d.(blocks := map[])
    && (forall ts :: Taken(d, ts) && ts !in chain[..k] ==> Taken(e, ts))
    && (forall t: byte, s: byte :: Mapped(d, t, s) && (IsFree(d, t, s) || Ts(t, s) in chain[..k]) ==> IsFree(e, t, s))
    && (forall u :: u in d.blocks && !IsBam(d.kind, u) ==> e.blocks[u] == d.blocks[u])
    && FreeBlocksOf(e) == FreeBlocksOf(d) + Unreserved(d.kind, chain[..k])
  }

  /** free_sector on a sector of the file */
  method GiveBack(d: Disk, dir: Ts, ts: Ts) returns (e: Disk, steps: seq<Step>)
    requires Protected(d, dir) && Taken(d, ts) && ts.track <= d.lastBamTrack && !IsBam(d.kind, ts) && ts != dir
    ensures Leads(d, steps, e)
    ensures Protected(e, dir) && e.(blocks := map[]) == d.(blocks := map[]) && IsFree(e, ts.track, ts.sector)
    ensures forall u :: Taken(d, u) && u != ts ==> Taken(e, u)
    ensures forall t: byte, s: byte :: Mapped(d, t, s) && IsFree(d, t, s) ==> IsFree(e, t, s)
    ensures forall u :: u in d.blocks && !IsBam(d.kind, u) ==> e.blocks[u] == d.blocks[u]
    ensures FreeBlocksOf(e) == FreeBlocksOf(d) + if Reserved(d.kind, ts.track, ts.sector) then 0 else 1
  {
    hide Leads;
    e, steps := Release(d, ts.track, ts.sector), [Give(ts.track, ts.sector)];
    LeadsThere(d, Give(ts.track, ts.sector));
    ReleaseEffect(d, dir, ts);
    ReleaseGivesOneBlock(d, ts.track, ts.sector);
  }

  /** One round of the loop of d64_delete. */
  method FreeNext(ghost d: Disk, e: Disk, dir: Ts, ghost chain: seq<Ts>, ghost k: nat, ts: Ts) returns (f: Disk, steps: seq<Step>)
    requires Freed(d, e, dir, chain, k) && k < |chain| && Owned(d, chain, dir) && ts == chain[k] && ts.track <= d.lastBamTrack
    ensures Freed(d, f, dir, chain, k + 1) && Leads(e, steps, f)
  {
    hide Protected, Distinct, IsFree, FreeBlocksOf, CountersMatch, IsBam, Reserved, Leads;
    NotYetFreed(d, e, dir, chain, k);
    f, steps := GiveBack(e, dir, ts);
    OneMore(chain, k);
    UnreservedUpTo(d.kind, chain, k);
  }

  lemma NotYetFreed(d: Disk, e: Disk, dir: Ts, chain: seq<Ts>, k: nat)
    requires Freed(d, e, dir, chain, k) && k < |chain| && Owned(d, chain, dir)
    ensures Taken(e, chain[k]) && !IsBam(e.kind, chain[k]) && chain[k] != dir
  {
    NotBefore(chain, k);
  }

  lemma OneMore(chain: seq<Ts>, k: nat)
    requires k < |chain|
    ensures forall u :: u in chain[..k + 1] <==> u in chain[..k] || u == chain[k]
  {
    assert chain[..k + 1] == chain[..k] + [chain[k]];
  }

  lemma UnreservedUpTo(kind: Kind, chain: seq<Ts>, k: nat)
    requires k < |chain|
    ensures Unreserved(kind, chain[..k + 1])
         == Unreserved(kind, chain[..k]) + if Reserved(kind, chain[k].track, chain[k].sector) then 0 else 1
  {
    assert chain[..k + 1][..k] == chain[..k];
  }

  lemma NotBefore(chain: seq<Ts>, k: nat)
    requires Distinct(chain) && k < |chain|
    ensures chain[k] !in chain[..k]
  {
    forall j | 0 <= j < k ensures chain[j] != chain[k] {
      DistinctAt(chain, j, k);
    }
  }

  /** A deleted file: its sectors are free, its blocks are back, its directory entry has type 0, and
      everything else is as before. */
  ghost predicate Deleted(d: Disk, e: Disk, dir: Ts, entry: nat, chain: seq<Ts>) {
    && Protected(e, dir) && e.(blocks := map[]) == d.(blocks := map[]) && dir in d.blocks && entry < 8
    && (forall ts :: Taken(d, ts) && ts !in chain ==> Taken(e, ts))
    && (forall t: byte, s: byte :: Mapped(d, t, s) && (IsFree(d, t, s) || Ts(t, s) in chain) ==> IsFree(e, t, s))
    && (forall u :: u in d.blocks && !IsBam(d.kind, u) && u != dir ==> e.blocks[u] == d.blocks[u])
    && e.blocks[dir] == d.blocks[dir][32 * entry + TYPE := 0]
    && FreeBlocksOf(e) == FreeBlocksOf(d) + Unreserved(d.kind, chain)
  }

  /** d64_delete: walk the chain, freeing each sector before its link is read. A locked file stays (0); a
      sector that cannot be read stops the walk with the entry as it was (255); otherwise the file is gone
      (1). */
  method Delete(d: Disk, bad: set<Ts>, dir: Ts, entry: nat, ghost log: Log) returns (result: int, e: Disk, steps: seq<Step>)
    requires Listed(d, dir, entry, log) && forall k :: 0 <= k < |log.chain| ==> log.chain[k].track <= d.lastBamTrack
    ensures Leads(d, steps, e) && entry < 8 && dir in d.blocks
    ensures var locked := Bit(EntryByte(d.blocks[dir], entry, TYPE), 6);
            result == if locked then 0 else if GoodFront(bad, log.chain) < |log.chain| then 255 else 1
    ensures result == 0 ==> e == d
    ensures result == 255 ==> Freed(d, e, dir, log.chain, GoodFront(bad, log.chain) + 1)
    ensures result == 1 ==> Deleted(d, e, dir, entry, log.chain)
  {
    hide Listed, Protected, Owned, IsFile, Freed, Deleted, GoodFront, Leads;
    ListedParts(d, dir, entry, log);
    DirectoryKept(d, dir);
    if Bit(EntryByte(d.blocks[dir], entry, TYPE), 6) {
      LeadsNowhere(d);
      return 0, d, [];
    }
    var ok, f, more;
    ok, f, steps := FreeChain(d, bad, dir, EntryByte(d.blocks[dir], entry, TRACK), EntryByte(d.blocks[dir], entry, SECTOR), log);
    if !ok {
      return 255, f, steps;
    }
    e, more := ClearEntry(d, f, dir, entry, log.chain);
    LeadsOn(d, steps, f, more, e);
    steps := steps + more;
    result := 1;
  }

  lemma DirectoryKept(d: Disk, dir: Ts)
    requires Protected(d, dir)
    ensures dir in d.blocks && !IsBam(d.kind, dir)
  {}

  lemma NothingFreed(d: Disk, dir: Ts, chain: seq<Ts>)
    requires Protected(d, dir)
    ensures Freed(d, d, dir, chain, 0)
  {}

  /** Freeing writes no sector of the file, so the links are still there to follow. */
  lemma LinkIntact(d: Disk, e: Disk, dir: Ts, chain: seq<Ts>, k: nat, j: nat)
    requires Freed(d, e, dir, chain, k) && Owned(d, chain, dir) && j < |chain|
    ensures chain[j] in d.blocks && chain[j] in e.blocks && e.blocks[chain[j]] == d.blocks[chain[j]]
    ensures e.kind == d.kind && e.lastTrack == d.lastTrack
  {}

  /** The loop of d64_delete. */
  method FreeChain(d: Disk, bad: set<Ts>, dir: Ts, t: byte, s: byte, ghost log: Log) returns (ok: bool, e: Disk, steps: seq<Step>)
    requires Protected(d, dir) && Owned(d, log.chain, dir) && IsFile(d, log.chain, log.bodies, log.tail)
    requires forall k :: 0 <= k < |log.chain| ==> log.chain[k].track <= d.lastBamTrack
    requires log.chain[0] == Ts(t, s)
    ensures ok <==> GoodFront(bad, log.chain) == |log.chain|
    ensures Freed(d, e, dir, log.chain, if ok then |log.chain| else GoodFront(bad, log.chain) + 1) && Leads(d, steps, e)
  {
    hide Protected, Owned, IsFile, InRange, Freed, GoodFront, Leads;
    SectorOf(d, dir, log, 0);
    NothingFreed(d, dir, log.chain);
    var at := Ts(t, s);
    e, steps := FreeNext(d, d, dir, log.chain, 0, at);
    LinkIntact(d, e, dir, log.chain, 1, 0);
    var data, lastused, eoi;
    ok, data, lastused, eoi := ReadSector(e, bad, at.track, at.sector);
    ghost var k := 0;
    while ok && data[0] != 0
      invariant 0 <= k <= |log.bodies| < |log.chain| && Freed(d, e, dir, log.chain, k + 1) && Leads(d, steps, e)
      invariant log.chain[k] in d.blocks && (ok <==> log.chain[k] !in bad) && (ok ==> data == d.blocks[log.chain[k]])
      invariant forall j :: 0 <= j < k ==> log.chain[j] !in bad
      decreases |log.bodies| - k
    {
      SectorOf(d, dir, log, k);
      SectorOf(d, dir, log, k + 1);
      at := Ts(data[0], data[1]);
      var f, more := FreeNext(d, e, dir, log.chain, k + 1, at);
      LeadsOn(d, steps, e, more, f);
      e, steps, k := f, steps + more, k + 1;
      LinkIntact(d, e, dir, log.chain, k + 1, k);
      ok, data, lastused, eoi := ReadSector(e, bad, at.track, at.sector);
    }
    SectorOf(d, dir, log, k);
    GoodFrontIs(bad, log.chain, if ok then |log.chain| else k);
  }

  /** The end of d64_delete: the entry read at the start is written back with type 0. */
  method ClearEntry(ghost d: Disk, e: Disk, dir: Ts, entry: nat, ghost chain: seq<Ts>) returns (f: Disk, steps: seq<Step>)
    requires Freed(d, e, dir, chain, |chain|) && dir in d.blocks && !IsBam(d.kind, dir) && entry < 8
    ensures Deleted(d, f, dir, entry, chain) && Leads(e, steps, f)
  {
    hide IsFree, FreeBlocksOf, CountersMatch, IsBam, Unreserved, Leads;
    assert chain[..|chain|] == chain;
    var block := e.blocks[dir];
    f, steps := WriteDirectory(e, dir, entry, block[32 * entry..32 * entry + 32][TYPE := 0]);
    TypeCleared(block, f.blocks[dir], entry);
    FreeBitsKept(d, e, f, dir, entry, chain);
  }

  lemma TypeCleared(block: Block, after: Block, entry: nat)
    requires entry < 8 && after[32 * entry..32 * entry + 32] == block[32 * entry..32 * entry + 32][TYPE := 0]
    requires forall i :: 0 <= i < 256 && !(32 * entry <= i < 32 * entry + 32) ==> after[i] == block[i]
    ensures after == block[32 * entry + TYPE := 0]
  {
    forall i | 0 <= i < 256 ensures after[i] == block[32 * entry + TYPE := 0][i] {
      if 32 * entry <= i < 32 * entry + 32 {
        assert after[i] == after[32 * entry..32 * entry + 32][i - 32 * entry];
      }
    }
  }

  lemma FreeBitsKept(d: Disk, e: Disk, f: Disk, dir: Ts, entry: nat, chain: seq<Ts>)
    requires Freed(d, e, dir, chain, |chain|) && dir in d.blocks && dir in f.blocks && f == WithBlock(e, dir, f.blocks[dir])
    ensures forall t: byte, s: byte :: Mapped(d, t, s) && (IsFree(d, t, s) || Ts(t, s) in chain) ==> IsFree(f, t, s)
  {
    assert chain[..|chain|] == chain;
    WriteKeepsBam(e, dir, f.blocks[dir]);
  }

  /** A save followed by a delete gives every block back, unless the file was saved as a locked one. */
  method SaveThenDelete(d: Disk, f: Target, data: Block, bytes: seq<byte>)
    returns (outcome: Outcome, saved: Disk, result: int, e: Disk, ghost log: Log)
    requires Saveable(d, f, |bytes|)
    ensures outcome == Done <==> FileSectors(|bytes|) <= SaveRoom(d)
    ensures outcome == Done ==> Complete(Place(f.dir, f.entry, d, 0, 0), saved, log) && |log.chain| == FileSectors(|bytes|)
    ensures result == 1 <==> outcome == Done && !Bit(f.fileType, 6)
    ensures result == 1 ==> Deleted(saved, e, f.dir, f.entry, log.chain)
    ensures result == 1 ==> FreeBlocksOf(e) == FreeBlocksOf(d) && forall ts :: Taken(d, ts) ==> Taken(e, ts)
    ensures result != 1 ==> e == saved
  {
    hide Complete, Protected, Owned, IsFile, Saveable, SaveRoom, Deleted, FreeBlocksOf, IsFree, Entered, Taken, Listed, SavedInPart;
    var steps;
    outcome, saved, steps, log := Save(d, f, data, bytes);
    e, result := saved, 0;
    if outcome == Done {
      RoomForOne(d, |bytes|);
      NewSectorsMapped(d, f, saved, log);
      EntryTellsType(saved, f, log.chain);
      GoodFrontIs({}, log.chain, |log.chain|);
      result, e, steps := Delete(saved, {}, f.dir, f.entry, log);
      if result == 1 {
        BlocksBack(d, f, saved, log, e);
      }
    }
  }

  lemma RoomForOne(d: Disk, n: nat)
    requires FileSectors(n) <= SaveRoom(d)
    ensures SaveRoom(d) > 0
  {
    hide SaveRoom;
  }

  /** The flag of a locked file is that of the type; closing sets another one. */
  lemma EntryTellsType(d: Disk, f: Target, chain: seq<Ts>)
    requires Entered(d, f, chain)
    ensures f.dir in d.blocks && f.entry < 8 && Bit(EntryByte(d.blocks[f.dir], f.entry, TYPE), 6) == Bit(f.fileType, 6)
  {
    OtherBit(f.fileType);
  }

  lemma OtherBit(x: byte)
    ensures Bit(SetBit8(x, 7), 6) == Bit(x, 6)
  {}

  lemma NewSectorsMapped(d: Disk, f: Target, saved: Disk, log: Log)
    requires Complete(Place(f.dir, f.entry, d, 0, 0), saved, log)
    ensures forall k :: 0 <= k < |log.chain| ==> log.chain[k].track <= saved.lastBamTrack
  {}

  lemma BlocksBack(d: Disk, f: Target, saved: Disk, log: Log, e: Disk)
    requires Complete(Place(f.dir, f.entry, d, 0, 0), saved, log) && Deleted(saved, e, f.dir, f.entry, log.chain)
    ensures FreeBlocksOf(e) == FreeBlocksOf(d)
    ensures forall ts :: Taken(d, ts) ==> Taken(e, ts)
  {
    assert log.chain[0..] == log.chain;
  }
}
