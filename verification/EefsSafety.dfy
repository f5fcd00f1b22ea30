/** Which runs of the EEPROM file system keep the invariant: exactly those in which no channel takes a
    sector, or records a size, in the wrong place. Channels go wrong when their file is scratched or the
    device formatted under them (src/eeprom-fs.c, src/eefs-ops.c, src/doscmd.c). */
module EefsSafety {
  import opened Bits
  import opened EefsModel
  import opened EefsInvariant
  import opened EefsWrite
  import opened EefsFiles
  import opened EefsDelete
  import opened EefsMount
  import opened EefsRead
  import opened EefsDangling
  import opened EefsRuns

  ghost predicate HasBooks(s: State) {
    exists b :: Inv(s, b)
  }

  /** The state before a failed write closes its file; otherwise the state after the operation. */
  function Halfway(y: System, op: Op): State
    requires Sane(y) && Allowed(y, op)
  {
    match op
    case WriteFile(ch, bytes) => Write(y.s, y.open[ch], bytes).s
    case _ => Step(y, op).y.s
  }

  /** The operation takes no sector and records no size in the wrong place. A write that fails closes its file:
      that close is judged in the state, and with the handle, that the write has left. */
  ghost predicate SafeOp(y: System, op: Op)
    requires Sane(y) && Allowed(y, op)
  {
    match op
    case WriteFile(ch, bytes) =>
      && SafeWrite(y.s, y.open[ch], bytes)
      && var w := Write(y.s, y.open[ch], bytes); (w.error != Ok ==> SafeClose(w.s, w.fh))
    case CloseFile(ch) => SafeClose(y.s, y.open[ch])
    case _ => true
  }

  /** The invariant holds in every state the run goes through. */
  ghost predicate Sound(y: System, ops: seq<Op>)
    requires Sane(y) && Runs(y, ops)
    decreases |ops|
  {
    HasBooks(y.s) && (ops == [] || (HasBooks(Halfway(y, ops[0])) && Sound(Step(y, ops[0]).y, ops[1..])))
  }

  ghost predicate AllSafe(y: System, ops: seq<Op>)
    requires Sane(y) && Runs(y, ops)
    decreases |ops|
  {
    ops == [] || (SafeOp(y, ops[0]) && AllSafe(Step(y, ops[0]).y, ops[1..]))
  }

  /** One operation, whatever its channel has been through. */
  lemma StepSoundIff(y: System, op: Op)
    requires Sane(y) && HasBooks(y.s) && Allowed(y, op)
    ensures SafeOp(y, op) <==> HasBooks(Halfway(y, op)) && HasBooks(Step(y, op).y.s)
  {
    hide Inv, Write, Close, SafeWrite, SafeClose, Init, Format, Create, Rename, Delete;
    var b :| Inv(y.s, b);
    match op
    case Mount => MountRebuilds(y.s, b);
    case Reformat => FormatEmpties(|y.s.dir|, |y.s.data|);
    case CreateFile(ch, name) => var c := CreateKeeps(y.s, b, name);
    case WriteFile(ch, bytes) => WriteSoundIff(y, b, ch, bytes);
    case CloseFile(ch) => CloseSafeIff(y.s, b, y.open[ch]);
    case RenameFile(from, to) => RenameKeeps(y.s, b, from, to);
    case DeleteFile(name) => DeleteKeeps(y.s, b, name);
  }

  lemma WriteSoundIff(y: System, b: Books, ch: Channel, bytes: seq<byte>)
    requires Sane(y) && Inv(y.s, b) && Allowed(y, WriteFile(ch, bytes))
    ensures var op := WriteFile(ch, bytes); SafeOp(y, op) <==> HasBooks(Halfway(y, op)) && HasBooks(Step(y, op).y.s)
  {
    hide Inv, Write, Close, SafeWrite, SafeClose;
    WriteSafeIff(y.s, b, y.open[ch], bytes);
    var w := Write(y.s, y.open[ch], bytes);
    if HasBooks(w.s) {
      var c :| Inv(w.s, c);
      CloseSafeIff(w.s, c, w.fh);
    }
  }

  /** A run keeps the invariant in every state if and only if every write takes no sector or takes it at
      the end of a chain, and every size goes where it may go. */
  lemma {:induction false} RunSoundIff(y: System, ops: seq<Op>)
    requires Sane(y) && HasBooks(y.s) && Runs(y, ops)
    ensures Sound(y, ops) <==> AllSafe(y, ops)
    decreases |ops|
  {
    hide Sane, Allowed, Step, SafeOp, Halfway, HasBooks;
    if ops != [] {
      StepSoundIff(y, ops[0]);
      if SafeOp(y, ops[0]) {
        RunSoundIff(Step(y, ops[0]).y, ops[1..]);
      } else if HasBooks(Halfway(y, ops[0])) {
        NotSound(Step(y, ops[0]).y, ops[1..]);
      }
    }
  }

  lemma NotSound(y: System, ops: seq<Op>)
    requires Sane(y) && !HasBooks(y.s) && Runs(y, ops)
    ensures !Sound(y, ops)
  {}

  // ---- Channels with a file are safe ------------------------------------------------------

  /** A channel that still has its file cannot go wrong; and neither can one that has lost it, as long as
      it is used as cleanly as the refinement asks for. */
  lemma CleanIsSafe(y: System, b: Books, c: Catalog, op: Op)
    requires Represents(y, b, c) && Allowed(y, op) && Clean(y, c, op)
    ensures Sane(y) && SafeOp(y, op)
  {
    hide Represents, Clean, Step, Sane, Effect, Rightly, Inv, SafeOp;
    RepresentsSane(y, b, c);
    var b2 := StepRefines(y, b, c, op);
    RepresentsSane(Step(y, op).y, b2, Effect(c, op, Step(y, op).report));
    var t := HalfwayBooks(y, b, c, op, b2);
    StepSoundIff(y, op);
  }

  lemma HalfwayBooks(y: System, b: Books, c: Catalog, op: Op, b2: Books) returns (b3: Books)
    requires Represents(y, b, c) && Allowed(y, op) && Clean(y, c, op) && Inv(Step(y, op).y.s, b2)
    ensures Sane(y) && Inv(Halfway(y, op), b3)
  {
    hide Inv, FilesMatch, Write, DraftMatches, Allocates, Closable, Appended, AtEnd, HasContents;
    b3 := b2;
    if op.WriteFile? {
      var fh := y.open[op.channel];
      if op.channel in c.drafts {
        var d := c.drafts[op.channel];
        DraftFile(y.s, b, fh.entry, fh, d);
        b3 := WriteKeeps(y.s, b, fh, op.bytes, 0, d.bytes);
        WritesOn(y.s, fh, op.bytes);
        var w := Write(y.s, fh, op.bytes);
        AppendedCount(y.s, b, fh, w.s, b3, w.fh, d.bytes, op.bytes, w.count);
      } else {
        QuietWrite(y.s, fh, op.bytes);
        b3 := b;
        SameBooksInv(y.s, b, Write(y.s, fh, op.bytes).s);
      }
    }
  }

  lemma WritesOn(s: State, fh: Handle, bytes: seq<byte>)
    requires Usable(s, fh) && fh.mode == WriteMode
    ensures Write(s, fh, bytes) == WriteLoop(s, fh, bytes, 0)
  {
    hide WriteLoop;
  }

  // ---- Data of other files ------------------------------------------------------------------

  /** The sectors of every file hold what they held. */
  ghost predicate SameData(s: State, b: Books, t: State) {
    forall h :: h in b.files ==>
      InRange(s.data, Sectors(b.files[h])) && InRange(t.data, Sectors(b.files[h]))
      && Concat(t.data, Sectors(b.files[h])) == Concat(s.data, Sectors(b.files[h]))
  }

  /** Bytes that go into the current sector leave the data of all files as it is if and only if the sector
      is in no file, or held these bytes before. So a channel that has lost its file can keep the
      invariant and still overwrite a file that was given its sector. */
  lemma SameDataIff(s: State, b: Books, fh: Handle, bytes: seq<byte>)
    requires Inv(s, b) && Usable(s, fh) && fh.mode == WriteMode && bytes != [] && |bytes| <= Room(fh.soffset)
    ensures SameData(s, b, Write(s, fh, bytes).s)
       <==> !s.usedSectors[fh.sector] || s.data[fh.sector][fh.soffset..fh.soffset + |bytes|] == bytes
  {
    hide Inv, Write, Patch, Sectors, Concat;
    SmallWriteOnce(s, fh, bytes);
    StoredHandle(s, fh, bytes);
    var t, k := Write(s, fh, bytes).s, fh.sector;
    PatchChanges(s.data[k], fh.soffset, bytes);
    if !s.usedSectors[k] || t.data[k] == s.data[k] {
      forall h | h in b.files
        ensures InRange(s.data, Sectors(b.files[h])) && InRange(t.data, Sectors(b.files[h]))
        ensures Concat(t.data, Sectors(b.files[h])) == Concat(s.data, Sectors(b.files[h]))
      {
        UnusedInNoFile(s, b, h, k);
        ConcatSame(s.data, t.data, Sectors(b.files[h]));
      }
    } else {
      OwnerOfSector(s, b, k);
      var h, j := b.sectorOwner[k].head, b.sectorOwner[k].index;
      if SameData(s, b, t) {
        SectorBytes(s.data, Sectors(b.files[h]), j);
        SectorBytes(t.data, Sectors(b.files[h]), j);
      }
    }
  }

  lemma PatchChanges(sector: Sector, at: nat, bytes: seq<byte>)
    requires at + |bytes| <= SECTOR_SIZE
    ensures Patch(sector, at, bytes) == sector <==> sector[at..at + |bytes|] == bytes
  {
    var p := Patch(sector, at, bytes);
    assert p[at..at + |bytes|] == bytes;
    assert sector == sector[..at] + sector[at..at + |bytes|] + sector[at + |bytes|..];
  }

  lemma OwnerOfSector(s: State, b: Books, k: byte)
    requires Inv(s, b) && k as int < |s.data| && s.usedSectors[k]
    ensures k as int < |b.sectorOwner| && b.sectorOwner[k].Owned?
    ensures var o := b.sectorOwner[k]; o.head in b.files && o.index < |Sectors(b.files[o.head])| && Sectors(b.files[o.head])[o.index] == k
  {
    hide Inv, Sectors;
    SectorBooksOk(s, b);
    OwnersInside(s, b, k as int);
  }

  lemma SectorBooksOk(s: State, b: Books)
    requires Inv(s, b)
    ensures SectorsOk(s, b)
  {}

  // ---- Runs that go wrong ---------------------------------------------------------------------

  /** Every entry of the directory is erased, and nothing is in use but perhaps entries. */
  predicate Blank(s: State) {
    s.Sized() && !Live(s.dir[0]) && IsList(s.dir[0]) && forall k :: 0 <= k < |s.usedSectors| ==> !s.usedSectors[k]
  }

  /** A channel that has just opened the first entry for writing. */
  const FIRST_HANDLE := Handle(0, 0, 0, 0, 0, 0, 255, WriteMode)

  /** A new file on a formatted device. */
  lemma FirstFile(entries: nat, sectors: nat, name: Name) returns (b: Books)
    requires 1 <= entries <= 255 && 1 <= sectors <= 255
    ensures var y := Step(Formatted(entries, sectors), CreateFile(0, name)).y;
            && y.open == map[0 := FIRST_HANDLE] && |y.s.dir| == entries && |y.s.data| == sectors
            && Represents(y, b, Catalog(map[name := []], map[0 := Draft(name, [])]))
            && (forall k :: 0 <= k < |y.s.usedSectors| ==> !y.s.usedSectors[k])
            && y.s.usedEntries[0] && forall i :: 0 < i < entries ==> !y.s.usedEntries[i]
  {
    hide Represents, Format, Find, Inv, Effect;
    var y0 := Formatted(entries, sectors);
    FormatRepresents(entries, sectors);
    FormatEmpties(entries, sectors);
    NamesMissing(y0, NoFiles(entries, sectors), EMPTY, name);
    b := CreateRefines(y0, NoFiles(entries, sectors), EMPTY, 0, name);
    assert Effect(EMPTY, CreateFile(0, name), Report(Ok, 0)) == Catalog(map[name := []], map[0 := Draft(name, [])]) by {
      CreateEffect(EMPTY, 0, name);
    }
  }

  lemma CreateEffect(c: Catalog, ch: Channel, name: Name)
    ensures Effect(c, CreateFile(ch, name), Report(Ok, 0)) == Catalog(c.files[name := []], c.drafts[ch := Draft(name, [])])
  {}

  lemma NamesMissing(y: System, b: Books, c: Catalog, name: Name)
    requires Represents(y, b, c) && name !in c.files
    ensures y.s.Sized() && Find(y.s.dir, name) == NONE
  {
    hide Inv, Find, Stored, Readable;
    NamesFound(y.s, b, c.files, 0, name);
  }

  /** Scratching a file under its channel, or formatting the device, leaves the channel with an erased
      entry. */
  lemma ScratchedBlank(entries: nat, sectors: nat, name: Name, op: Op) returns (b: Books)
    requires 1 <= entries <= 255 && 1 <= sectors <= 255 && (op == DeleteFile(name) || op == Reformat)
    ensures var y := Step(Step(Formatted(entries, sectors), CreateFile(0, name)).y, op).y;
            && Inv(y.s, b) && Blank(y.s) && y.open == map[0 := FIRST_HANDLE]
  {
    hide Represents, Format, Find, Inv, Effect, Delete, Gone, Formatted;
    b := FirstFile(entries, sectors, name);
    var y := Step(Formatted(entries, sectors), CreateFile(0, name)).y;
    var c := Catalog(map[name := []], map[0 := Draft(name, [])]);
    if op == Reformat {
      FormatEmpties(entries, sectors);
      FormatErases(entries, sectors);
      b := NoFiles(entries, sectors);
    } else {
      RepresentsSane(y, b, c);
      DeleteKeeps(y.s, b, name);
      DraftHead(y, b, c);
      FileHasName(y, b, c, name);
      Inside(Delete(y.s, name).s, RemoveFile(b, 0));
      HeadIsErased(y.s, b, Delete(y.s, name).s);
      b := RemoveFile(b, 0);
    }
  }

  lemma FormatErases(entries: nat, sectors: nat)
    requires 1 <= entries <= 255 && 1 <= sectors <= 255
    ensures Format(entries, sectors).dir[0] == Erased() && !Live(Erased()) && IsList(Erased())
  {
    hide InitFrom;
  }

  lemma DraftHead(y: System, b: Books, c: Catalog)
    requires Represents(y, b, c) && y.open == map[0 := FIRST_HANDLE] && 0 in c.drafts
    ensures 0 in b.files && 0 < |y.s.dir| && NameOf(y.s.dir[0]) == c.drafts[0].name
  {
    hide Inv, FilesMatch, HasContents, AtEnd;
    DraftFile(y.s, b, 0, FIRST_HANDLE, c.drafts[0]);
  }

  lemma FileHasName(y: System, b: Books, c: Catalog, name: Name)
    requires Represents(y, b, c) && 0 in b.files && 0 < |y.s.dir| && NameOf(y.s.dir[0]) == name
    ensures y.s.Sized() && Find(y.s.dir, name) == 0
  {
    hide Inv, Find, Stored, Readable, DraftsMatch;
    FindSpec(y.s, b, name);
  }

  lemma HeadIsErased(s: State, b: Books, t: State)
    requires Inv(s, b) && Gone(s, b, 0, t) && 0 in b.files && t.Sized()
    ensures t.dir[0] == Erased() && !Live(Erased()) && IsList(Erased())
    ensures forall k :: 0 <= k < |t.usedSectors| && t.usedSectors[k] ==> k < |s.usedSectors| && s.usedSectors[k]
  {
    hide CountFree, Sectors, SectorsOk, NamesOk, FilesOk;
    FirstEntry(s, b, 0);
    assert b.entryOwner[0] == Owned(0, 0);
  }

  /** Create a file, scratch it or format the device, then write one byte: a sector is marked as used that
      no file has, and that the next mount finds free. */
  lemma WrittenAfterErasing(entries: nat, sectors: nat, name: Name, op: Op, x: byte)
    requires 1 <= entries <= 255 && 1 <= sectors <= 255 && (op == DeleteFile(name) || op == Reformat)
    ensures var y, ops := Formatted(entries, sectors), [CreateFile(0, name), op, WriteFile(0, [x])];
            && Runs(y, ops) && !AllSafe(y, ops) && !Sound(y, ops)
            && var s := After(y, ops).s; Init(s.dir, s.data).usedSectors != s.usedSectors
  {
    hide Step, Represents, Inv, Formatted, Write, Init, SafeOp, HasBooks, Sane;
    var b := ScratchedBlank(entries, sectors, name, op);
    var y0 := Formatted(entries, sectors);
    var y1 := Step(y0, CreateFile(0, name)).y;
    var y2 := Step(y1, op).y;
    StaleByte(y2, b, x);
    FormattedBooks(entries, sectors);
    BooksOf(y2.s, b);
    ThreeSteps(y0, CreateFile(0, name), op, WriteFile(0, [x]));
  }

  lemma FormattedBooks(entries: nat, sectors: nat)
    requires 1 <= entries <= 255 && 1 <= sectors <= 255
    ensures HasBooks(Formatted(entries, sectors).s)
  {
    hide Inv, Format;
    FormatEmpties(entries, sectors);
  }

  lemma BooksOf(s: State, b: Books)
    requires Inv(s, b)
    ensures HasBooks(s)
  {
    hide Inv;
  }

  lemma StaleByte(y: System, b: Books, x: byte)
    requires Sane(y) && Inv(y.s, b) && Blank(y.s) && y.open == map[0 := FIRST_HANDLE]
    ensures Allowed(y, WriteFile(0, [x])) && !HasBooks(Halfway(y, WriteFile(0, [x])))
    ensures var s := Step(y, WriteFile(0, [x])).y.s; Init(s.dir, s.data).usedSectors != s.usedSectors
  {
    hide Inv, Write, Init, Extend, Usable;
    var fh := FIRST_HANDLE;
    BlankTakes(y.s, fh);
    ErasedLeaks(y.s, b, fh, [x]);
    ExtendUsable(y.s, fh);
    WritesOn(y.s, fh, [x]);
    SectorRound(y.s, fh, [x], 0);
    var z := Store(Extend(y.s, fh).s, Extend(y.s, fh).fh, [x][..1]);
    WriteLoopEnds(z.s, z.fh, [x][1..], 1);
  }

  lemma BlankTakes(s: State, fh: Handle)
    requires Blank(s) && fh == FIRST_HANDLE
    ensures Usable(s, fh) && Extend(s, fh).error == Ok
  {
    hide NextFree;
    NextFreeFrom(s.usedSectors, 0);
    assert !s.usedSectors[0];
    assert MaxSectors(s.dir[0]) == 30;
  }

  lemma Unrolled(y: System, op: Op, rest: seq<Op>)
    requires Sane(y) && Allowed(y, op) && Runs(Step(y, op).y, rest)
    ensures Runs(y, [op] + rest) && After(y, [op] + rest) == After(Step(y, op).y, rest)
    ensures AllSafe(y, [op] + rest) <==> SafeOp(y, op) && AllSafe(Step(y, op).y, rest)
  {
    hide Step, Sane, SafeOp, Allowed;
    assert ([op] + rest)[1..] == rest;
  }

  lemma ThreeSteps(y: System, op: Op, op2: Op, op3: Op)
    requires Sane(y) && HasBooks(y.s) && Allowed(y, op) && Allowed(Step(y, op).y, op2) && Allowed(Step(Step(y, op).y, op2).y, op3)
    requires HasBooks(Step(Step(y, op).y, op2).y.s) && !HasBooks(Halfway(Step(Step(y, op).y, op2).y, op3))
    ensures Runs(y, [op, op2, op3]) && After(y, [op, op2, op3]) == Step(Step(Step(y, op).y, op2).y, op3).y
    ensures !AllSafe(y, [op, op2, op3]) && !Sound(y, [op, op2, op3])
  {
    hide Step, Sane, SafeOp, Allowed, HasBooks, Halfway, Runs, After, AllSafe, Sound;
    var y1 := Step(y, op).y;
    var y2 := Step(y1, op2).y;
    NoSteps(Step(y2, op3).y);
    assert [op3] == [op3] + [] && [op2, op3] == [op2] + [op3] && [op, op2, op3] == [op] + [op2, op3];
    Unrolled(y2, op3, []);
    Unrolled(y1, op2, [op3]);
    Unrolled(y, op, [op2, op3]);
    StepSoundIff(y2, op3);
    RunSoundIff(y, [op, op2, op3]);
  }

  lemma NoSteps(y: System)
    requires Sane(y)
    ensures Runs(y, []) && After(y, []) == y && AllSafe(y, [])
  {}
}
