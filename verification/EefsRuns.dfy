/** Whole runs of the EEPROM file system. Every run of mounting, formatting, creating, writing, closing,
    renaming and deleting does to the stored files what the same run does to a map from names to bytes, as
    long as no channel goes on writing to a file that was erased under it; and exactly which runs keep the
    invariant (src/eeprom-fs.c, src/eefs-ops.c). */
module EefsRuns {
  import opened Bits
  import opened EefsModel
  import opened EefsInvariant
  import opened EefsWrite
  import opened EefsFiles
  import opened EefsDelete
  import opened EefsMount
  import opened EefsRead
  import opened EefsDangling

  // ---- The system and what it stands for ----------------------------------------------

  type Channel = nat

  /** The file system and the handles that channels have open for writing. */
  datatype System = System(s: State, open: map<Channel, Handle>)

  /** A file being written: its name and the bytes so far. */
  datatype Draft = Draft(name: Name, bytes: seq<byte>)

  /** Named bytes, and drafts that a close will record. An open channel without a draft has lost its file. */
  datatype Catalog = Catalog(files: map<Name, seq<byte>>, drafts: map<Channel, Draft>)

  datatype Op =
    | Mount
    | Reformat
    | CreateFile(channel: Channel, name: Name)
    | WriteFile(channel: Channel, bytes: seq<byte>)
    | CloseFile(channel: Channel)
    | RenameFile(from: Name, to: Name)
    | DeleteFile(name: Name)

  /** What an operation reports: the error and the number of bytes written. */
  datatype Report = Report(error: Error, count: nat)

  datatype Stepping = Stepping(y: System, report: Report)

  /** Every open handle points into the file system. */
  ghost predicate Sane(y: System) {
    y.s.Sized() && forall ch :: ch in y.open ==> Usable(y.s, y.open[ch]) && y.open[ch].mode == WriteMode
  }

  /** A channel that is not open cannot be written to or closed, and one that is cannot be opened. */
  predicate Allowed(y: System, op: Op) {
    match op
    case CreateFile(ch, _) => ch !in y.open
    case WriteFile(ch, _) => ch in y.open
    case CloseFile(ch) => ch in y.open
    case _ => true
  }

  /** One operation. A failed write closes its file, as eefs_refill_write does. Formatting and deleting
      leave all channels open; mounting happens when the drive starts. */
  function Step(y: System, op: Op): (r: Stepping)
    requires Sane(y) && Allowed(y, op)
    ensures Sane(r.y)
  {
    match op
    case Mount => Stepping(System(Init(y.s.dir, y.s.data), map[]), Report(Ok, 0))
    case Reformat => Stepping(System(Format(|y.s.dir|, |y.s.data|), y.open), Report(Ok, 0))
    case CreateFile(ch, name) =>
      var o := Create(y.s, name);
      if o.error == Ok then Stepping(System(o.s, y.open[ch := o.fh]), Report(Ok, 0))
      else Stepping(System(o.s, y.open), Report(o.error, 0))
    case WriteFile(ch, bytes) =>
      var w := Write(y.s, y.open[ch], bytes);
      if w.error == Ok then Stepping(System(w.s, y.open[ch := w.fh]), Report(Ok, w.count))
      else Stepping(System(Close(w.s, w.fh), y.open - {ch}), Report(w.error, w.count))
    case CloseFile(ch) => Stepping(System(Close(y.s, y.open[ch]), y.open - {ch}), Report(Ok, 0))
    case RenameFile(from, to) =>
      var r := Rename(y.s, from, to);
      Stepping(System(r.s, y.open), Report(r.error, 0))
    case DeleteFile(name) =>
      var r := Delete(y.s, name);
      Stepping(System(r.s, y.open), Report(r.error, 0))
  }

  /** The same operation on named bytes; the report says whether the device had room. */
  function Effect(c: Catalog, op: Op, report: Report): Catalog {
    match op
    case Mount => Catalog(c.files, map[])
    case Reformat => Catalog(map[], map[])
    case CreateFile(ch, name) =>
      if report.error != Ok then c
      else Catalog(c.files[name := []], c.drafts[ch := Draft(name, [])])
    case WriteFile(ch, bytes) =>
      if ch !in c.drafts || report.count > |bytes| then c
      else
        var d := c.drafts[ch];
        var longer := d.bytes + bytes[..report.count];
        if report.error == Ok then c.(drafts := c.drafts[ch := Draft(d.name, longer)])
        else Catalog(c.files[d.name := longer], c.drafts - {ch})
    case CloseFile(ch) =>
      if ch !in c.drafts then c else Catalog(c.files[c.drafts[ch].name := c.drafts[ch].bytes], c.drafts - {ch})
    case RenameFile(from, to) =>
      if report.error != Ok || from !in c.files then c
      else Catalog((c.files - {from})[to := c.files[from]],
                   map ch | ch in c.drafts :: if c.drafts[ch].name == from then Draft(to, c.drafts[ch].bytes) else c.drafts[ch])
    case DeleteFile(name) =>
      if report.error != Ok then c
      else Catalog(c.files - {name}, map ch | ch in c.drafts && c.drafts[ch].name != name :: c.drafts[ch])
  }

  /** Nothing is done through a channel that has lost its file but storing in a free sector and recording
      a size in an erased entry. */
  ghost predicate Clean(y: System, c: Catalog, op: Op)
    requires Sane(y) && Allowed(y, op)
  {
    match op
    case WriteFile(ch, bytes) =>
      ch in c.drafts ||
      var fh := y.open[ch];
      && !Allocates(y.s, fh, bytes)
      && (fh.soffset > 0 && bytes != [] ==> !y.s.usedSectors[fh.sector])
      && (|bytes| > Room(fh.soffset) ==> !Live(y.s.dir[fh.entry]))
    case CloseFile(ch) => ch in c.drafts || !Live(y.s.dir[y.open[ch].entry])
    case _ => true
  }

  /** When an operation must fail, and when it must not. Only creating and writing can run out of room,
      and a write that does stores what it counts. */
  predicate Rightly(c: Catalog, op: Op, report: Report) {
    match op
    case CreateFile(_, name) => (report.error == FileExists <==> name in c.files) && (report.error == Ok || report.error == FileExists || report.error == DirFull)
    case WriteFile(h, bytes) =>
      && (report.error == Ok || report.error == DiskFull || report.error == DirFull)
      && (report.error == Ok ==> report.count == |bytes|) && report.count <= |bytes|
    case RenameFile(from, to) =>
      report.error == if to in c.files then FileExists else if from in c.files then Ok else FileNotFound
    case DeleteFile(name) => report.error == if name in c.files then Ok else FileNotFound
    case _ => report.error == Ok
  }

  /** An error that room ran out is true. */
  ghost predicate RanOut(s: State, error: Error) {
    && (error == DiskFull ==> forall i :: 0 <= i < |s.usedSectors| ==> s.usedSectors[i])
    && (error == DirFull ==> forall i :: 0 <= i < |s.usedEntries| ==> s.usedEntries[i])
  }

  // ---- The connection --------------------------------------------------------------------

  ghost predicate FilesMatch(s: State, b: Books, files: map<Name, seq<byte>>) {
    && s.Sized()
    && (forall h :: h in b.files ==> FileMatches(s, b, files, h))
    && (forall n :: n in files ==> Find(s.dir, n) != NONE)
  }

  ghost predicate FileMatches(s: State, b: Books, files: map<Name, seq<byte>>, h: byte) {
    Readable(s, b, h) && NameOf(s.dir[h]) in files && files[NameOf(s.dir[h])] == Stored(s, b, h)
  }

  ghost predicate DraftMatches(s: State, b: Books, h: byte, fh: Handle, d: Draft) {
    && fh.entry == h && h as int < |s.dir| && AtEnd(b, fh) && HasContents(s, b, h, fh.size, d.bytes)
    && d.name == NameOf(s.dir[h]) && SizeOf(s.dir[h]) <= fh.size
  }

  /** Every draft is the file of its channel, and no two channels have the same file. */
  ghost predicate DraftsMatch(s: State, b: Books, open: map<Channel, Handle>, drafts: map<Channel, Draft>) {
    && drafts.Keys <= open.Keys
    && (forall ch :: ch in drafts ==> DraftMatches(s, b, open[ch].entry, open[ch], drafts[ch]))
    && Apart(open, drafts)
  }

  predicate Apart(open: map<Channel, Handle>, drafts: map<Channel, Draft>)
    requires drafts.Keys <= open.Keys
  {
    forall ch, ch2 :: ch in drafts && ch2 in drafts && open[ch].entry == open[ch2].entry ==> ch == ch2
  }

  /** No draft is the file that starts at entry h. */
  predicate NoDraft(open: map<Channel, Handle>, drafts: map<Channel, Draft>, h: byte) {
    drafts.Keys <= open.Keys && forall ch :: ch in drafts ==> open[ch].entry != h
  }

  /** The invariant holds, and the catalog says what is stored. */
  ghost predicate Represents(y: System, b: Books, c: Catalog) {
    Sane(y) && Inv(y.s, b) && FilesMatch(y.s, b, c.files) && DraftsMatch(y.s, b, y.open, c.drafts)
  }

  /** What reading a file delivers. */
  datatype Observation = Missing | Content(bytes: seq<byte>) | Broken

  function Observe(s: State, name: Name, lengths: seq<nat>): Observation
    requires s.Sized()
  {
    var o := OpenRead(s, name);
    if o.error != Ok then Missing
    else
      var r := ReadAll(s, o.fh, lengths);
      if r.Bytes? then Content(r.bytes) else Broken
  }

  /** The first n bytes, or all if there are not so many. */
  function Front(bytes: seq<byte>, n: nat): seq<byte> {
    if n < |bytes| then bytes[..n] else bytes
  }

  /** Reading agrees with the catalog: any sequence of reads delivers the bytes recorded under the name,
      as far as it goes. */
  lemma ObserveCatalog(y: System, b: Books, c: Catalog, name: Name, lengths: seq<nat>)
    requires Represents(y, b, c)
    ensures Observe(y.s, name, lengths) ==
            if name !in c.files then Missing else Content(Front(c.files[name], Sum(lengths)))
  {
    hide Inv, Find, Stored, Readable, ReadAll, OpenRead, DraftsMatch, Sectors, SizeOf;
    OpenReadStands(y.s, b, name);
    FindSpec(y.s, b, name);
    var h := Find(y.s.dir, name);
    if h != NONE {
      assert FileMatches(y.s, b, c.files, h);
      StoredLength(y.s, b, h);
      ReadsConcatenate(y.s, b, OpenRead(y.s, name).fh, lengths);
      OpenSize(y.s, b, OpenRead(y.s, name).fh);
    }
  }

  lemma StoredLength(s: State, b: Books, h: byte)
    requires Readable(s, b, h)
    ensures h as int < |s.dir| && |Stored(s, b, h)| == SizeOf(s.dir[h])
  {}

  lemma OpenSize(s: State, b: Books, fh: Handle)
    requires Reading(s, b, fh)
    ensures fh.entry as int < |s.dir| && fh.size == SizeOf(s.dir[fh.entry])
  {}

  // ---- What stays the same ------------------------------------------------------------------

  /** A file with the same sectors, the same bytes in them and the same recorded size. */
  lemma StoredSame(s: State, b: Books, t: State, c: Books, h: byte)
    requires Readable(s, b, h) && h in c.files && c.files[h] == b.files[h] && h as int < |t.dir|
    requires SizeOf(t.dir[h]) == SizeOf(s.dir[h]) && InRange(t.data, Sectors(b.files[h]))
    requires Concat(t.data, Sectors(b.files[h])) == Concat(s.data, Sectors(b.files[h]))
    ensures Readable(t, c, h) && Stored(t, c, h) == Stored(s, b, h)
  {}

  /** A draft whose file is not touched. */
  lemma DraftSame(s: State, b: Books, t: State, c: Books, h: byte, fh: Handle, d: Draft, name: Name)
    requires DraftMatches(s, b, h, fh, d) && h in c.files && c.files[h] == b.files[h] && h as int < |t.dir|
    requires SizeOf(t.dir[h]) == SizeOf(s.dir[h]) && NameOf(t.dir[h]) == name && InRange(t.data, Sectors(b.files[h]))
    requires Concat(t.data, Sectors(b.files[h])) == Concat(s.data, Sectors(b.files[h]))
    ensures DraftMatches(t, c, h, fh, Draft(name, d.bytes))
  {
    hide Sectors, Concat, InRange;
  }

  lemma DraftFile(s: State, b: Books, h: byte, fh: Handle, d: Draft)
    requires DraftMatches(s, b, h, fh, d)
    ensures h in b.files && fh.entry == h && h as int < |s.dir| && InRange(s.data, Sectors(b.files[h]))
    ensures AtEnd(b, fh) && HasContents(s, b, h, fh.size, d.bytes) && fh.mode == WriteMode && fh.size <= SECTOR_SIZE * |Sectors(b.files[h])|
    ensures d.name == NameOf(s.dir[h]) && SizeOf(s.dir[h]) <= fh.size
  {
    hide Sectors, Concat;
  }

  lemma NamesFound(s: State, b: Books, files: map<Name, seq<byte>>, h: byte, n: Name)
    requires Inv(s, b) && FilesMatch(s, b, files)
    ensures n in files <==> Find(s.dir, n) != NONE
    ensures Find(s.dir, n) != NONE ==> Find(s.dir, n) in b.files
    ensures h in b.files && h as int < |s.dir| && NameOf(s.dir[h]) == n ==> Find(s.dir, n) == h
  {
    hide Inv, Find, Stored, Readable;
    FindSpec(s, b, n);
    var r := Find(s.dir, n);
    if r != NONE {
      assert FileMatches(s, b, files, r);
    }
  }

  // ---- Mounting, formatting -----------------------------------------------------------------

  lemma MountRefines(y: System, b: Books, c: Catalog)
    requires Represents(y, b, c)
    ensures Represents(Step(y, Mount).y, b, Effect(c, Mount, Step(y, Mount).report))
  {
    hide Inv, Find, Sectors, Concat, Init, DraftsMatch, SizeOf;
    MountRebuilds(y.s, b);
    var t := Init(y.s.dir, y.s.data);
    forall h | h in b.files ensures FileMatches(t, b, c.files, h) {
      assert FileMatches(y.s, b, c.files, h);
      StoredSame(y.s, b, t, b, h);
    }
    NoDrafts(t, b, map[]);
  }

  lemma NoDrafts(s: State, b: Books, open: map<Channel, Handle>)
    ensures DraftsMatch(s, b, open, map[])
  {}

  lemma FormatRefines(y: System, b: Books, c: Catalog)
    requires Represents(y, b, c)
    ensures var t := Step(y, Reformat);
            Represents(t.y, NoFiles(|y.s.dir|, |y.s.data|), Effect(c, Reformat, t.report))
  {
    hide Inv, Find, Format, DraftsMatch;
    FormatEmpties(|y.s.dir|, |y.s.data|);
    NoDrafts(Format(|y.s.dir|, |y.s.data|), NoFiles(|y.s.dir|, |y.s.data|), y.open);
  }

  // ---- Creating ---------------------------------------------------------------------------------

  lemma CreateRefines(y: System, b: Books, c: Catalog, ch: Channel, name: Name) returns (b2: Books)
    requires Represents(y, b, c) && Allowed(y, CreateFile(ch, name))
    ensures var t := Step(y, CreateFile(ch, name));
            && Represents(t.y, b2, Effect(c, CreateFile(ch, name), t.report)) && Rightly(c, CreateFile(ch, name), t.report)
            && RanOut(t.y.s, t.report.error)
  {
    hide Inv, Find, Sectors, Concat, Create, DraftMatches, AtEnd, SameHeads, Readable, Stored, HasContents, Apart;
    b2 := CreateKeeps(y.s, b, name);
    FindSpec(y.s, b, name);
    NamesFound(y.s, b, c.files, 0, name);
    var o := Create(y.s, name);
    if o.error == Ok {
      CreateFilesMatch(y, b, c, name, o, b2);
      CreateDraftsMatch(y, b, c, ch, name, o, b2);
    } else if o.error != FileExists {
      forall h | h in b.files && h as int < |y.s.dir| ensures NameOf(y.s.dir[h]) != name {
      }
    } else {
      var h :| h in b.files && h as int < |y.s.dir| && NameOf(y.s.dir[h]) == name;
    }
  }

  /** What CreateKeeps says about a success. */
  ghost predicate Created(s: State, b: Books, name: Name, o: Opened, c: Books) {
    var e := o.fh.entry;
    && e as int < |s.dir| && |b.entryOwner| == |s.dir| && e !in b.files && Inv(o.s, c) && c == AddFile(b, e)
    && AtEnd(c, o.fh) && o.fh.size == 0 && NameOf(o.s.dir[e]) == name && HasContents(o.s, c, e, 0, [])
    && o.s.data == s.data && SameHeads(s, o.s, b)
  }

  lemma CreateFilesMatch(y: System, b: Books, c: Catalog, name: Name, o: Opened, b2: Books)
    requires Represents(y, b, c) && name !in c.files && o.error == Ok
    requires |b.entryOwner| == |y.s.dir| && Created(y.s, b, name, o, b2) && SizeOf(o.s.dir[o.fh.entry]) == 0
    ensures FilesMatch(o.s, b2, c.files[name := []])
  {
    hide Inv, Find, Sectors, Concat, DraftsMatch, SizeOf, AtEnd;
    var files, e := c.files[name := []], o.fh.entry;
    Inside(o.s, b2);
    forall h | h in b2.files ensures FileMatches(o.s, b2, files, h) {
      if h != e {
        assert FileMatches(y.s, b, c.files, h);
        StoredSame(y.s, b, o.s, b2, h);
      } else {
        FilesReadable(o.s, b2, e);
        assert Stored(o.s, b2, e) == [];
      }
    }
    forall n | n in files ensures Find(o.s.dir, n) != NONE {
      FindSpec(o.s, b2, n);
      if n != name {
        NamesFound(y.s, b, c.files, 0, n);
        FindSpec(y.s, b, n);
        FilesReadable(y.s, b, Find(y.s.dir, n));
      }
    }
  }

  lemma CreateDraftsMatch(y: System, b: Books, c: Catalog, ch: Channel, name: Name, o: Opened, b2: Books)
    requires Represents(y, b, c) && ch !in y.open
    requires |b.entryOwner| == |y.s.dir| && Created(y.s, b, name, o, b2) && SizeOf(o.s.dir[o.fh.entry]) == 0
    ensures DraftsMatch(o.s, b2, y.open[ch := o.fh], c.drafts[ch := Draft(name, [])])
  {
    hide Inv, Find, Sectors, Concat, DraftMatches, SizeOf, AtEnd, HasContents, FilesMatch;
    NewDraft(o, b2, name);
    forall x | x in c.drafts ensures y.open[x].entry != o.fh.entry && DraftMatches(o.s, b2, y.open[x].entry, y.open[x], c.drafts[x]) {
      DraftFile(y.s, b, y.open[x].entry, y.open[x], c.drafts[x]);
      DraftSame(y.s, b, o.s, b2, y.open[x].entry, y.open[x], c.drafts[x], c.drafts[x].name);
    }
  }

  lemma NewDraft(o: Opened, b2: Books, name: Name)
    requires var e := o.fh.entry;
             e as int < |o.s.dir| && AtEnd(b2, o.fh) && NameOf(o.s.dir[e]) == name && HasContents(o.s, b2, e, 0, []) && o.fh.size == 0
             && SizeOf(o.s.dir[e]) == 0
    ensures DraftMatches(o.s, b2, o.fh.entry, o.fh, Draft(name, []))
  {
    hide Sectors, Concat, AtEnd, HasContents;
  }

  // ---- Closing ----------------------------------------------------------------------------------------

  /** Recording a size, for a handle at its end or after a failed write. */
  lemma CloseRefines(s: State, b: Books, files: map<Name, seq<byte>>, open: map<Channel, Handle>, drafts: map<Channel, Draft>,
                     fh: Handle, bytes: seq<byte>)
    requires Inv(s, b) && FilesMatch(s, b, files) && DraftsMatch(s, b, open, drafts)
    requires NoDraft(open, drafts, fh.entry) && fh.mode == WriteMode && fh.entry as int < |s.dir| && HasContents(s, b, fh.entry, fh.size, bytes)
    ensures var t := Close(s, fh);
            Inv(t, b) && FilesMatch(t, b, files[NameOf(s.dir[fh.entry]) := bytes]) && DraftsMatch(t, b, open, drafts)
  {
    hide Inv, Find, Sectors, Concat, Close, SizeOf, FilesMatch, DraftMatches, Apart;
    CloseKeeps(s, b, fh);
    var t, h := Close(s, fh), fh.entry;
    CloseFilesMatch(s, b, files, t, fh, bytes);
    forall x | x in drafts ensures DraftMatches(t, b, open[x].entry, open[x], drafts[x]) {
      DraftFile(s, b, open[x].entry, open[x], drafts[x]);
      DraftSame(s, b, t, b, open[x].entry, open[x], drafts[x], drafts[x].name);
    }
  }

  lemma CloseFilesMatch(s: State, b: Books, files: map<Name, seq<byte>>, t: State, fh: Handle, bytes: seq<byte>)
    requires Inv(s, b) && FilesMatch(s, b, files) && Inv(t, b) && OnlyHead(s, t, fh.entry)
    requires HasContents(s, b, fh.entry, fh.size, bytes)
    requires SizeOf(t.dir[fh.entry]) == fh.size && NameOf(t.dir[fh.entry]) == NameOf(s.dir[fh.entry])
    ensures FilesMatch(t, b, files[NameOf(s.dir[fh.entry]) := bytes])
  {
    hide Inv, Find, Sectors, Concat, SizeOf;
    Inside(t, b);
    var h := fh.entry;
    var after := files[NameOf(s.dir[h]) := bytes];
    forall x | x in b.files ensures FileMatches(t, b, after, x) {
      assert FileMatches(s, b, files, x);
      if x != h {
        NamesFound(s, b, files, x, NameOf(s.dir[x]));
        NamesFound(s, b, files, h, NameOf(s.dir[h]));
        StoredSame(s, b, t, b, x);
      }
    }
    forall n | n in after ensures Find(t.dir, n) != NONE {
      StillNamed(s, b, files, t, b, n, h);
    }
  }

  /** A name that a file had and still has is still found. */
  lemma StillNamed(s: State, b: Books, files: map<Name, seq<byte>>, t: State, c: Books, n: Name, h: byte)
    requires Inv(s, b) && FilesMatch(s, b, files) && Inv(t, c)
    requires n in files || (h in b.files && h as int < |s.dir| && NameOf(s.dir[h]) == n)
    requires forall x :: x in b.files && x as int < |s.dir| && NameOf(s.dir[x]) == n ==> x in c.files && x as int < |t.dir| && NameOf(t.dir[x]) == n
    ensures Find(t.dir, n) != NONE
  {
    hide Inv, Find, Readable, Stored;
    Inside(s, b);
    Inside(t, c);
    FindSpec(s, b, n);
    FindSpec(t, c, n);
    var r := Find(s.dir, n);
    if r != NONE {
      FilesReadable(s, b, r);
      assert Readable(s, b, r);
      HeadIndex(s, b, r);
    }
  }

  lemma HeadIndex(s: State, b: Books, h: byte)
    requires Readable(s, b, h)
    ensures h as int < |s.dir|
  {}

  /** Without one channel, the drafts of the others still match, and none is that channel's file. */
  lemma OtherDrafts(s: State, b: Books, open: map<Channel, Handle>, drafts: map<Channel, Draft>, ch: Channel)
    requires DraftsMatch(s, b, open, drafts) && ch in drafts
    ensures ch in open && DraftMatches(s, b, open[ch].entry, open[ch], drafts[ch])
    ensures DraftsMatch(s, b, open - {ch}, drafts - {ch}) && NoDraft(open - {ch}, drafts - {ch}, open[ch].entry)
  {
    hide DraftMatches;
  }

  /** eepromfs_close records the draft under its name. */
  lemma CloseFileRefines(y: System, b: Books, c: Catalog, ch: Channel)
    requires Represents(y, b, c) && ch in c.drafts && Allowed(y, CloseFile(ch))
    ensures var t := Step(y, CloseFile(ch));
            Represents(t.y, b, Effect(c, CloseFile(ch), t.report))
  {
    hide Inv, Find, Sectors, Close, FilesMatch, DraftMatches, HasContents, DraftsMatch, NoDraft;
    var fh, d := y.open[ch], c.drafts[ch];
    OtherDrafts(y.s, b, y.open, c.drafts, ch);
    DraftFile(y.s, b, fh.entry, fh, d);
    CloseRefines(y.s, b, c.files, y.open - {ch}, c.drafts - {ch}, fh, d.bytes);
  }

  // ---- Writing --------------------------------------------------------------------------------------------

  /** The files as they were: what was written is in no file until it is closed. */
  lemma WriteFilesMatch(s: State, b: Books, files: map<Name, seq<byte>>, fh: Handle, d: Draft, t: State, c: Books, th: Handle, bytes: seq<byte>, n: nat)
    requires Inv(s, b) && FilesMatch(s, b, files) && DraftMatches(s, b, fh.entry, fh, d)
    requires Appended(s, b, fh, t, c, th, d.bytes, bytes, n)
    ensures FilesMatch(t, c, files)
  {
    hide Inv, Find, Sectors, Concat, SizeOf, AtEnd, Stored, Readable, SameHeads, OthersSame, HasContents;
    Inside(t, c);
    var h := fh.entry;
    OthersKeys(s, b, t, c, h);
    forall x | x in b.files ensures FileMatches(t, c, files, x) {
      assert FileMatches(s, b, files, x);
      WriteFileMatches(s, b, files, fh, d, t, c, th, bytes, n, x);
    }
    forall x | x in files ensures Find(t.dir, x) != NONE {
      HeadsStay(s, b, t, c);
      StillNamed(s, b, files, t, c, x, h);
    }
  }

  lemma HeadsStay(s: State, b: Books, t: State, c: Books)
    requires Inv(s, b) && SameHeads(s, t, b) && c.files.Keys == b.files.Keys
    ensures forall x :: x in b.files && x as int < |s.dir| ==> x in c.files && x as int < |t.dir| && NameOf(t.dir[x]) == NameOf(s.dir[x])
  {
    hide Inv;
  }

  lemma WriteFileMatches(s: State, b: Books, files: map<Name, seq<byte>>, fh: Handle, d: Draft, t: State, c: Books, th: Handle,
                         bytes: seq<byte>, n: nat, x: byte)
    requires Inv(s, b) && DraftMatches(s, b, fh.entry, fh, d) && x in b.files && FileMatches(s, b, files, x)
    requires Appended(s, b, fh, t, c, th, d.bytes, bytes, n)
    ensures FileMatches(t, c, files, x)
  {
    hide Inv, Sectors, Concat, SizeOf, AtEnd, InRange;
    var h := fh.entry;
    if x != h {
      StoredSame(s, b, t, c, x);
    } else {
      FilesReadable(t, c, h);
      var ss, ss2, size := Sectors(b.files[h]), Sectors(c.files[h]), SizeOf(s.dir[h]);
      assert Concat(s.data, ss)[..fh.size][..size] == Concat(s.data, ss)[..size];
      assert Concat(t.data, ss2)[..th.size][..size] == Concat(t.data, ss2)[..size];
    }
  }

  /** Other drafts as they were. */
  lemma WriteDraftsMatch(s: State, b: Books, open: map<Channel, Handle>, drafts: map<Channel, Draft>, fh: Handle, d: Draft,
                         t: State, c: Books, th: Handle, bytes: seq<byte>, n: nat)
    requires DraftsMatch(s, b, open, drafts) && NoDraft(open, drafts, fh.entry)
    requires Appended(s, b, fh, t, c, th, d.bytes, bytes, n)
    ensures DraftsMatch(t, c, open, drafts)
  {
    hide Inv, Find, Sectors, Concat, SizeOf, AtEnd, DraftMatches, HasContents, InRange, Apart;
    forall x | x in drafts ensures DraftMatches(t, c, open[x].entry, open[x], drafts[x]) {
      DraftFile(s, b, open[x].entry, open[x], drafts[x]);
      DraftSame(s, b, t, c, open[x].entry, open[x], drafts[x], drafts[x].name);
    }
  }

  /** The draft that was written to. */
  lemma LongerDraft(s: State, b: Books, fh: Handle, d: Draft, t: State, c: Books, th: Handle, bytes: seq<byte>, n: nat)
    requires DraftMatches(s, b, fh.entry, fh, d) && Appended(s, b, fh, t, c, th, d.bytes, bytes, n)
    ensures fh.entry as int < |t.dir| && NameOf(t.dir[fh.entry]) == d.name && SizeOf(t.dir[fh.entry]) <= th.size && th.entry == fh.entry
    ensures HasContents(t, c, fh.entry, th.size, d.bytes + bytes[..n]) && th.mode == WriteMode
    ensures AtEnd(c, th) ==> DraftMatches(t, c, fh.entry, th, Draft(d.name, d.bytes + bytes[..n]))
  {
    hide Inv, Sectors, HasContents, OthersSame, Concat;
  }

  /** eepromfs_write extends the draft by the bytes it counts; when it runs out of room the file is closed
      with what it has. */
  lemma WriteRefines(y: System, b: Books, c: Catalog, ch: Channel, bytes: seq<byte>) returns (b2: Books)
    requires Represents(y, b, c) && ch in c.drafts && Allowed(y, WriteFile(ch, bytes))
    ensures var t := Step(y, WriteFile(ch, bytes));
            && Represents(t.y, b2, Effect(c, WriteFile(ch, bytes), t.report)) && Rightly(c, WriteFile(ch, bytes), t.report)
            && RanOut(t.y.s, t.report.error)
  {
    hide Inv, Find, Sectors, WriteLoop, FilesMatch, DraftMatches, HasContents, AtEnd, Appended, Closable, DraftsMatch, NoDraft;
    var fh, d := y.open[ch], c.drafts[ch];
    var others, drafts := y.open - {ch}, c.drafts - {ch};
    OtherDrafts(y.s, b, y.open, c.drafts, ch);
    DraftFile(y.s, b, fh.entry, fh, d);
    b2 := WriteKeeps(y.s, b, fh, bytes, 0, d.bytes);
    var w := Write(y.s, fh, bytes);
    AppendedCount(y.s, b, fh, w.s, b2, w.fh, d.bytes, bytes, w.count);
    WriteFilesMatch(y.s, b, c.files, fh, d, w.s, b2, w.fh, bytes, w.count);
    WriteDraftsMatch(y.s, b, others, drafts, fh, d, w.s, b2, w.fh, bytes, w.count);
    LongerDraft(y.s, b, fh, d, w.s, b2, w.fh, bytes, w.count);
    if w.error == Ok {
      DraftBack(w.s, b2, others, drafts, ch, w.fh, Draft(d.name, d.bytes + bytes[..w.count]));
      assert others[ch := w.fh] == y.open[ch := w.fh];
      assert drafts[ch := Draft(d.name, d.bytes + bytes[..w.count])] == c.drafts[ch := Draft(d.name, d.bytes + bytes[..w.count])];
    } else {
      CloseRefines(w.s, b2, c.files, others, drafts, w.fh, d.bytes + bytes[..w.count]);
      assert w.s.usedSectors == Close(w.s, w.fh).usedSectors;
    }
  }

  lemma AppendedCount(s: State, b: Books, fh: Handle, t: State, c: Books, th: Handle, before: seq<byte>, bytes: seq<byte>, n: nat)
    requires Appended(s, b, fh, t, c, th, before, bytes, n)
    ensures n <= |bytes| && Inv(t, c) && t.Sized()
  {}

  lemma DraftBack(s: State, b: Books, open: map<Channel, Handle>, drafts: map<Channel, Draft>, ch: Channel, fh: Handle, d: Draft)
    requires DraftsMatch(s, b, open, drafts) && DraftMatches(s, b, fh.entry, fh, d) && NoDraft(open, drafts, fh.entry) && ch !in drafts
    ensures DraftsMatch(s, b, open[ch := fh], drafts[ch := d])
  {
    hide DraftMatches;
  }

  // ---- Renaming ------------------------------------------------------------------------------------------------

  lemma RenameFilesMatch(s: State, b: Books, files: map<Name, seq<byte>>, t: State, h: byte, from: Name, to: Name)
    requires Inv(s, b) && Inv(t, b) && FilesMatch(s, b, files) && OnlyHead(s, t, h) && h in b.files
    requires NameOf(s.dir[h]) == from && NameOf(t.dir[h]) == to && SizeOf(t.dir[h]) == SizeOf(s.dir[h])
    requires from in files && to !in files
    ensures FilesMatch(t, b, (files - {from})[to := files[from]])
  {
    hide Inv, Find, Sectors, Concat, SizeOf;
    Inside(t, b);
    var after := (files - {from})[to := files[from]];
    forall x | x in b.files ensures FileMatches(t, b, after, x) {
      assert FileMatches(s, b, files, x);
      StoredSame(s, b, t, b, x);
      if x != h {
        NamesFound(s, b, files, x, NameOf(s.dir[x]));
        NamesFound(s, b, files, h, from);
      }
    }
    forall n | n in after ensures Find(t.dir, n) != NONE {
      if n == to {
        FindSpec(t, b, to);
      } else {
        StillNamed(s, b, files, t, b, n, h);
      }
    }
  }

  lemma RenameDraftsMatch(y: System, b: Books, c: Catalog, t: State, h: byte, from: Name, to: Name)
    requires Inv(y.s, b) && DraftsMatch(y.s, b, y.open, c.drafts) && OnlyHead(y.s, t, h) && h in b.files
    requires NameOf(y.s.dir[h]) == from && NameOf(t.dir[h]) == to && SizeOf(t.dir[h]) == SizeOf(y.s.dir[h])
    ensures DraftsMatch(t, b, y.open, map x | x in c.drafts :: if c.drafts[x].name == from then Draft(to, c.drafts[x].bytes) else c.drafts[x])
  {
    hide Inv, Sectors, Concat, SizeOf, AtEnd, HasContents, DraftMatches;
    OtherNames(y.s, b, h);
    var drafts := map x | x in c.drafts :: if c.drafts[x].name == from then Draft(to, c.drafts[x].bytes) else c.drafts[x];
    forall x | x in c.drafts ensures DraftMatches(t, b, y.open[x].entry, y.open[x], drafts[x]) {
      var e := y.open[x].entry;
      DraftFile(y.s, b, e, y.open[x], c.drafts[x]);
      DraftSame(y.s, b, t, b, e, y.open[x], c.drafts[x], NameOf(t.dir[e]));
    }
  }

  lemma RenameRefines(y: System, b: Books, c: Catalog, from: Name, to: Name)
    requires Represents(y, b, c)
    ensures var t := Step(y, RenameFile(from, to));
            Represents(t.y, b, Effect(c, RenameFile(from, to), t.report)) && Rightly(c, RenameFile(from, to), t.report)
  {
    hide Inv, Find, Sectors, Rename, FilesMatch, DraftsMatch, OnlyHead, SizeOf;
    RenameKeeps(y.s, b, from, to);
    NamesFound(y.s, b, c.files, 0, from);
    NamesFound(y.s, b, c.files, 0, to);
    var r, h := Rename(y.s, from, to), Find(y.s.dir, from);
    if r.error == Ok {
      RenameFilesMatch(y.s, b, c.files, r.s, h, from, to);
      RenameDraftsMatch(y, b, c, r.s, h, from, to);
      Inside(r.s, b);
    }
  }

  // ---- Deleting -------------------------------------------------------------------------------------------------

  lemma OthersLeft(s: State, b: Books, h: byte, t: State)
    requires Inv(s, b) && h in b.files && Gone(s, b, h, t)
    ensures |t.dir| == |s.dir| && t.data == s.data
    ensures forall x :: x in b.files && x != h ==>
              x as int < |s.dir| && t.dir[x] == s.dir[x] && x in RemoveFile(b, h).files && RemoveFile(b, h).files[x] == b.files[x]
  {
    hide Inv, Sectors, Gone, RemoveFile;
    SameSizes(s, b, h, t);
    forall x | x in b.files && x != h
      ensures x as int < |s.dir| && t.dir[x] == s.dir[x] && x in RemoveFile(b, h).files && RemoveFile(b, h).files[x] == b.files[x]
    {
      HeadOwner(s, b, x);
      EntryLeft(s, b, h, t, x as int);
      FileLeft(b, h, x);
    }
  }

  lemma SameSizes(s: State, b: Books, h: byte, t: State)
    requires Gone(s, b, h, t)
    ensures |t.dir| == |s.dir| && t.data == s.data
  {}

  lemma EntryLeft(s: State, b: Books, h: byte, t: State, i: nat)
    requires Gone(s, b, h, t) && i < |s.dir| && i < |b.entryOwner| && b.entryOwner[i].Owned? && b.entryOwner[i].head != h
    ensures i < |t.dir| && t.dir[i] == s.dir[i]
  {}

  lemma FileLeft(b: Books, h: byte, x: byte)
    requires x in b.files && x != h
    ensures x in RemoveFile(b, h).files && RemoveFile(b, h).files[x] == b.files[x]
  {}

  lemma HeadOwner(s: State, b: Books, x: byte)
    requires Inv(s, b) && x in b.files
    ensures x as int < |s.dir| && x as int < |b.entryOwner| && b.entryOwner[x] == Owned(x, 0)
  {
    hide CountFree, Sectors, FilesOk, SectorsOk, NamesOk;
    FirstEntry(s, b, x);
  }

  lemma DeleteFilesMatch(s: State, b: Books, files: map<Name, seq<byte>>, t: State, h: byte, name: Name)
    requires Inv(s, b) && h in b.files && Gone(s, b, h, t) && Inv(t, RemoveFile(b, h)) && FilesMatch(s, b, files)
    requires h as int < |s.dir| && NameOf(s.dir[h]) == name
    ensures FilesMatch(t, RemoveFile(b, h), files - {name})
  {
    hide Inv, Find, Sectors, Concat, SizeOf, Gone;
    var c := RemoveFile(b, h);
    OthersLeft(s, b, h, t);
    Inside(t, c);
    OtherNames(s, b, h);
    forall x | x in c.files ensures FileMatches(t, c, files - {name}, x) {
      assert FileMatches(s, b, files, x);
      StoredSame(s, b, t, c, x);
    }
    forall n | n in files - {name} ensures Find(t.dir, n) != NONE {
      StillNamed(s, b, files, t, c, n, h);
    }
  }

  lemma DeleteDraftsMatch(s: State, b: Books, open: map<Channel, Handle>, drafts: map<Channel, Draft>, t: State, h: byte, name: Name)
    requires Inv(s, b) && h in b.files && Gone(s, b, h, t) && DraftsMatch(s, b, open, drafts)
    requires h as int < |s.dir| && NameOf(s.dir[h]) == name
    ensures DraftsMatch(t, RemoveFile(b, h), open, map ch | ch in drafts && drafts[ch].name != name :: drafts[ch])
  {
    hide Inv, Sectors, Concat, SizeOf, AtEnd, HasContents, DraftMatches, Gone;
    OthersLeft(s, b, h, t);
    forall x | x in drafts && drafts[x].name != name
      ensures DraftMatches(t, RemoveFile(b, h), open[x].entry, open[x], drafts[x])
    {
      DraftFile(s, b, open[x].entry, open[x], drafts[x]);
      DraftSame(s, b, t, RemoveFile(b, h), open[x].entry, open[x], drafts[x], drafts[x].name);
    }
  }

  /** eepromfs_delete removes a name. A channel that is writing to the file stays open, without a draft. */
  lemma DeleteRefines(y: System, b: Books, c: Catalog, name: Name) returns (b2: Books)
    requires Represents(y, b, c)
    ensures var t := Step(y, DeleteFile(name));
            Represents(t.y, b2, Effect(c, DeleteFile(name), t.report)) && Rightly(c, DeleteFile(name), t.report)
  {
    hide Inv, Find, Sectors, Delete, FilesMatch, DraftsMatch, RemoveFile, Gone;
    DeleteKeeps(y.s, b, name);
    NamesFound(y.s, b, c.files, 0, name);
    FoundIsInside(y.s, b, Find(y.s.dir, name));
    var r, h := Delete(y.s, name), Find(y.s.dir, name);
    b2 := b;
    if r.error == Ok {
      b2 := RemoveFile(b, h);
      DeleteFilesMatch(y.s, b, c.files, r.s, h, name);
      DeleteDraftsMatch(y.s, b, y.open, c.drafts, r.s, h, name);
    }
  }

  // ---- Channels that have lost their file ---------------------------------------------------------------------------------

  /** Another state with the same books, whose files have the same entries and sector data. */
  lemma SameFiles(s: State, b: Books, files: map<Name, seq<byte>>, open: map<Channel, Handle>, drafts: map<Channel, Draft>, t: State)
    requires Inv(s, b) && FilesMatch(s, b, files) && DraftsMatch(s, b, open, drafts) && Inv(t, b)
    requires |t.dir| == |s.dir| && |t.data| == |s.data|
    requires forall h :: h in b.files && h as int < |s.dir| ==> t.dir[h] == s.dir[h]
    requires forall h :: h in b.files ==> InRange(s.data, Sectors(b.files[h])) && InRange(t.data, Sectors(b.files[h]))
                                          && Concat(t.data, Sectors(b.files[h])) == Concat(s.data, Sectors(b.files[h]))
    ensures FilesMatch(t, b, files) && DraftsMatch(t, b, open, drafts)
  {
    hide Inv, Find, Sectors, Concat, SizeOf, DraftMatches, Apart, InRange;
    Inside(t, b);
    forall h | h in b.files ensures FileMatches(t, b, files, h) {
      assert FileMatches(s, b, files, h);
      StoredSame(s, b, t, b, h);
    }
    forall n | n in files ensures Find(t.dir, n) != NONE {
      StillNamed(s, b, files, t, b, n, 0);
    }
    forall x | x in drafts ensures DraftMatches(t, b, open[x].entry, open[x], drafts[x]) {
      DraftFile(s, b, open[x].entry, open[x], drafts[x]);
      DraftSame(s, b, t, b, open[x].entry, open[x], drafts[x], drafts[x].name);
    }
  }

  /** A sector that is not in use is in no file. */
  lemma UnusedInNoFile(s: State, b: Books, h: byte, k: byte)
    requires Inv(s, b) && h in b.files
    ensures InRange(s.data, Sectors(b.files[h]))
    ensures k as int < |s.data| && !s.usedSectors[k] ==> k !in Sectors(b.files[h])
  {
    hide Sectors, CountFree, FilesOk, EntriesOk, NamesOk;
    var ss := Sectors(b.files[h]);
    forall j | 0 <= j < |ss| ensures ss[j] as int < |s.data| && s.usedSectors[ss[j]] {
      assert b.sectorOwner[ss[j]] == Owned(h, j);
    }
  }

  lemma {:induction false} ConcatSame(data: seq<Sector>, after: seq<Sector>, ss: seq<byte>)
    requires InRange(data, ss) && |after| == |data| && forall j :: 0 <= j < |ss| ==> after[ss[j]] == data[ss[j]]
    ensures InRange(after, ss) && Concat(after, ss) == Concat(data, ss)
  {
    if ss != [] {
      ConcatSame(data, after, ss[..|ss| - 1]);
    }
  }

  /** Storing bytes in a sector that is not in use. */
  lemma QuietRefines(s: State, b: Books, files: map<Name, seq<byte>>, open: map<Channel, Handle>, drafts: map<Channel, Draft>, fh: Handle,
                     bytes: seq<byte>, w: Written)
    requires Inv(s, b) && FilesMatch(s, b, files) && DraftsMatch(s, b, open, drafts) && Quiet(s, fh, bytes, w)
    requires fh.soffset > 0 && bytes != [] ==> fh.sector as int < |s.data| && fh.sector as int < |s.usedSectors| && !s.usedSectors[fh.sector]
    ensures Inv(w.s, b) && FilesMatch(w.s, b, files) && DraftsMatch(w.s, b, open, drafts)
  {
    hide Inv, Find, Sectors, Concat, SizeOf, FilesMatch, DraftsMatch;
    SameBooksInv(s, b, w.s);
    forall h | h in b.files
      ensures InRange(s.data, Sectors(b.files[h])) && InRange(w.s.data, Sectors(b.files[h]))
      ensures Concat(w.s.data, Sectors(b.files[h])) == Concat(s.data, Sectors(b.files[h]))
    {
      UnusedInNoFile(s, b, h, fh.sector);
      ConcatSame(s.data, w.s.data, Sectors(b.files[h]));
    }
    SameFiles(s, b, files, open, drafts, w.s);
  }

  /** Recording a size in an erased entry. */
  lemma DeadCloseRefines(s: State, b: Books, files: map<Name, seq<byte>>, open: map<Channel, Handle>, drafts: map<Channel, Draft>, fh: Handle)
    requires Inv(s, b) && FilesMatch(s, b, files) && DraftsMatch(s, b, open, drafts)
    requires fh.entry as int < |s.dir| && fh.mode == WriteMode && !Live(s.dir[fh.entry])
    ensures var t := Close(s, fh); Inv(t, b) && FilesMatch(t, b, files) && DraftsMatch(t, b, open, drafts)
  {
    hide Inv, Find, Sectors, Concat, SizeOf, FilesMatch, DraftsMatch, WithSize, InRange;
    var t := Close(s, fh);
    SizeOnly(s.dir[fh.entry], fh.size);
    DeadChanged(s, b, fh.entry, WithSize(s.dir[fh.entry], fh.size));
    forall h | h in b.files
      ensures h as int < |s.dir| ==> t.dir[h] == s.dir[h]
      ensures InRange(s.data, Sectors(b.files[h]))
    {
      UnusedInNoFile(s, b, h, 0);
      HeadIsLive(s, b, h);
    }
    SameFiles(s, b, files, open, drafts, t);
  }

  lemma HeadIsLive(s: State, b: Books, h: byte)
    requires Inv(s, b) && h in b.files
    ensures h as int < |s.dir| && Live(s.dir[h])
  {
    hide Sectors, CountFree, SectorsOk, NamesOk, EntriesOk;
    assert PartOk(s.dir, b.files[h], 0);
  }

  /** Fewer open channels without drafts. */
  lemma StaleGone(s: State, b: Books, open: map<Channel, Handle>, drafts: map<Channel, Draft>, ch: Channel, fh: Handle)
    requires DraftsMatch(s, b, open, drafts) && ch !in drafts
    ensures DraftsMatch(s, b, open - {ch}, drafts) && DraftsMatch(s, b, open[ch := fh], drafts)
  {
    hide DraftMatches;
  }

  lemma StaleWriteRefines(y: System, b: Books, c: Catalog, ch: Channel, bytes: seq<byte>)
    requires Represents(y, b, c) && Allowed(y, WriteFile(ch, bytes)) && ch !in c.drafts && Clean(y, c, WriteFile(ch, bytes))
    ensures var t := Step(y, WriteFile(ch, bytes));
            && Represents(t.y, b, Effect(c, WriteFile(ch, bytes), t.report)) && Rightly(c, WriteFile(ch, bytes), t.report)
            && RanOut(t.y.s, t.report.error)
  {
    hide Inv, Find, FilesMatch, DraftsMatch, Write, Allocates;
    var fh := y.open[ch];
    var w := Write(y.s, fh, bytes);
    QuietWrite(y.s, fh, bytes);
    QuietRefines(y.s, b, c.files, y.open, c.drafts, fh, bytes, w);
    StaleGone(w.s, b, y.open, c.drafts, ch, w.fh);
    if w.error != Ok {
      DeadCloseRefines(w.s, b, c.files, y.open - {ch}, c.drafts, w.fh);
    }
  }

  lemma StaleCloseRefines(y: System, b: Books, c: Catalog, ch: Channel)
    requires Represents(y, b, c) && Allowed(y, CloseFile(ch)) && ch !in c.drafts && Clean(y, c, CloseFile(ch))
    ensures var t := Step(y, CloseFile(ch)); Represents(t.y, b, Effect(c, CloseFile(ch), t.report))
  {
    hide Inv, Find, FilesMatch, DraftsMatch, Close;
    StaleGone(y.s, b, y.open, c.drafts, ch, y.open[ch]);
    DeadCloseRefines(y.s, b, c.files, y.open - {ch}, c.drafts, y.open[ch]);
  }

  // ---- Every operation ----------------------------------------------------------------------------------------------------

  /** One operation: the invariant stays, the catalog keeps up, and the report is the right one. */
  lemma StepRefines(y: System, b: Books, c: Catalog, op: Op) returns (b2: Books)
    requires Represents(y, b, c) && Allowed(y, op) && Clean(y, c, op)
    ensures Represents(Step(y, op).y, b2, Effect(c, op, Step(y, op).report)) && Rightly(c, op, Step(y, op).report)
    ensures RanOut(Step(y, op).y.s, Step(y, op).report.error)
  {
    hide Represents, Step, Effect, Clean, Sane;
    RepresentsSane(y, b, c);
    b2 := b;
    match op
    case Mount => MountRefines(y, b, c); OthersReported(y, op);
    case Reformat => FormatRefines(y, b, c); OthersReported(y, op); b2 := NoFiles(|y.s.dir|, |y.s.data|);
    case CreateFile(ch, name) => b2 := CreateRefines(y, b, c, ch, name);
    case WriteFile(ch, bytes) =>
      if ch in c.drafts {
        b2 := WriteRefines(y, b, c, ch, bytes);
      } else {
        StaleWriteRefines(y, b, c, ch, bytes);
      }
    case CloseFile(ch) =>
      OthersReported(y, op);
      if ch in c.drafts {
        CloseFileRefines(y, b, c, ch);
      } else {
        StaleCloseRefines(y, b, c, ch);
      }
    case RenameFile(from, to) => RenameRefines(y, b, c, from, to); OthersReported(y, op);
    case DeleteFile(name) => b2 := DeleteRefines(y, b, c, name); OthersReported(y, op);
  }

  lemma OthersReported(y: System, op: Op)
    requires Sane(y) && Allowed(y, op) && !op.CreateFile? && !op.WriteFile?
    ensures var error := Step(y, op).report.error;
            error != DiskFull && error != DirFull && (op.Mount? || op.Reformat? || op.CloseFile? ==> error == Ok)
  {}

  // ---- Write, close, read ----------------------------------------------------------------------------------------------

  lemma DraftWritten(c: Catalog, ch: Channel, bytes: seq<byte>, report: Report)
    requires ch in c.drafts && Rightly(c, WriteFile(ch, bytes), report) && report.error == Ok
    ensures Effect(c, WriteFile(ch, bytes), report)
            == c.(drafts := c.drafts[ch := Draft(c.drafts[ch].name, c.drafts[ch].bytes + bytes)])
  {
    assert bytes[..|bytes|] == bytes;
  }

  lemma DraftClosed(c: Catalog, ch: Channel, report: Report)
    requires ch in c.drafts
    ensures Effect(c, CloseFile(ch), report).files == c.files[c.drafts[ch].name := c.drafts[ch].bytes]
  {}

  /** The state after writing and closing. */
  function Recorded(s: State, fh: Handle, bytes: seq<byte>): (r: State)
    requires Usable(s, fh)
    ensures r.Sized()
  {
    var w := Write(s, fh, bytes);
    Close(w.s, w.fh)
  }

  lemma WriteThenClose(y: System, b: Books, c: Catalog, ch: Channel, bytes: seq<byte>) returns (z: System, b2: Books, d: Catalog)
    requires Represents(y, b, c) && ch in y.open && ch in c.drafts && Writes(y.s, y.open[ch], bytes)
    ensures Represents(z, b2, d) && d.files == c.files[c.drafts[ch].name := c.drafts[ch].bytes + bytes]
    ensures z.s == Recorded(y.s, y.open[ch], bytes)
  {
    hide Represents, Find, Write, Effect, Usable, Rightly, Close;
    RepresentsSane(y, b, c);
    b2 := WriteRefines(y, b, c, ch, bytes);
    var report := Step(y, WriteFile(ch, bytes)).report;
    var y2, c2 := Step(y, WriteFile(ch, bytes)).y, Effect(c, WriteFile(ch, bytes), report);
    DraftWritten(c, ch, bytes, report);
    CloseFileRefines(y2, b2, c2, ch);
    z, d := Step(y2, CloseFile(ch)).y, Effect(c2, CloseFile(ch), Step(y2, CloseFile(ch)).report);
    DraftClosed(c2, ch, Step(y2, CloseFile(ch)).report);
  }

  /** A successful write. */
  predicate Writes(s: State, fh: Handle, bytes: seq<byte>) {
    Usable(s, fh) && Write(s, fh, bytes).error == Ok
  }

  /** What reading delivers after writing and closing. */
  function Recalled(s: State, fh: Handle, bytes: seq<byte>, name: Name, lengths: seq<nat>): Observation {
    if Writes(s, fh, bytes) then Observe(Recorded(s, fh, bytes), name, lengths) else Broken
  }

  /** A successful write to any open file, then closing it: any sequence of reads delivers what the draft
      had, followed by the bytes written. */
  lemma WrittenIsRead(y: System, b: Books, c: Catalog, ch: Channel, bytes: seq<byte>, lengths: seq<nat>)
    requires Represents(y, b, c) && ch in y.open && ch in c.drafts && Writes(y.s, y.open[ch], bytes)
    ensures var d := c.drafts[ch];
            Recalled(y.s, y.open[ch], bytes, d.name, lengths) == Content(Front(d.bytes + bytes, Sum(lengths)))
  {
    hide Represents, Observe, Writes, Recorded;
    var z, b2, e := WriteThenClose(y, b, c, ch, bytes);
    ObserveCatalog(z, b2, e, c.drafts[ch].name, lengths);
    RepresentsSane(z, b2, e);
  }

  // ---- Runs -----------------------------------------------------------------------------------------------------------

  /** A run: every channel written to or closed is open, and only others are opened. */
  ghost predicate Runs(y: System, ops: seq<Op>)
    requires Sane(y)
    decreases |ops|
  {
    ops == [] || (Allowed(y, ops[0]) && Runs(Step(y, ops[0]).y, ops[1..]))
  }

  function After(y: System, ops: seq<Op>): (r: System)
    requires Sane(y) && Runs(y, ops)
    ensures Sane(r)
    decreases |ops|
  {
    if ops == [] then y else After(Step(y, ops[0]).y, ops[1..])
  }

  function Effects(y: System, c: Catalog, ops: seq<Op>): Catalog
    requires Sane(y) && Runs(y, ops)
    decreases |ops|
  {
    if ops == [] then c else Effects(Step(y, ops[0]).y, Effect(c, ops[0], Step(y, ops[0]).report), ops[1..])
  }

  /** A run in which every operation is clean. */
  ghost predicate AllClean(y: System, c: Catalog, ops: seq<Op>)
    requires Sane(y) && Runs(y, ops)
    decreases |ops|
  {
    ops == [] || (Clean(y, c, ops[0]) && AllClean(Step(y, ops[0]).y, Effect(c, ops[0], Step(y, ops[0]).report), ops[1..]))
  }

  /** Every clean run keeps the invariant, and leaves the files that the same run on named bytes leaves. */
  lemma {:induction false} RunRefines(y: System, b: Books, c: Catalog, ops: seq<Op>) returns (b2: Books)
    requires Sane(y) && Represents(y, b, c) && Runs(y, ops) && AllClean(y, c, ops)
    ensures Represents(After(y, ops), b2, Effects(y, c, ops))
    decreases |ops|
  {
    hide Represents, Step, Effect, Rightly, Allowed, Clean, Sane;
    b2 := b;
    if ops != [] {
      b2 := StepRefines(y, b, c, ops[0]);
      b2 := RunRefines(Step(y, ops[0]).y, b2, Effect(c, ops[0], Step(y, ops[0]).report), ops[1..]);
    }
  }

  /** A device just formatted, with no channel open. */
  function Formatted(entries: nat, sectors: nat): (y: System)
    requires 1 <= entries <= 255 && 1 <= sectors <= 255
    ensures Sane(y) && y.open == map[]
  {
    System(Format(entries, sectors), map[])
  }

  const EMPTY := Catalog(map[], map[])

  /** From a formatted device, after any clean run, any sequence of reads of any name delivers what the run
      on named bytes has under that name; and mounting then finds the bitmap and the counter in RAM. */
  lemma RunsFromFormat(entries: nat, sectors: nat, ops: seq<Op>, name: Name, lengths: seq<nat>)
    requires 1 <= entries <= 255 && 1 <= sectors <= 255
    requires Runs(Formatted(entries, sectors), ops) && AllClean(Formatted(entries, sectors), EMPTY, ops)
    ensures var y := Formatted(entries, sectors);
            var s, files := After(y, ops).s, Effects(y, EMPTY, ops).files;
            && s.Sized()
            && Observe(s, name, lengths) == (if name !in files then Missing else Content(Front(files[name], Sum(lengths))))
            && Init(s.dir, s.data).usedSectors == s.usedSectors && Init(s.dir, s.data).free == s.free
  {
    hide Represents, Formatted, Observe, Init, After, Effects, Runs, AllClean;
    var y, c := Formatted(entries, sectors), EMPTY;
    FormatRepresents(entries, sectors);
    var b := RunRefines(y, NoFiles(entries, sectors), c, ops);
    RepresentsSane(After(y, ops), b, Effects(y, c, ops));
    ObserveCatalog(After(y, ops), b, Effects(y, c, ops), name, lengths);
    MountRebuilds(After(y, ops).s, b);
  }

  lemma FormatRepresents(entries: nat, sectors: nat)
    requires 1 <= entries <= 255 && 1 <= sectors <= 255
    ensures Represents(Formatted(entries, sectors), NoFiles(entries, sectors), EMPTY)
  {
    hide Inv, Find, Format;
    FormatEmpties(entries, sectors);
    Inside(Format(entries, sectors), NoFiles(entries, sectors));
  }

  lemma RepresentsSane(y: System, b: Books, c: Catalog)
    requires Represents(y, b, c)
    ensures Sane(y) && y.s.Sized() && Inv(y.s, b) && c.drafts.Keys <= y.open.Keys
  {}
}
