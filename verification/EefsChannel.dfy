/** Files of the EEPROM file system through the drive's channels: bytes arrive one by one and leave one by
    one, in buffers of 254 (src/eefs-ops.c with the byte handling of src/iec.c). */
module EefsChannel {
  import opened Bits
  import opened BusBuffer
  import opened EefsModel
  import opened EefsInvariant
  import opened EefsFiles
  import opened EefsRead
  import opened EefsRuns

  const FIRST := 2  // index of the first data byte in a buffer

  // ---- Talking -----------------------------------------------------------------------

  /** eefs_refill_read: the next bytes go into the buffer; the end is signalled with the last of them. */
  method RefillRead(s: State, fh: Handle, data: Data, ghost b: Books) returns (next: Handle, filled: Data, lastused: byte, eoi: bool)
    requires Inv(s, b) && Reading(s, b, fh)
    ensures Reading(s, b, next) && next.entry == fh.entry && next.size == fh.size
    ensures var n := Min(ROOM, fh.size - fh.offset);
            && next.offset == fh.offset + n && lastused == n + 1 && (eoi <==> next.offset == fh.size)
            && (n > 0 ==> filled[FIRST..lastused + 1] == Stored(s, b, fh.entry)[fh.offset..fh.offset + n])
            && (n == 0 ==> filled == data)
  {
    hide Inv, Stored, Readable, Read, SizeOf, Reading;
    ReadReads(s, b, fh, ROOM);
    Inside(s, b);
    ReadingInside(s, b, fh);
    var r := Read(s, fh, ROOM);
    next := r.fh;
    filled := data[..FIRST] + r.bytes + data[FIRST + |r.bytes|..];
    assert filled[FIRST..FIRST + |r.bytes|] == r.bytes;
    assert |r.bytes| == 0 ==> filled == data;
    lastused := |r.bytes| + 1;
    eoi := |r.bytes| < ROOM || next.offset == next.size;
  }

  /** OPEN for reading and TALK up to the end: the bytes of the file, or one stray byte if it has none. */
  method TalkFile(s: State, fh: Handle, data: Data, ghost b: Books) returns (sent: seq<byte>)
    requires Inv(s, b) && Reading(s, b, fh) && fh.offset == 0
    ensures |sent| >= 1
    ensures fh.size > 0 ==> sent == Stored(s, b, fh.entry)
  {
    hide Inv, Stored, Readable, SizeOf, Reading;
    ReadingInside(s, b, fh);
    ghost var all := Stored(s, b, fh.entry);
    var at, buffer, lastused, eoi := RefillRead(s, fh, data, b);
    sent := SendBuffer(buffer, lastused);
    while !eoi
      invariant Reading(s, b, at) && at.entry == fh.entry && at.size == fh.size && (eoi <==> at.offset == fh.size)
      invariant |sent| >= 1 && at.offset <= fh.size && (fh.size > 0 ==> at.offset > 0 && sent == all[..at.offset])
      decreases fh.size - at.offset
    {
      ReadingInside(s, b, at);
      ghost var from := at.offset;
      at, buffer, lastused, eoi := RefillRead(s, at, buffer, b);
      var more := SendBuffer(buffer, lastused);
      sent := sent + more;
      assert all[..at.offset] == all[..from] + all[from..at.offset];
    }
    assert all[..|all|] == all;
  }

  /** So a file is sent as it is exactly when it is not empty: an empty one is sent as one byte. */
  method TalkNamed(y: System, name: Name, data: Data, ghost b: Books, ghost c: Catalog) returns (found: bool, sent: seq<byte>)
    requires Represents(y, b, c)
    ensures found <==> name in c.files
    ensures found ==> (sent == c.files[name] <==> c.files[name] != [])
  {
    hide Inv, Find, Stored, Readable, OpenRead, DraftsMatch, SizeOf, Reading;
    OpenReadStands(y.s, b, name);
    NamesFound(y.s, b, c.files, 0, name);
    FindSpec(y.s, b, name);
    var o := OpenRead(y.s, name);
    found, sent := o.error == Ok, [];
    if found {
      assert FileMatches(y.s, b, c.files, o.fh.entry);
      ReadingInside(y.s, b, o.fh);
      sent := TalkFile(y.s, o.fh, data, b);
    }
  }

  // ---- Listening ------------------------------------------------------------------------

  /** The fields of the buffer that writing uses. */
  datatype Buffer = Buffer(data: Data, position: byte, lastused: byte, mustflush: bool)

  /** The buffer holds these bytes, and waits to be flushed when it is full. */
  predicate Filled(b: Buffer, bytes: seq<byte>) {
    && Holding(b.data, b.position, b.lastused, bytes) && (b.mustflush <==> |bytes| == ROOM)
    && (bytes == [] ==> b.lastused <= 2)
  }

  /** eefs_open_write leaves a buffer for one carriage return that is never sent. */
  function Opened(data: Data): (r: Buffer)
    ensures Filled(r, [])
  {
    Buffer(data[FIRST := 13], FIRST, FIRST, false)
  }

  /** eefs_refill_write: everything in the buffer is written; on an error, which tells that room has run
      out, the file is closed with the part that fitted. */
  method RefillWrite(y: System, ch: Channel, b: Buffer, ghost bytes: seq<byte>, ghost k: Books, ghost c: Catalog)
    returns (z: System, r: Buffer, error: Error, ghost k2: Books, ghost c2: Catalog)
    requires Represents(y, k, c) && ch in c.drafts && Filled(b, bytes)
    ensures Represents(z, k2, c2) && error in [Ok, DiskFull, DirFull] && RanOut(z.s, error)
    ensures error == Ok ==>
              && ch in c2.drafts && Filled(r, [])
              && c2 == c.(drafts := c.drafts[ch := Draft(c.drafts[ch].name, c.drafts[ch].bytes + bytes)])
    ensures error != Ok ==> exists n: nat :: n <= |bytes| && c2 == Catalog(c.files[c.drafts[ch].name := c.drafts[ch].bytes + bytes[..n]], c.drafts - {ch})
  {
    hide Represents, Write, Usable, Inv, Effect, Sane, RanOut;
    var lastused := if b.mustflush then b.lastused else (b.position + 255) % 256;
    if bytes != [] {
      HeldSlice(b.data, b.position, b.lastused, bytes);
    }
    assert b.data[FIRST..lastused + 1] == bytes;
    RepresentsSane(y, k, c);
    var op := WriteFile(ch, b.data[FIRST..lastused + 1]);
    k2 := StepRefines(y, k, c, op);
    var step := Step(y, op);
    c2 := Effect(c, op, step.report);
    EffectOfWrite(c, ch, bytes, step.report);
    z, error := step.y, step.report.error;
    r := b.(mustflush := false, position := FIRST, lastused := FIRST);
  }

  lemma EffectOfWrite(c: Catalog, ch: Channel, bytes: seq<byte>, report: Report)
    requires ch in c.drafts && Rightly(c, WriteFile(ch, bytes), report)
    ensures var d := c.drafts[ch]; var c2 := Effect(c, WriteFile(ch, bytes), report);
            if report.error == Ok then c2 == c.(drafts := c.drafts[ch := Draft(d.name, d.bytes + bytes)])
            else report.count <= |bytes| && c2 == Catalog(c.files[d.name := d.bytes + bytes[..report.count]], c.drafts - {ch})
  {
    assert bytes[..|bytes|] == bytes;
  }

  /** LISTEN for every byte, then CLOSE: the file holds the bytes, or as many of the first ones as there was
      room for; an error tells that no sector or no entry is left. */
  method ListenAndClose(y: System, ch: Channel, start: Data, bytes: seq<byte>, ghost k: Books, ghost c: Catalog)
    returns (z: System, error: Error, ghost k2: Books, ghost c2: Catalog)
    requires Represents(y, k, c) && ch in c.drafts
    ensures Represents(z, k2, c2) && error in [Ok, DiskFull, DirFull] && RanOut(z.s, error)
    ensures var d := c.drafts[ch];
            if error == Ok then c2 == Catalog(c.files[d.name := d.bytes + bytes], c.drafts - {ch})
            else exists n: nat :: n <= |bytes| && c2 == Catalog(c.files[d.name := d.bytes + bytes[..n]], c.drafts - {ch})
  {
    hide Represents, RanOut;
    z, k2, c2, error := y, k, c, Ok;
    ghost var d := c.drafts[ch];
    var b := Opened(start);
    ghost var i, held := 0, [];
    var j := 0;
    assert d.bytes + bytes[..0] == d.bytes && c.drafts[ch := d] == c.drafts;
    while j < |bytes|
      invariant 0 <= i <= j <= |bytes| && held == bytes[i..j] && Filled(b, held)
      invariant Represents(z, k2, c2) && ch in c2.drafts && c2 == c.(drafts := c.drafts[ch := Draft(d.name, d.bytes + bytes[..i])])
    {
      if b.mustflush {
        z, b, error, k2, c2 := RefillWrite(z, ch, b, held, k2, c2);
        Flushed(c, ch, d, bytes, i, j, error, c2);
        if error != Ok {
          return;
        }
        i, held := j, [];
      }
      var data, position, lastused, mustflush := StoreByte(b.data, b.position, b.lastused, held, bytes[j]);
      b := Buffer(data, position, lastused, mustflush);
      held := held + [bytes[j]];
      j := j + 1;
    }
    z, b, error, k2, c2 := RefillWrite(z, ch, b, held, k2, c2);
    Flushed(c, ch, d, bytes, i, j, error, c2);
    if error == Ok {
      assert bytes[..j] == bytes;
      k2, z, c2 := Closing(z, k2, c2, ch);
      NoError(z.s);
      assert c.drafts[ch := Draft(d.name, d.bytes + bytes)] - {ch} == c.drafts - {ch};
    }
  }

  lemma NoError(s: State)
    ensures RanOut(s, Ok)
  {}

  /** What the catalog says after a flush, in terms of all bytes that arrive. */
  lemma Flushed(c: Catalog, ch: Channel, d: Draft, bytes: seq<byte>, i: nat, j: nat, error: Error, c2: Catalog)
    requires ch in c.drafts && i <= j <= |bytes|
    requires var c1 := c.(drafts := c.drafts[ch := Draft(d.name, d.bytes + bytes[..i])]);
             if error == Ok then c2 == c1.(drafts := c1.drafts[ch := Draft(d.name, (d.bytes + bytes[..i]) + bytes[i..j])])
             else exists n: nat :: n <= j - i && c2 == Catalog(c1.files[d.name := (d.bytes + bytes[..i]) + bytes[i..j][..n]], c1.drafts - {ch})
    ensures if error == Ok then c2 == c.(drafts := c.drafts[ch := Draft(d.name, d.bytes + bytes[..j])])
            else exists n: nat :: n <= |bytes| && c2 == Catalog(c.files[d.name := d.bytes + bytes[..n]], c.drafts - {ch})
  {
    assert (d.bytes + bytes[..i]) + bytes[i..j] == d.bytes + bytes[..j];
    var c1 := c.(drafts := c.drafts[ch := Draft(d.name, d.bytes + bytes[..i])]);
    assert c1.drafts - {ch} == c.drafts - {ch};
    if error != Ok {
      var n: nat :| n <= j - i && c2 == Catalog(c1.files[d.name := (d.bytes + bytes[..i]) + bytes[i..j][..n]], c1.drafts - {ch});
      assert (d.bytes + bytes[..i]) + bytes[i..j][..n] == d.bytes + bytes[..i + n];
      assert c2 == Catalog(c.files[d.name := d.bytes + bytes[..i + n]], c.drafts - {ch});
    }
  }

  /** eepromfs_close through its step. */
  method Closing(y: System, ghost k: Books, ghost c: Catalog, ch: Channel) returns (ghost k2: Books, z: System, ghost c2: Catalog)
    requires Represents(y, k, c) && ch in c.drafts
    ensures Represents(z, k2, c2) && c2 == Catalog(c.files[c.drafts[ch].name := c.drafts[ch].bytes], c.drafts - {ch})
  {
    hide Represents, Close, Sane;
    RepresentsSane(y, k, c);
    k2 := StepRefines(y, k, c, CloseFile(ch));
    z := Step(y, CloseFile(ch)).y;
    c2 := Effect(c, CloseFile(ch), Step(y, CloseFile(ch)).report);
  }
}
