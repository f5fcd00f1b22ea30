/** Copying several files into one (src/doscmd.c, the loop of parse_copy, for files other than REL).
    Positions in a buffer are 8-bit numbers; a full destination buffer has position 0. */
module CopyLoop {
  import opened Bits

  const START := 2  // first data byte of a destination buffer

  type Data = s: seq<byte> | |s| == 256 witness seq(256, _ => 0)

  /** What a refill of the source puts into its buffer: the bytes from one index to another. An empty
      block ends right before it starts. */
  datatype Chunk = Chunk(data: Data, first: byte, last: byte)
  {
    predicate Sound() {
      1 <= first && first <= last + 1
    }
  }

  function BytesOf(c: Chunk): seq<byte>
    requires c.Sound()
  {
    c.data[c.first..c.last + 1]
  }

  ghost predicate AllSound(chunks: seq<Chunk>) {
    forall k :: 0 <= k < |chunks| ==> chunks[k].Sound()
  }

  /** The contents of a file that is read in these blocks. */
  ghost function Contents(chunks: seq<Chunk>): seq<byte>
    requires AllSound(chunks)
  {
    if chunks == [] then [] else BytesOf(chunks[0]) + Contents(chunks[1..])
  }

  class Source {
    const data: array<byte>
    var position: byte
    var lastused: byte
    var sendeoi: bool
    var pending: seq<Chunk>  // what further refills will deliver

    ghost predicate Valid()
      reads this
    {
      data.Length == 256 && AllSound(pending) && (sendeoi <==> pending == [])
    }

    /** The bytes not yet copied. */
    ghost function Left(): seq<byte>
      requires Valid() && position <= lastused + 1
      reads this, data
    {
      data[position..lastused + 1] + Contents(pending)
    }

    /** A freshly opened file: the first block is in the buffer. */
    constructor (chunks: seq<Chunk>)
      requires chunks != [] && AllSound(chunks)
      ensures Valid() && fresh(data) && 1 <= position <= lastused + 1 && Left() == Contents(chunks)
    {
      data := new byte[256](i requires 0 <= i < 256 => chunks[0].data[i]);
      position, lastused, pending := chunks[0].first, chunks[0].last, chunks[1..];
      sendeoi := |chunks| == 1;
      new;
      assert data[..] == chunks[0].data;
    }

    /** The refill callback: the next block. */
    method Refill()
      requires Valid() && !sendeoi
      modifies this`position, this`lastused, this`sendeoi, this`pending, data
      ensures Valid() && 1 <= position <= lastused + 1 && |pending| < |old(pending)|
      ensures Left() == Contents(old(pending))
    {
      var c := pending[0];
      forall i | 0 <= i < 256 {
        data[i] := c.data[i];
      }
      position, lastused, pending := c.first, c.last, pending[1..];
      sendeoi := pending == [];
      assert data[..] == c.data;
    }
  }

  class Destination {
    const data: array<byte>
    var position: byte
    var lastused: byte
    var written: seq<byte>  // everything that went to the medium

    ghost predicate Valid()
      reads this
    {
      data.Length == 256 && (position == 0 || position >= START) && (position == 0 ==> lastused == 255)
    }

    /** The medium and the part of the buffer in use. */
    ghost function Contents(): seq<byte>
      requires Valid()
      reads this, data
    {
      written + data[START..if position == 0 then 256 else position as int]
    }

    /** open_write: an empty file. */
    constructor ()
      ensures Valid() && fresh(data) && Contents() == [] && position as int == START
    {
      data := new byte[256](i => 0);
      position, lastused, written := START, START, [];
    }

    /** The refill callback of a full buffer. */
    method Refill()
      requires Valid() && position == 0
      modifies this`position, this`lastused, this`written
      ensures Valid() && position as int == START && Contents() == old(Contents())
    {
      written := written + data[START..lastused + 1];
      position, lastused := START, START;
    }

    /** memcpy into the buffer, then the 8-bit updates of position and lastused. */
    method Take(src: Source, n: byte)
      requires Valid() && src.data != data && src.data.Length == 256 && src.position + n <= 256
      requires if position == 0 then n == 0 else position + n <= 256
      modifies data, this`position, this`lastused
      ensures Valid() && Contents() == old(Contents()) + src.data[src.position..src.position + n]
      ensures position == (old(position) + n) % 256 && lastused == (position + 255) % 256
    {
      ghost var was, before := data[..], position as nat;
      forall i | 0 <= i < n {
        data[position + i] := src.data[src.position + i];
      }
      position := (position + n) % 256;
      lastused := (position + 255) % 256;
      Appended(was, data[..], if before == 0 then 256 else before, src.data[src.position..src.position + n]);
    }
  }

  lemma Appended(was: seq<byte>, now: seq<byte>, at: nat, bytes: seq<byte>)
    requires |was| == |now| == 256 && START as int <= at && at + |bytes| <= 256
    requires forall i :: 0 <= i < 256 ==> now[i] == if at <= i < at + |bytes| then bytes[i - at] else was[i]
    ensures now[START..at + |bytes|] == was[START..at] + bytes
  {}

  /** One step of the loop: how many bytes to copy, as the 8-bit variable tocopy ends up. */
  function ToCopy(src: Source, dst: Destination): (n: byte)
    requires src.position <= src.lastused + 1
    reads src, dst
    ensures n as int <= src.lastused + 1 - src.position
    ensures if dst.position == 0 then n == 0 else dst.position + n <= 256
    ensures n == 0 ==> dst.position == 0 || src.position == src.lastused + 1
  {
    var room := (256 - dst.position) % 256;
    if room > src.lastused - src.position + 1 then src.lastused - src.position + 1 else room
  }

  /** The first half of a step: copy, and move the source position to the last byte copied. */
  method MoveBytes(src: Source, dst: Destination) returns (n: byte)
    requires src.Valid() && dst.Valid() && src.data != dst.data && 1 <= src.position <= src.lastused + 1
    modifies src`position, dst.data, dst`position, dst`lastused
    ensures src.Valid() && dst.Valid() && src.position + 1 == old(src.position) + n && n == old(ToCopy(src, dst))
    ensures src.position <= src.lastused && src.data[..] == old(src.data[..])
    ensures dst.position == (old(dst.position) + n) % 256
    ensures dst.Contents() + (src.data[src.position + 1..src.lastused + 1] + Contents(src.pending)) == old(dst.Contents() + src.Left())
  {
    hide Contents, Destination.Contents, AllSound, ToCopy;
    n := ToCopy(src, dst);
    ghost var at, end, out, more := src.position as nat, src.lastused as nat + 1, dst.Contents(), Contents(src.pending);
    TakenFromLeft(src.data[..], at, end, n as nat, more);
    Wrapped(at, n);
    dst.Take(src, n);
    src.position := (src.position + n + 255) % 256;
    assert (out + src.data[at..at + n]) + (src.data[at + n..end] + more) == out + (src.data[at..at + n] + (src.data[at + n..end] + more));
  }

  /** The loop for one source. However the blocks of source and destination lie, all bytes of the source
      are appended to the destination. When the destination is full at the start of the loop the first
      step copies nothing: the source position goes one back and forward again, and the destination is
      written out. */
  method CopyFile(src: Source, dst: Destination)
    requires src.Valid() && dst.Valid() && src.data != dst.data && 1 <= src.position <= src.lastused + 1
    modifies src`position, src`lastused, src`sendeoi, src`pending, src.data
    modifies dst.data, dst`position, dst`lastused, dst`written
    ensures dst.Valid() && dst.Contents() == old(dst.Contents()) + old(src.Left())
  {
    hide Contents, Destination.Contents, Source.Left, AllSound;
    ghost var all := dst.Contents() + src.Left();
    while true
      invariant src.Valid() && dst.Valid() && 1 <= src.position <= src.lastused + 1
      invariant dst.Contents() + src.Left() == all
      decreases |src.pending|, src.lastused + 1 - src.position, if dst.position == 0 then 1 else 0
    {
      var n := MoveBytes(src, dst);
      ghost var rest, more := src.data[src.position + 1..src.lastused + 1], Contents(src.pending);
      if src.sendeoi && src.position == src.lastused {
        NoContents();
        assert rest + more == [];
        return;
      }
      NextByte(src);
      if dst.position == 0 {
        dst.Refill();
      }
    }
  }

  /** Move the source on to its next byte, in the next block if this one is used up. */
  method NextByte(src: Source)
    requires src.Valid() && src.position <= src.lastused && !(src.sendeoi && src.position == src.lastused)
    modifies src`position, src`lastused, src`sendeoi, src`pending, src.data
    ensures src.Valid() && 1 <= src.position <= src.lastused + 1
    ensures src.Left() == old(src.data[src.position + 1..src.lastused + 1] + Contents(src.pending))
    ensures if old(src.position == src.lastused) then |src.pending| < |old(src.pending)|
            else src.pending == old(src.pending) && src.position == old(src.position) + 1 && src.lastused == old(src.lastused)
  {
    hide Contents, AllSound;
    var atEnd := src.position == src.lastused;
    ghost var rest, more := src.data[src.position + 1..src.lastused + 1], Contents(src.pending);
    src.position := (src.position + 1) % 256;
    if atEnd {
      assert rest + more == more;
      src.Refill();
    }
  }

  lemma Wrapped(at: nat, n: nat)
    requires 1 <= at && at + n <= 256
    ensures (at + n + 255) % 256 == at + n - 1
  {}

  lemma TakenFromLeft(data: seq<byte>, at: nat, end: nat, n: nat, more: seq<byte>)
    requires at + n <= end <= |data|
    ensures data[at..end] + more == data[at..at + n] + (data[at + n..end] + more)
  {
    assert data[at..end] == data[at..at + n] + data[at + n..end];
  }

  lemma NoContents()
    ensures Contents([]) == []
  {}

  /** Several sources. */
  ghost function Joined(sources: seq<seq<Chunk>>): seq<byte>
    requires forall k :: 0 <= k < |sources| ==> AllSound(sources[k])
  {
    if sources == [] then [] else Joined(sources[..|sources| - 1]) + Contents(sources[|sources| - 1])
  }

  /** The outer loop: the destination becomes exactly the concatenation of the sources. */
  method CopyAll(sources: seq<seq<Chunk>>) returns (dst: Destination)
    requires forall k :: 0 <= k < |sources| ==> sources[k] != [] && AllSound(sources[k])
    ensures fresh(dst) && dst.Valid() && dst.Contents() == Joined(sources)
  {
    hide Contents, AllSound;
    dst := new Destination();
    for k := 0 to |sources|
      invariant fresh(dst) && fresh(dst.data) && dst.Valid() && dst.Contents() == Joined(sources[..k])
    {
      var src := new Source(sources[k]);
      CopyFile(src, dst);
      assert sources[..k + 1][..k] == sources[..k];
    }
    assert sources[..|sources|] == sources;
  }
}
