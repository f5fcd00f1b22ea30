/** Where a Dxx image keeps its block availability map: sectors, offsets and their disjointness
    (move_bam_window of src/d64ops.c). */
module BamLayout {
  import opened Bits
  import opened Geometry

  type Block = b: seq<byte> | |b| == 256 witness seq(256, _ => 0)

  datatype Ts = Ts(track: byte, sector: byte)

  /** A mounted image. Sectors are addressed by track and sector; the lemmas of Geometry place them
      one-to-one in the image file. */
  datatype Image = Image(kind: Kind, lastTrack: byte, lastBamTrack: byte, blocks: map<Ts, Block>)
  {
    ghost predicate Valid() {
      && Layout()
      && (forall ts :: ts in blocks <==> InRange(kind, lastTrack, ts.track, ts.sector))
    }

    /** The track counts d64_mount gives to a format. */
    predicate Layout() {
      match kind
      case D41 => 35 <= lastTrack <= 42 && lastBamTrack == 35
      case DNP => 1 <= lastTrack == lastBamTrack
      case _ => lastTrack == lastBamTrack == MaxTrack(kind)
    }
  }

  type Disk = d: Image | d.Valid() ghost witness SmallestImage()

  ghost function SmallestImage(): (d: Image)
    ensures d.Valid()
  {
    var all := set s: byte | true :: Ts(1, s);
    Image(DNP, 1, 1, map ts | ts in all :: seq(256, _ => 0))
  }

  /** image_write of a whole sector */
  function WithBlock(d: Disk, ts: Ts, block: Block): (r: Disk)
    requires ts in d.blocks
    ensures r == d.(blocks := d.blocks[ts := block])
  {
    d.(blocks := d.blocks[ts := block])
  }

  function DirTrack(kind: Kind): byte {
    match kind case D41 => 18 case D71 => 18 case D81 => 40 case D80 => 39 case D82 => 39 case DNP => 1
  }

  // ---- Where the BAM keeps a track ------------------------------------------

  /** Sector of the BAM that move_bam_window selects for a track's bitfield or counter. */
  function BamSector(kind: Kind, track: byte, bitfield: bool): Ts {
    match kind
    case D41 => Ts(18, 0)
    case D71 => if track > 35 && bitfield then Ts(53, 0) else Ts(18, 0)
    case D81 => Ts(40, if track < 41 then 1 else 2)
    case DNP => Ts(1, 2 + track / 8)
    case D80 => Ts(38, if track == 0 then 0 else (track - 1) / 50 * 3)
    case D82 => Ts(38, if track == 0 then 0 else (track - 1) / 50 * 3)
  }

  /** The 8-bit offset into that sector. */
  function BamPos(kind: Kind, track: byte, bitfield: bool): byte {
    var second := if bitfield then 1 else 0;
    match kind
    case D41 => (4 * track + second) % 256
    case D71 => if track > 35 && bitfield then (track - 36) * 3 % 256
                else if track > 35 then (track - 36 + 0xdd) % 256
                else (4 * track + second) % 256
    case D81 => (10 + (if track > 40 then track - 40 else track) * 6 + second) % 256
    case DNP => track % 8 * 32
    case D80 => (1 + 5 * (if track == 0 then 0 else (track - 1) % 50 + 1) + second) % 256
    case D82 => (1 + 5 * (if track == 0 then 0 else (track - 1) % 50 + 1) + second) % 256
  }

  /** A byte of the image. */
  datatype Loc = Loc(ts: Ts, pos: int)

  /** Byte that holds the bit of the given sector. */
  function BitLoc(kind: Kind, track: byte, sector: byte): Loc {
    Loc(BamSector(kind, track, true), BamPos(kind, track, true) + sector / 8)
  }

  /** Byte that holds the free-sector counter of a track; DNP images have none. */
  function CountLoc(kind: Kind, track: byte): Loc {
    Loc(BamSector(kind, track, false), BamPos(kind, track, false))
  }

  /** Position of the bit in its byte: DNP images count from the other end. */
  function BitIndex(kind: Kind, sector: byte): (r: nat)
    ensures r < 8
  {
    if kind == DNP then 7 - sector % 8 else sector % 8
  }

  /** Every BAM access to a track that the image has stays inside a sector the image has. */
  lemma BamInside(d: Disk, t: byte, s: byte)
    requires InRange(d.kind, d.lastTrack, t, s)
    ensures InRange(d.kind, d.lastTrack, BamSector(d.kind, t, true).track, BamSector(d.kind, t, true).sector)
    ensures InRange(d.kind, d.lastTrack, BamSector(d.kind, t, false).track, BamSector(d.kind, t, false).sector)
    ensures BitLoc(d.kind, t, s).pos < 256
  {
    match d.kind
    case D41 => BamInside1541(d, t, s);
    case D71 => BamInside1541(d, t, s);
    case D81 => Pos1581(t);
    case DNP =>
    case D80 => var a, r := Pos8050(D80, t);
    case D82 => var a, r := Pos8050(D82, t);
  }

  lemma BamInside1541(d: Disk, t: byte, s: byte)
    requires InRange(d.kind, d.lastTrack, t, s)
    requires d.kind == D41 || d.kind == D71
    ensures BitLoc(d.kind, t, s).pos < 256
  {
    var q := s / 8;
    assert q <= 2;
    if t > 35 && d.kind == D41 {
      assert 4 * t + 1 < 256;
    } else {
      Pos1541(d.kind, t);
    }
  }

  /** First and last byte of a BAM sector that belong to header, label or pointers. */
  predicate HeaderByte(kind: Kind, ts: Ts, pos: int) {
    match kind
    case D41 => 0 <= pos < 4 || 0x90 <= pos < 0xab
    case D71 => ts == Ts(18, 0) && (0 <= pos < 4 || 0x90 <= pos < 0xab)
    case D81 => 0 <= pos < 16
    case DNP => ts.sector == 2 && 0 <= pos < 32
    case D80 => 0 <= pos < 6
    case D82 => 0 <= pos < 6
  }

  ghost predicate LocsApart(kind: Kind, t1: byte, s1: byte, t2: byte, s2: byte) {
    && (BitLoc(kind, t1, s1) == BitLoc(kind, t2, s2) ==> t1 == t2 && s1 / 8 == s2 / 8)
    && (kind != DNP && CountLoc(kind, t1) == CountLoc(kind, t2) ==> t1 == t2)
    && (kind != DNP ==> BitLoc(kind, t1, s1) != CountLoc(kind, t2))
    && !HeaderByte(kind, BitLoc(kind, t1, s1).ts, BitLoc(kind, t1, s1).pos)
    && (kind != DNP ==> !HeaderByte(kind, CountLoc(kind, t1).ts, CountLoc(kind, t1).pos))
  }

  /** Tracks that have an entry in the BAM. */
  predicate HasBamEntry(kind: Kind, last: byte, t: byte, s: byte) {
    && 1 <= t <= last && s < SectorsPerTrack(kind, t)
    && last <= if kind == D41 then 35 else MaxTrack(kind)
  }

  /** Counters and bitfields of all tracks with BAM entries are disjoint byte ranges, and none of
      them touches a header or label byte. */
  lemma BamRangesDisjoint(kind: Kind, last: byte, t1: byte, s1: byte, t2: byte, s2: byte)
    requires HasBamEntry(kind, last, t1, s1) && HasBamEntry(kind, last, t2, s2)
    ensures LocsApart(kind, t1, s1, t2, s2)
  {
    match kind
    case D41 => BamRanges1541(kind, t1, s1, t2, s2);
    case D71 => BamRanges1541(kind, t1, s1, t2, s2);
    case D81 => BamRanges1581(t1, s1, t2, s2);
    case DNP => BamRangesNative(t1, s1, t2, s2);
    case D80 => BamRanges8050(kind, t1, s1, t2, s2);
    case D82 => BamRanges8050(kind, t1, s1, t2, s2);
  }

  lemma BamRanges1541(kind: Kind, t1: byte, s1: byte, t2: byte, s2: byte)
    requires kind == D41 || kind == D71
    requires HasBamEntry(kind, if kind == D41 then 35 else 70, t1, s1)
    requires HasBamEntry(kind, if kind == D41 then 35 else 70, t2, s2)
    ensures LocsApart(kind, t1, s1, t2, s2)
  {
    var q1, q2 := s1 / 8, s2 / 8;
    assert 0 <= q1 <= 2 && 0 <= q2 <= 2;
    Pos1541(kind, t1);
    Pos1541(kind, t2);
  }

  lemma Pos1541(kind: Kind, t: byte)
    requires kind == D41 || kind == D71
    requires 1 <= t <= if kind == D41 then 35 else 70
    ensures BamPos(kind, t, true) == if t > 35 then 3 * (t - 36) else 4 * t + 1
    ensures BamPos(kind, t, false) == if t > 35 then t + 185 else 4 * t
  {}

  lemma BamRanges1581(t1: byte, s1: byte, t2: byte, s2: byte)
    requires HasBamEntry(D81, 80, t1, s1) && HasBamEntry(D81, 80, t2, s2)
    ensures LocsApart(D81, t1, s1, t2, s2)
  {
    var q1, q2 := s1 / 8, s2 / 8;
    assert 0 <= q1 <= 4 && 0 <= q2 <= 4;
    Pos1581(t1);
    Pos1581(t2);
  }

  lemma Pos1581(t: byte)
    requires 1 <= t <= 80
    ensures BamPos(D81, t, true) == 11 + 6 * (if t > 40 then t - 40 else t)
    ensures BamPos(D81, t, false) == 10 + 6 * (if t > 40 then t - 40 else t)
  {}

  lemma BamRangesNative(t1: byte, s1: byte, t2: byte, s2: byte)
    requires HasBamEntry(DNP, 255, t1, s1) && HasBamEntry(DNP, 255, t2, s2)
    ensures LocsApart(DNP, t1, s1, t2, s2)
  {
    assert s1 / 8 <= 31 && s2 / 8 <= 31;
  }

  lemma BamRanges8050(kind: Kind, t1: byte, s1: byte, t2: byte, s2: byte)
    requires kind == D80 || kind == D82
    requires HasBamEntry(kind, MaxTrack(kind), t1, s1) && HasBamEntry(kind, MaxTrack(kind), t2, s2)
    ensures LocsApart(kind, t1, s1, t2, s2)
  {
    var q1, q2 := s1 / 8, s2 / 8;
    assert 0 <= q1 <= 3 && 0 <= q2 <= 3;
    var a1, r1 := Pos8050(kind, t1);
    var a2, r2 := Pos8050(kind, t2);
  }

  lemma Pos8050(kind: Kind, t: byte) returns (a: nat, r: nat)
    requires kind == D80 || kind == D82
    requires 1 <= t <= 154
    ensures t - 1 == 50 * a + r && r < 50
    ensures BamSector(kind, t, true) == BamSector(kind, t, false) == Ts(38, 3 * a)
    ensures BamPos(kind, t, true) == 7 + 5 * r && BamPos(kind, t, false) == 6 + 5 * r
  {
    a, r := (t - 1) / 50, (t - 1) % 50;
  }
}
