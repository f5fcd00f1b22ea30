/** The two write-back buffers in front of the BAM sectors of all mounted images (src/d64ops.c).
    The view is what a reader of the BAM sees: the images overlaid with the modified buffers. */
module BamCache {
  import opened Bits
  import opened Geometry
  import opened BamLayout
  import opened Bam

  const NO_PART: byte := 255

  /** Contents of one buffer. */
  datatype Slot = Slot(part: byte, ts: Ts, mustflush: bool, data: Block)

  /** A buffer in use holds a BAM sector of its image, and an unmodified one what the image has there. */
  ghost predicate SlotOk(disks: seq<Disk>, s: Slot) {
    if s.part == NO_PART then !s.mustflush
    else && s.part < |disks| && s.ts in disks[s.part].blocks && IsBam(disks[s.part].kind, s.ts)
         && (!s.mustflush ==> s.data == disks[s.part].blocks[s.ts])
  }

  predicate SameTag(s: Slot, s2: Slot) {
    s.part != NO_PART && s.part == s2.part && s.ts == s2.ts
  }

  ghost predicate DisksOk(disks: seq<Disk>) {
    |disks| <= 255
  }

  function Overlay(disks: seq<Disk>, s: Slot): (r: seq<Disk>)
    ensures |r| == |disks|
  {
    if s.mustflush && s.part < |disks| && s.ts in disks[s.part].blocks
    then disks[s.part := WithBlock(disks[s.part], s.ts, s.data)]
    else disks
  }

  lemma OverlayCommutes(disks: seq<Disk>, s: Slot, s2: Slot)
    requires DisksOk(disks) && SlotOk(disks, s) && SlotOk(disks, s2) && !SameTag(s, s2)
    ensures Overlay(Overlay(disks, s), s2) == Overlay(Overlay(disks, s2), s)
  {
    if s.mustflush && s2.mustflush && s.part == s2.part {
      var b: map<Ts, Block> := disks[s.part].blocks;
      assert b[s.ts := s.data][s2.ts := s2.data] == b[s2.ts := s2.data][s.ts := s.data];
    }
  }

  /** A clean buffer shows what the image holds, so it may be set down or taken up at any time. */
  lemma OverlayWritten(disks: seq<Disk>, s: Slot, s2: Slot)
    requires DisksOk(disks) && SlotOk(disks, s) && SlotOk(disks, s2) && !SameTag(s, s2) && s.mustflush
    ensures SlotOk(Overlay(disks, s), s.(mustflush := false)) && SlotOk(Overlay(disks, s), s2)
    ensures Overlay(Overlay(disks, s), s.(mustflush := false)) == Overlay(disks, s)
  {}

  /** Storing a byte in a buffer stores it in the view. */
  lemma OverlayPoke(disks: seq<Disk>, s: Slot, pos: nat, v: byte)
    requires DisksOk(disks) && SlotOk(disks, s) && s.part != NO_PART && pos < 256
    ensures DisksOk(Overlay(disks, s)) && s.ts in Overlay(disks, s)[s.part].blocks
    ensures Overlay(disks, s.(mustflush := true, data := s.data[pos := v]))
         == Overlay(disks, s)[s.part := Put(Overlay(disks, s)[s.part], Loc(s.ts, pos), v)]
  {
    var d := disks[s.part];
    var w := Overlay(disks, s)[s.part];
    assert w.blocks[s.ts] == s.data;
    assert d.blocks[s.ts := s.data[pos := v]] == w.blocks[s.ts := s.data[pos := v]];
  }

  ghost predicate Written(disks: seq<Disk>, e: seq<Disk>, part: byte, ts: Ts, block: Block) {
    && DisksOk(disks) && part < |disks| && ts in disks[part].blocks
    && e == disks[part := WithBlock(disks[part], ts, block)]
  }

  lemma WrittenUnder(disks: seq<Disk>, e: seq<Disk>, s: Slot, part: byte, ts: Ts, block: Block)
    requires Written(disks, e, part, ts, block) && SlotOk(disks, s) && !(s.part == part && s.ts == ts)
    ensures Written(Overlay(disks, s), Overlay(e, s), part, ts, block) && SlotOk(e, s)
  {
    if s.mustflush && s.part == part {
      var b: map<Ts, Block> := disks[part].blocks;
      assert b[ts := block][s.ts := s.data] == b[s.ts := s.data][ts := block];
    }
  }

  lemma OverlayKeepsSlot(disks: seq<Disk>, s: Slot, s2: Slot)
    requires DisksOk(disks) && SlotOk(disks, s) && SlotOk(disks, s2) && !SameTag(s, s2)
    ensures SlotOk(Overlay(disks, s), s2)
  {}

  lemma WrittenUnderBoth(disks: seq<Disk>, e: seq<Disk>, s: Slot, s2: Slot, part: byte, ts: Ts, block: Block)
    requires Written(disks, e, part, ts, block) && SlotOk(disks, s) && SlotOk(disks, s2) && !SameTag(s, s2)
    requires !(s.part == part && s.ts == ts) && !(s2.part == part && s2.ts == ts)
    ensures Written(Overlay(Overlay(disks, s), s2), Overlay(Overlay(e, s), s2), part, ts, block)
    ensures SlotOk(e, s) && SlotOk(e, s2)
  {
    hide Overlay, SlotOk, WithBlock;
    WrittenUnder(disks, e, s, part, ts, block);
    WrittenUnder(disks, e, s2, part, ts, block);
    OverlayKeepsSlot(disks, s, s2);
    WrittenUnder(Overlay(disks, s), Overlay(e, s), s2, part, ts, block);
  }

  class BamBuffer {
    var part: byte
    var track: byte
    var sector: byte
    var mustflush: bool
    var data: Block

    /** bam_buffer_alloc */
    constructor ()
      ensures part == NO_PART && !mustflush
    {
      part, track, sector, mustflush := NO_PART, 0, 0, false;
      data := seq(256, _ => 0);
    }

    ghost function Value(): Slot
      reads this
    {
      Slot(part, Ts(track, sector), mustflush, data)
    }

    /** bam_buffer_match */
    method Match(part: byte, ts: Ts) returns (r: bool)
      ensures r == (this.part == part && Ts(track, sector) == ts)
    {
      r := this.part == part && track == ts.track && sector == ts.sector;
    }

    /** Overwrite a clean buffer with a sector read from the image. */
    method Take(part: byte, ts: Ts, block: Block)
      modifies this`part, this`track, this`sector, this`data
      ensures Value() == Slot(part, ts, old(mustflush), block)
    {
      this.part, track, sector, data := part, ts.track, ts.sector, block;
    }
  }

  class Cache {
    var disks: seq<Disk>
    var buf: BamBuffer
    var buf2: BamBuffer?
    ghost var Repr: set<object>

    ghost predicate Valid()
      reads this, Repr
      ensures Valid() ==> this in Repr
    {
      && this in Repr && buf in Repr
      && DisksOk(disks) && SlotOk(disks, buf.Value())
      && (buf2 != null ==>
            && buf2 in Repr && buf != buf2
            && SlotOk(disks, buf2.Value()) && !SameTag(buf.Value(), buf2.Value()))
    }

    /** What every reader of the BAM sees. */
    ghost function View(): seq<Disk>
      reads this, Repr
      requires Valid()
    {
      var d := Overlay(disks, buf.Value());
      if buf2 == null then d else Overlay(d, buf2.Value())
    }

    lemma ViewOk()
      requires Valid()
      ensures DisksOk(View()) && |View()| == |disks|
      ensures forall p :: 0 <= p < |disks| ==> View()[p].(blocks := map[]) == disks[p].(blocks := map[])
    {}

    /** The first BAM buffer, allocated by d64_mount. */
    constructor (disks: seq<Disk>)
      requires DisksOk(disks)
      ensures Valid() && fresh(Repr) && this.disks == disks && View() == disks
    {
      this.disks := disks;
      var b := new BamBuffer();
      buf, buf2 := b, null;
      Repr := {this, b};
    }

    /** bam_buffer_flush */
    method Flush(b: BamBuffer)
      requires Valid() && (b == buf || b == buf2)
      modifies this`disks, b`mustflush
      ensures Valid() && View() == old(View()) && !b.mustflush
      ensures disks == Overlay(old(disks), old(b.Value()))
    {
      ghost var s := b.Value();
      if buf2 != null {
        OverlayCommutes(disks, buf.Value(), buf2.Value());
        if s.mustflush {
          OverlayWritten(disks, s, if b == buf then buf2.Value() else buf.Value());
        }
      } else if s.mustflush {
        OverlayWritten(disks, s, Slot(NO_PART, Ts(0, 0), false, s.data));
      }
      if b.mustflush && b.part as int < |disks| {
        disks := disks[b.part := WithBlock(disks[b.part], Ts(b.track, b.sector), b.data)];
        b.mustflush := false;
      }
    }

    /** d64_commit: afterwards the images hold everything the view shows. */
    method Commit()
      requires Valid()
      modifies this`disks, buf`mustflush, if buf2 == null then {} else {buf2}
      ensures Valid() && View() == old(View()) == disks
      ensures !buf.mustflush && (buf2 != null ==> !buf2.mustflush)
    {
      Flush(buf);
      if buf2 != null {
        Flush(buf2);
      }
    }

    /** bam_buffer_swap */
    method Swap()
      requires Valid() && buf2 != null
      modifies this`buf, this`buf2
      ensures Valid() && View() == old(View())
      ensures buf == old(buf2) && buf2 == old(buf)
    {
      OverlayCommutes(disks, buf.Value(), buf2.Value());
      var tmp := buf;
      buf := buf2;
      buf2 := tmp;
    }

    /** Second buffer, allocated the first time a different BAM sector is asked for. */
    method AllocateSecond()
      requires Valid() && buf2 == null
      modifies this`buf, this`buf2, this`Repr
      ensures Valid() && fresh(Repr - old(Repr)) && View() == old(View())
      ensures fresh(buf) && buf.part == NO_PART && buf2 == old(buf)
    {
      var b := new BamBuffer();
      buf2 := buf;
      buf := b;
      Repr := Repr + {b};
    }

    /** Flush the buffer in front and read another BAM sector into it. */
    method Load(part: byte, ts: Ts)
      requires Valid() && part as int < |disks| && ts in disks[part].blocks && IsBam(disks[part].kind, ts)
      requires buf2 != null && buf2.part == part ==> Ts(buf2.track, buf2.sector) != ts
      modifies this`disks, buf
      ensures Valid() && View() == old(View())
      ensures buf.part == part && Ts(buf.track, buf.sector) == ts
    {
      Flush(buf);
      buf.Take(part, ts, disks[part].blocks[ts]);
    }

    /** The caching part of move_bam_window: afterwards the buffer in front holds the requested
        sector, with the data the view shows for it. Whether alloc_system_buffer finds a buffer for
        the second slot is up to the caller (mayAllocate). */
    method Select(part: byte, ts: Ts, mayAllocate: bool)
      requires Valid() && part as int < |disks| && ts in disks[part].blocks && IsBam(disks[part].kind, ts)
      modifies Repr
      ensures Valid() && fresh(Repr - old(Repr)) && View() == old(View())
      ensures buf.part == part && Ts(buf.track, buf.sector) == ts
      ensures View()[part].blocks[ts] == buf.data
    {
      hide View, Overlay, SlotOk;
      var hit := buf.Match(part, ts);
      if !hit && buf2 != null {
        Swap();
        hit := buf.Match(part, ts);
        if !hit {
          Load(part, ts);
        }
      } else if !hit {
        if buf.part != NO_PART && mayAllocate {
          AllocateSecond();
        }
        Load(part, ts);
      }
      ViewShowsBuffer();
    }

    lemma ViewShowsBuffer()
      requires Valid() && buf.part != NO_PART
      ensures Ts(buf.track, buf.sector) in View()[buf.part].blocks
      ensures View()[buf.part].blocks[Ts(buf.track, buf.sector)] == buf.data
    {}

    /** A partition with an image that has the given sector. */
    ghost predicate Serves(part: byte, t: byte, s: byte)
      reads this, Repr
      requires Valid()
    {
      part as int < |View()| && Present(View()[part], t, s)
    }

    /** move_bam_window: bring the BAM sector of a track to the front and give the offset in it. */
    method MoveWindow(part: byte, track: byte, bitfield: bool, mayAllocate: bool) returns (kind: Kind, pos: byte)
      requires Valid() && Serves(part, track, 0)
      modifies Repr
      ensures Valid() && fresh(Repr - old(Repr)) && View() == old(View())
      ensures buf.part == part && kind == View()[part].kind
      ensures Ts(buf.track, buf.sector) == BamSector(kind, track, bitfield) && pos == BamPos(kind, track, bitfield)
      ensures Ts(buf.track, buf.sector) in View()[part].blocks
      ensures View()[part].blocks[Ts(buf.track, buf.sector)] == buf.data
    {
      ViewOk();
      kind := disks[part].kind;
      var ts;
      ts, pos := Locate(kind, track, bitfield);
      BamInside(View()[part], track, 0);
      BamSectorIsBam(View()[part], track, bitfield);
      Select(part, ts, mayAllocate);
    }

    /** Store a byte in the buffer in front and mark it modified. */
    method Poke(pos: nat, v: byte)
      requires Valid() && buf.part as int < |View()| && pos < 256
      modifies buf`mustflush, buf`data
      ensures Valid() && buf.mustflush && buf.data == old(buf.data)[pos := v]
      ensures DisksOk(old(View())) && Ts(buf.track, buf.sector) in old(View())[buf.part].blocks
      ensures View() == old(View())[buf.part := Put(old(View())[buf.part], Loc(Ts(buf.track, buf.sector), pos), v)]
    {
      ViewOk();
      ghost var s := buf.Value();
      buf.mustflush := true;
      buf.data := buf.data[pos := v];
      assert buf.Value() == s.(mustflush := true, data := s.data[pos := v]);
      if buf2 == null {
        OverlayPoke(disks, s, pos, v);
      } else {
        OverlayCommutes(disks, buf.Value(), buf2.Value());
        OverlayCommutes(disks, s, buf2.Value());
        OverlayPoke(Overlay(disks, buf2.Value()), s, pos, v);
      }
    }

    /** is_free */
    method IsSectorFree(part: byte, t: byte, s: byte, mayAllocate: bool) returns (free: bool)
      requires Valid() && Serves(part, t, s)
      modifies Repr
      ensures Valid() && fresh(Repr - old(Repr)) && View() == old(View())
      ensures free == IsFree(View()[part], t, s)
    {
      hide View, Overlay, SlotOk;
      BamInside(View()[part], t, s);
      var kind, pos := MoveWindow(part, t, true, mayAllocate);
      free := Bit(buf.data[pos + s / 8], BitIndex(kind, s));
    }

    /** Set or clear the bit of a sector. */
    method PokeBit(part: byte, t: byte, s: byte, on: bool, mayAllocate: bool) returns (kind: Kind)
      requires Valid() && Serves(part, t, s)
      modifies Repr
      ensures Valid() && fresh(Repr - old(Repr)) && kind == old(View())[part].kind
      ensures View() == old(View())[part := WithBit(old(View())[part], t, s, on)]
    {
      hide View, Overlay, SlotOk;
      BamInside(View()[part], t, s);
      var pos;
      kind, pos := MoveWindow(part, t, true, mayAllocate);
      var p: nat := pos + s / 8;
      var i := BitIndex(kind, s);
      Poke(p, if on then SetBit8(buf.data[p], i) else ClearBit8(buf.data[p], i));
    }

    /** Raise or lower the counter of a track. */
    method PokeCounter(part: byte, t: byte, up: bool, mayAllocate: bool)
      requires Valid() && Serves(part, t, 0) && View()[part].kind != DNP
      modifies Repr
      ensures Valid() && fresh(Repr - old(Repr))
      ensures View() == old(View())[part := WithCounter(old(View())[part], t, up)]
    {
      hide View, Overlay, SlotOk;
      BamInside(View()[part], t, 0);
      var kind, pos := MoveWindow(part, t, false, mayAllocate);
      var c := buf.data[pos];
      assert c == Counter(View()[part], t);
      if (up && c < SectorsPerTrack(kind, t)) || (!up && c > 0) {
        Poke(pos, if up then c + 1 else c - 1);
      }
    }

    /** The writing half of allocate_sector and free_sector. */
    method Toggle(part: byte, t: byte, s: byte, on: bool, mayAllocate: bool)
      requires Valid() && Serves(part, t, s)
      modifies Repr
      ensures Valid() && fresh(Repr - old(Repr))
      ensures View() == old(View())[part := Toggled(old(View())[part], t, s, on)]
    {
      hide WithBit, WithCounter, Overlay, SlotOk;
      ghost var v := View();
      var kind := PokeBit(part, t, s, on, mayAllocate);
      assert View()[part] == WithBit(v[part], t, s, on);
      if kind != DNP {
        PokeCounter(part, t, on, mayAllocate);
        assert View()[part] == Toggled(v[part], t, s, on);
      }
    }

    /** allocate_sector */
    method AllocateSector(part: byte, t: byte, s: byte, mayAllocate: bool)
      requires Valid() && Serves(part, t, s)
      modifies Repr
      ensures Valid() && fresh(Repr - old(Repr))
      ensures View() == old(View())[part := Allocate(old(View())[part], t, s)]
    {
      var free := IsSectorFree(part, t, s, mayAllocate);
      if free {
        Toggle(part, t, s, false, mayAllocate);
      }
    }

    /** free_sector */
    method FreeSector(part: byte, t: byte, s: byte, mayAllocate: bool)
      requires Valid() && Serves(part, t, s)
      modifies Repr
      ensures Valid() && fresh(Repr - old(Repr))
      ensures View() == old(View())[part := Release(old(View())[part], t, s)]
    {
      var free := IsSectorFree(part, t, s, mayAllocate);
      if !free {
        Toggle(part, t, s, true, mayAllocate);
      }
    }

    /** sectors_free: the counter of the track, or the parallel bit count over a DNP bitfield. */
    method SectorsFree(part: byte, track: byte, mayAllocate: bool) returns (blocks: nat)
      requires Valid() && part as int < |View()|
      modifies Repr
      ensures Valid() && fresh(Repr - old(Repr)) && View() == old(View())
      ensures blocks == FreeSectors(View()[part], track)
    {
      hide View, Overlay, SlotOk, CountFree;
      ViewOk();
      if track < 1 || track > disks[part].lastBamTrack {
        return 0;
      }
      var kind, pos := MoveWindow(part, track, false, mayAllocate);
      if kind != DNP {
        return buf.data[pos];
      }
      blocks := CountBits(View()[part], track, buf.data, pos);
    }

    /** d64_unmount: write the buffers back, then forget those of the partition. The images then hold
        what the view showed, and no buffer of the partition is left. */
    method Unmount(part: byte)
      requires Valid() && part != NO_PART
      modifies Repr
      ensures Valid() && Repr == old(Repr) && View() == old(View()) == disks
      ensures buf.part != part && (buf2 != null ==> buf2.part != part)
    {
      Flush(buf);
      if buf.part == part {
        buf.part := NO_PART;
      }
      if buf2 != null {
        Flush(buf2);
        if buf2.part == part {
          buf2.part := NO_PART;
        }
      }
    }

    /** Writing a sector outside the BAM past the cache, as the file code does with file and directory
        sectors, shows up in the view as the same write, whatever is cached. */
    method WriteThrough(part: byte, ts: Ts, block: Block)
      requires Valid() && part as int < |disks| && ts in disks[part].blocks && !IsBam(disks[part].kind, ts)
      modifies this`disks
      ensures Valid() && part as int < |old(View())|
      ensures ts in old(View())[part].blocks && View() == old(View())[part := WithBlock(old(View())[part], ts, block)]
    {
      ViewOk();
      disks := disks[part := WithBlock(disks[part], ts, block)];
      if buf2 == null {
        WrittenUnder(old(disks), disks, buf.Value(), part, ts, block);
      } else {
        WrittenUnderBoth(old(disks), disks, buf.Value(), buf2.Value(), part, ts, block);
      }
    }
  }

  /** The loop of sectors_free over the bitfield of a DNP track. */
  method CountBits(ghost d: Disk, track: byte, bam: Block, pos: byte) returns (blocks: nat)
    requires d.kind == DNP && Present(d, track, 0)
    requires BamSector(DNP, track, true) in d.blocks && bam == d.blocks[BamSector(DNP, track, true)]
    requires pos == BamPos(DNP, track, true)
    ensures blocks == CountFree(d, track, 256)
  {
    hide PopCount, ParallelCount;
    blocks := 0;
    for i := 0 to 32
      invariant blocks == CountFree(d, track, 8 * i)
    {
      ParallelCountIsPopCount(bam[pos + i]);
      NativeByteBits(d, track, i, 8);
      blocks := blocks + ParallelCount(bam[pos + i]);
    }
  }

  /** The switch of move_bam_window. */
  method Locate(kind: Kind, track: byte, bitfield: bool) returns (ts: Ts, pos: byte)
    requires 1 <= track && (kind == D80 || kind == D82 ==> track <= MaxTrack(kind))
    ensures ts == BamSector(kind, track, bitfield) && pos == BamPos(kind, track, bitfield)
  {
    var second := if bitfield then 1 else 0;
    match kind {
      case D41 => ts, pos := Ts(18, 0), (4 * track + second) % 256;
      case D71 =>
        if track > 35 && bitfield {
          ts, pos := Ts(53, 0), (track - 36) * 3 % 256;
        } else {
          ts := Ts(18, 0);
          if track > 35 {
            pos := (track - 36 + 0xdd) % 256;
          } else {
            pos := (4 * track + second) % 256;
          }
        }
      case D81 =>
        ts := Ts(40, if track < 41 then 1 else 2);
        var t := if track > 40 then track - 40 else track;
        pos := (10 + t * 6 + second) % 256;
      case DNP => ts, pos := Ts(1, 2 + track / 8), track % 8 * 32;
      case D80 => ts, pos := Locate8050(D80, track, second);
      case D82 => ts, pos := Locate8050(D82, track, second);
    }
  }

  method Locate8050(kind: Kind, track: byte, second: byte) returns (ts: Ts, pos: byte)
    requires kind == D80 || kind == D82
    requires 1 <= track <= 154 && second <= 1
    ensures ts == BamSector(kind, track, second == 1) && pos == BamPos(kind, track, second == 1)
  {
    var s: nat, t: nat := 0, track;
    ghost var k: nat := 0;
    while t > 50
      invariant 1 <= t && track == t + 50 * k && s == 3 * k
    {
      s, t, k := s + 3, t - 50, k + 1;
    }
    ts, pos := Ts(38, s), (1 + 5 * t + second) % 256;
    var a, r := Pos8050(kind, track);
  }
}
