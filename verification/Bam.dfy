/** The block availability map as a function of the image's contents: free bits, free-sector
    counters, allocating and freeing (src/d64ops.c). The cache in front of it is in BamCache.dfy. */
module Bam {
  import opened Bits
  import opened Geometry
  import opened BamLayout

  function At(d: Disk, l: Loc): byte
    requires l.ts in d.blocks && 0 <= l.pos < 256
  {
    d.blocks[l.ts][l.pos]
  }

  function Put(d: Disk, l: Loc, v: byte): (r: Disk)
    requires l.ts in d.blocks && 0 <= l.pos < 256
    ensures r.kind == d.kind && r.lastTrack == d.lastTrack && r.lastBamTrack == d.lastBamTrack
  {
    d.(blocks := d.blocks[l.ts := d.blocks[l.ts][l.pos := v]])
  }

  /** Tracks and sectors the image has. */
  predicate Present(d: Disk, t: byte, s: byte) {
    InRange(d.kind, d.lastTrack, t, s)
  }

  /** Tracks and sectors the BAM has entries for. */
  predicate Mapped(d: Disk, t: byte, s: byte) {
    Present(d, t, s) && t <= d.lastBamTrack
  }

  /** Sectors that hold BAM entries. */
  predicate IsBam(kind: Kind, ts: Ts) {
    match kind
    case D41 => ts == Ts(18, 0)
    case D71 => ts == Ts(18, 0) || ts == Ts(53, 0)
    case D81 => ts == Ts(40, 1) || ts == Ts(40, 2)
    case DNP => ts.track == 1 && 2 <= ts.sector <= 33
    case D80 => ts.track == 38 && ts.sector in {0, 3}
    case D82 => ts.track == 38 && ts.sector in {0, 3, 6, 9}
  }

  lemma BamSectorIsBam(d: Disk, t: byte, bitfield: bool)
    requires 1 <= t <= d.lastTrack
    ensures IsBam(d.kind, BamSector(d.kind, t, bitfield))
  {
    match d.kind
    case D80 => var a, r := Pos8050(D80, t);
    case D82 => var a, r := Pos8050(D82, t);
    case _ =>
  }

  /** is_free */
  predicate IsFree(d: Disk, t: byte, s: byte)
    requires Present(d, t, s)
  {
    BamInside(d, t, s);
    Bit(At(d, BitLoc(d.kind, t, s)), BitIndex(d.kind, s))
  }

  function Counter(d: Disk, t: byte): byte
    requires Present(d, t, 0)
  {
    BamInside(d, t, 0);
    At(d, CountLoc(d.kind, t))
  }

  /** The image with the bit of one sector set or cleared. */
  function WithBit(d: Disk, t: byte, s: byte, on: bool): (r: Disk)
    requires Present(d, t, s)
    ensures r.kind == d.kind && r.lastTrack == d.lastTrack && r.lastBamTrack == d.lastBamTrack
  {
    BamInside(d, t, s);
    var l := BitLoc(d.kind, t, s);
    Put(d, l, if on then SetBit8(At(d, l), BitIndex(d.kind, s)) else ClearBit8(At(d, l), BitIndex(d.kind, s)))
  }

  /** The image with the counter of a track raised or lowered, within 0 and the number of sectors. */
  function WithCounter(d: Disk, t: byte, up: bool): (r: Disk)
    requires Present(d, t, 0) && d.kind != DNP
    ensures r.kind == d.kind && r.lastTrack == d.lastTrack && r.lastBamTrack == d.lastBamTrack
  {
    BamInside(d, t, 0);
    var c := Counter(d, t);
    if up && c < SectorsPerTrack(d.kind, t) then Put(d, CountLoc(d.kind, t), c + 1)
    else if !up && c > 0 then Put(d, CountLoc(d.kind, t), c - 1)
    else d
  }

  /** Bit and counter together; DNP images keep no counter. */
  function Toggled(d: Disk, t: byte, s: byte, on: bool): (r: Disk)
    requires Present(d, t, s)
    ensures r.kind == d.kind && r.lastTrack == d.lastTrack && r.lastBamTrack == d.lastBamTrack
  {
    var d1 := WithBit(d, t, s, on);
    if d.kind == DNP then d1 else WithCounter(d1, t, on)
  }

  /** allocate_sector */
  function Allocate(d: Disk, t: byte, s: byte): (r: Disk)
    requires Present(d, t, s)
    ensures r.kind == d.kind && r.lastTrack == d.lastTrack && r.lastBamTrack == d.lastBamTrack
  {
    if IsFree(d, t, s) then Toggled(d, t, s, false) else d
  }

  /** free_sector */
  function Release(d: Disk, t: byte, s: byte): (r: Disk)
    requires Present(d, t, s)
    ensures r.kind == d.kind && r.lastTrack == d.lastTrack && r.lastBamTrack == d.lastBamTrack
  {
    if IsFree(d, t, s) then d else Toggled(d, t, s, true)
  }

  // ---- Counting free bits ----------------------------------------------------

  /** Number of free bits among the first n sectors of a track. */
  function CountFree(d: Disk, t: byte, n: nat): (r: nat)
    requires Present(d, t, 0) && n <= SectorsPerTrack(d.kind, t)
    ensures r <= n
  {
    if n == 0 then 0 else CountFree(d, t, n - 1) + if IsFree(d, t, n - 1) then 1 else 0
  }

  /** Every counter tells the number of free bits of its track. */
  ghost predicate CountersMatch(d: Disk) {
    && (d.kind != DNP ==> forall t: byte :: 1 <= t <= d.lastBamTrack ==>
          Counter(d, t) == CountFree(d, t, SectorsPerTrack(d.kind, t)))
  }

  /** sectors_free, for all 8-bit track numbers. */
  function FreeSectors(d: Disk, t: byte): nat
  {
    if t < 1 || t > d.lastBamTrack then 0
    else if d.kind == DNP then CountFree(d, t, 256)
    else Counter(d, t)
  }

  lemma {:induction false} CountFreeSame(d: Disk, e: Disk, t: byte, n: nat)
    requires Present(d, t, 0) && Present(e, t, 0) && d.kind == e.kind && n <= SectorsPerTrack(d.kind, t)
    requires forall s: byte :: s < n ==> IsFree(d, t, s) == IsFree(e, t, s)
    ensures CountFree(d, t, n) == CountFree(e, t, n)
  {
    if n > 0 {
      CountFreeSame(d, e, t, n - 1);
    }
  }

  /** Clearing one free bit lowers the count by one. */
  lemma {:induction false} CountFreeMinusOne(d: Disk, e: Disk, t: byte, s: byte, n: nat)
    requires Present(d, t, 0) && Present(e, t, 0) && d.kind == e.kind && s < n <= SectorsPerTrack(d.kind, t)
    requires IsFree(d, t, s)
    requires forall s2: byte :: s2 < n ==> IsFree(e, t, s2) == (IsFree(d, t, s2) && s2 != s)
    ensures CountFree(e, t, n) == CountFree(d, t, n) - 1
  {
    if n == s + 1 {
      CountFreeSame(d, e, t, s);
    } else {
      CountFreeMinusOne(d, e, t, s, n - 1);
    }
  }

  /** A track has a free bit exactly when its count is positive. */
  lemma {:induction false} SomeFree(d: Disk, t: byte, n: nat) returns (s: byte)
    requires Present(d, t, 0) && n <= SectorsPerTrack(d.kind, t)
    requires CountFree(d, t, n) > 0
    ensures s < n && IsFree(d, t, s)
  {
    if IsFree(d, t, n - 1) {
      s := n - 1;
    } else {
      s := SomeFree(d, t, n - 1);
    }
  }

  lemma {:induction false} CountIsPositive(d: Disk, t: byte, n: nat, s: byte)
    requires Present(d, t, 0) && s < n <= SectorsPerTrack(d.kind, t) && IsFree(d, t, s)
    ensures CountFree(d, t, n) > 0
  {
    if s < n - 1 {
      CountIsPositive(d, t, n - 1, s);
    }
  }

  /** Byte i of the bitfield of a DNP track. */
  function NativeByte(d: Disk, t: byte, i: nat): byte
    requires d.kind == DNP && Present(d, t, 0) && i < 32
  {
    BamInside(d, t, 8 * i);
    At(d, Loc(BamSector(DNP, t, true), BamPos(DNP, t, true) + i))
  }

  /** The bits of a byte count for eight sectors, from the most significant one down. */
  lemma {:induction false} NativeByteBits(d: Disk, t: byte, i: nat, j: nat)
    requires d.kind == DNP && Present(d, t, 0) && i < 32 && j <= 8
    ensures CountFree(d, t, 8 * i + j) + PopCount(NativeByte(d, t, i), 8 - j)
         == CountFree(d, t, 8 * i) + PopCount(NativeByte(d, t, i), 8)
  {
    if j > 0 {
      NativeByteBits(d, t, i, j - 1);
      NativeBit(d, t, i, j);
    }
  }

  lemma NativeBit(d: Disk, t: byte, i: nat, j: nat)
    requires d.kind == DNP && Present(d, t, 0) && i < 32 && 1 <= j <= 8
    ensures Present(d, t, 8 * i + j - 1) && IsFree(d, t, 8 * i + j - 1) == Bit(NativeByte(d, t, i), 8 - j)
  {
    hide Bit;
    var s: byte := 8 * i + j - 1;
    assert s / 8 == i && s % 8 == j - 1;
  }

  // ---- What allocating and freeing change ------------------------------------

  lemma MappedApart(d: Disk, t1: byte, s1: byte, t2: byte, s2: byte)
    requires Mapped(d, t1, s1) && Mapped(d, t2, s2)
    ensures LocsApart(d.kind, t1, s1, t2, s2) && LocsApart(d.kind, t2, s2, t1, s1)
  {
    BamRangesDisjoint(d.kind, d.lastBamTrack, t1, s1, t2, s2);
    BamRangesDisjoint(d.kind, d.lastBamTrack, t2, s2, t1, s1);
  }

  lemma SameBit(kind: Kind, s1: byte, s2: byte)
    requires s1 / 8 == s2 / 8 && BitIndex(kind, s1) == BitIndex(kind, s2)
    ensures s1 == s2
  {}

  /** At the level of bytes: any two locations are updated independently. */
  lemma PutAt(d: Disk, l: Loc, v: byte, l2: Loc)
    requires l.ts in d.blocks && 0 <= l.pos < 256 && l2.ts in d.blocks && 0 <= l2.pos < 256
    ensures l2.ts in Put(d, l, v).blocks && At(Put(d, l, v), l2) == if l2 == l then v else At(d, l2)
  {}

  /** Away from the counter of its track, allocating only clears the bit of the sector. */
  lemma AllocateAt(d: Disk, t: byte, s: byte, l: Loc)
    requires Present(d, t, s) && l.ts in d.blocks && 0 <= l.pos < 256
    requires d.kind == DNP || l != CountLoc(d.kind, t)
    requires IsFree(d, t, s)
    ensures At(Allocate(d, t, s), l)
         == if l == BitLoc(d.kind, t, s) then ClearBit8(At(d, l), BitIndex(d.kind, s)) else At(d, l)
  {
    BamInside(d, t, s);
    var bl, cl := BitLoc(d.kind, t, s), CountLoc(d.kind, t);
    var d1 := Put(d, bl, ClearBit8(At(d, bl), BitIndex(d.kind, s)));
    PutAt(d, bl, ClearBit8(At(d, bl), BitIndex(d.kind, s)), l);
    if d.kind != DNP && Counter(d1, t) > 0 {
      PutAt(d1, cl, Counter(d1, t) - 1, l);
    }
  }

  lemma ReleaseAt(d: Disk, t: byte, s: byte, l: Loc)
    requires Present(d, t, s) && l.ts in d.blocks && 0 <= l.pos < 256
    requires d.kind == DNP || l != CountLoc(d.kind, t)
    requires !IsFree(d, t, s)
    ensures At(Release(d, t, s), l)
         == if l == BitLoc(d.kind, t, s) then SetBit8(At(d, l), BitIndex(d.kind, s)) else At(d, l)
  {
    BamInside(d, t, s);
    var bl, cl := BitLoc(d.kind, t, s), CountLoc(d.kind, t);
    var d1 := Put(d, bl, SetBit8(At(d, bl), BitIndex(d.kind, s)));
    PutAt(d, bl, SetBit8(At(d, bl), BitIndex(d.kind, s)), l);
    if d.kind != DNP && Counter(d1, t) < SectorsPerTrack(d.kind, t) {
      PutAt(d1, cl, Counter(d1, t) + 1, l);
    }
  }

  lemma AllocateBit(d: Disk, t: byte, s: byte, t2: byte, s2: byte)
    requires Mapped(d, t, s) && Mapped(d, t2, s2)
    ensures IsFree(Allocate(d, t, s), t2, s2) == (IsFree(d, t2, s2) && !(t2 == t && s2 == s))
  {
    if IsFree(d, t, s) {
      MappedApart(d, t, s, t2, s2);
      BamInside(d, t2, s2);
      AllocateAt(d, t, s, BitLoc(d.kind, t2, s2));
      if BitLoc(d.kind, t2, s2) == BitLoc(d.kind, t, s) && BitIndex(d.kind, s2) == BitIndex(d.kind, s) {
        SameBit(d.kind, s2, s);
      }
    }
  }

  lemma ReleaseBit(d: Disk, t: byte, s: byte, t2: byte, s2: byte)
    requires Mapped(d, t, s) && Mapped(d, t2, s2)
    ensures IsFree(Release(d, t, s), t2, s2) == (IsFree(d, t2, s2) || (t2 == t && s2 == s))
  {
    if !IsFree(d, t, s) {
      MappedApart(d, t, s, t2, s2);
      BamInside(d, t2, s2);
      ReleaseAt(d, t, s, BitLoc(d.kind, t2, s2));
      if BitLoc(d.kind, t2, s2) == BitLoc(d.kind, t, s) && BitIndex(d.kind, s2) == BitIndex(d.kind, s) {
        SameBit(d.kind, s2, s);
      }
    }
  }

  lemma AllocateCounter(d: Disk, t: byte, s: byte, t2: byte)
    requires Mapped(d, t, s) && Mapped(d, t2, 0) && d.kind != DNP
    ensures Counter(Allocate(d, t, s), t2)
         == Counter(d, t2) - if t2 == t && IsFree(d, t, s) && Counter(d, t) > 0 then 1 else 0
  {
    if IsFree(d, t, s) {
      MappedApart(d, t, s, t2, 0);
      BamInside(d, t, s);
      BamInside(d, t2, 0);
      var l, cl, cl2 := BitLoc(d.kind, t, s), CountLoc(d.kind, t), CountLoc(d.kind, t2);
      PutAt(d, l, ClearBit8(At(d, l), BitIndex(d.kind, s)), cl);
      PutAt(d, l, ClearBit8(At(d, l), BitIndex(d.kind, s)), cl2);
      assert cl == cl2 ==> t == t2;
    }
  }

  lemma ReleaseCounter(d: Disk, t: byte, s: byte, t2: byte)
    requires Mapped(d, t, s) && Mapped(d, t2, 0) && d.kind != DNP
    ensures Counter(Release(d, t, s), t2)
         == Counter(d, t2) + if t2 == t && !IsFree(d, t, s) && Counter(d, t) < SectorsPerTrack(d.kind, t) then 1 else 0
  {
    if !IsFree(d, t, s) {
      MappedApart(d, t, s, t2, 0);
      BamInside(d, t, s);
      BamInside(d, t2, 0);
      var l, cl, cl2 := BitLoc(d.kind, t, s), CountLoc(d.kind, t), CountLoc(d.kind, t2);
      PutAt(d, l, SetBit8(At(d, l), BitIndex(d.kind, s)), cl);
      PutAt(d, l, SetBit8(At(d, l), BitIndex(d.kind, s)), cl2);
      assert cl == cl2 ==> t == t2;
    }
  }

  /** Allocating keeps every counter equal to its track's number of free bits. */
  lemma AllocateKeepsCounters(d: Disk, t: byte, s: byte)
    requires CountersMatch(d) && Mapped(d, t, s)
    ensures CountersMatch(Allocate(d, t, s))
    ensures forall t2: byte :: 1 <= t2 <= d.lastBamTrack ==>
              FreeSectors(Allocate(d, t, s), t2) == FreeSectors(d, t2) - if t2 == t && IsFree(d, t, s) then 1 else 0
  {
    var e := Allocate(d, t, s);
    forall t2: byte | 1 <= t2 <= d.lastBamTrack
      ensures CountFree(e, t2, SectorsPerTrack(d.kind, t2))
           == CountFree(d, t2, SectorsPerTrack(d.kind, t2)) - if t2 == t && IsFree(d, t, s) then 1 else 0
      ensures FreeSectors(e, t2) == FreeSectors(d, t2) - if t2 == t && IsFree(d, t, s) then 1 else 0
      ensures d.kind != DNP ==> Counter(e, t2) == CountFree(e, t2, SectorsPerTrack(d.kind, t2))
    {
      var n := SectorsPerTrack(d.kind, t2);
      forall s2: byte | s2 < n
        ensures IsFree(e, t2, s2) == (IsFree(d, t2, s2) && !(t2 == t && s2 == s))
      {
        AllocateBit(d, t, s, t2, s2);
      }
      if t2 == t && IsFree(d, t, s) {
        CountFreeMinusOne(d, e, t, s, n);
        CountIsPositive(d, t, n, s);
      } else {
        CountFreeSame(d, e, t2, n);
      }
      if d.kind != DNP {
        AllocateCounter(d, t, s, t2);
      }
    }
  }

  /** So does freeing. */
  lemma ReleaseKeepsCounters(d: Disk, t: byte, s: byte)
    requires CountersMatch(d) && Mapped(d, t, s)
    ensures CountersMatch(Release(d, t, s))
    ensures forall t2: byte :: 1 <= t2 <= d.lastBamTrack ==>
              FreeSectors(Release(d, t, s), t2) == FreeSectors(d, t2) + if t2 == t && !IsFree(d, t, s) then 1 else 0
  {
    var e := Release(d, t, s);
    forall t2: byte | 1 <= t2 <= d.lastBamTrack
      ensures CountFree(e, t2, SectorsPerTrack(d.kind, t2))
           == CountFree(d, t2, SectorsPerTrack(d.kind, t2)) + if t2 == t && !IsFree(d, t, s) then 1 else 0
      ensures FreeSectors(e, t2) == FreeSectors(d, t2) + if t2 == t && !IsFree(d, t, s) then 1 else 0
      ensures d.kind != DNP ==> Counter(e, t2) == CountFree(e, t2, SectorsPerTrack(d.kind, t2))
    {
      var n := SectorsPerTrack(d.kind, t2);
      forall s2: byte | s2 < n
        ensures IsFree(e, t2, s2) == (IsFree(d, t2, s2) || (t2 == t && s2 == s))
      {
        ReleaseBit(d, t, s, t2, s2);
      }
      if t2 == t && !IsFree(d, t, s) {
        CountFreeMinusOne(e, d, t, s, n);
        CountIsPositive(e, t, n, s);
      } else {
        CountFreeSame(d, e, t2, n);
      }
      if d.kind != DNP {
        ReleaseCounter(d, t, s, t2);
      }
    }
  }

  lemma SetClear(b: byte, i: nat)
    requires i < 8 && Bit(b, i)
    ensures SetBit8(ClearBit8(b, i), i) == b
  {
    SubPow2(b, i);
  }

  /** Freeing a sector just allocated gives back the image byte for byte. */
  lemma ReleaseUndoesAllocate(d: Disk, t: byte, s: byte)
    requires CountersMatch(d) && Mapped(d, t, s) && IsFree(d, t, s)
    ensures Release(Allocate(d, t, s), t, s) == d
  {
    var e := Allocate(d, t, s);
    var r := Release(e, t, s);
    AllocateBit(d, t, s, t, s);
    BamInside(d, t, s);
    MappedApart(d, t, s, t, s);
    var bl, cl := BitLoc(d.kind, t, s), CountLoc(d.kind, t);
    SetClear(At(d, bl), BitIndex(d.kind, s));
    if d.kind != DNP {
      CountIsPositive(d, t, SectorsPerTrack(d.kind, t), s);
      AllocateCounter(d, t, s, t);
      ReleaseCounter(e, t, s, t);
    }
    forall l: Loc | l.ts in d.blocks && 0 <= l.pos < 256
      ensures At(r, l) == At(d, l)
    {
      if d.kind != DNP && l == cl {
      } else {
        AllocateAt(d, t, s, l);
        ReleaseAt(e, t, s, l);
      }
    }
    SameBytes(r, d);
  }

  lemma SameBytes(d: Disk, e: Disk)
    requires d.blocks.Keys == e.blocks.Keys && d.(blocks := map[]) == e.(blocks := map[])
    requires forall l: Loc :: l.ts in d.blocks && 0 <= l.pos < 256 ==> At(d, l) == At(e, l)
    ensures d == e
  {
    forall ts | ts in d.blocks
      ensures d.blocks[ts] == e.blocks[ts]
    {
      assert forall i :: 0 <= i < 256 ==> d.blocks[ts][i] == At(d, Loc(ts, i));
      assert forall i :: 0 <= i < 256 ==> e.blocks[ts][i] == At(e, Loc(ts, i));
    }
    assert d.blocks == e.blocks;
  }

  /** Allocating and freeing write no byte of a header or label, and no sector outside the BAM. */
  lemma BamWritesStayInside(d: Disk, t: byte, s: byte, l: Loc)
    requires Mapped(d, t, s) && l.ts in d.blocks && 0 <= l.pos < 256
    requires (l.ts != BamSector(d.kind, t, true) && (d.kind == DNP || l.ts != BamSector(d.kind, t, false)))
          || HeaderByte(d.kind, l.ts, l.pos)
    ensures At(Allocate(d, t, s), l) == At(d, l) == At(Release(d, t, s), l)
  {
    MappedApart(d, t, s, t, s);
    if IsFree(d, t, s) {
      AllocateAt(d, t, s, l);
    } else {
      ReleaseAt(d, t, s, l);
    }
  }

  /** A byte of the disk label that freeing a sector changes. */
  ghost predicate LabelChanged(d: Disk, e: Disk) {
    exists l: Loc :: InLabel(d, l) && l.ts in e.blocks && At(e, l) != At(d, l)
  }

  predicate InLabel(d: Disk, l: Loc) {
    l.ts in d.blocks && 0 <= l.pos < 256 && l.ts == Ts(18, 0) && HeaderByte(D41, l.ts, l.pos)
  }

  /** The extra tracks of a D41 image have no entry of their own in the BAM: freeing one of their sectors,
      as deleting a file on them does, changes the disk label. Only the bit of sector 16 of track 42 lies
      right behind it, and then the label changes if and only if the byte read as the counter of the track,
      which is in the label, is not at its limit. */
  lemma ExtraTrackHitsLabel(d: Disk, t: byte, s: byte)
    requires d.kind == D41 && t > 35 && Present(d, t, s) && !IsFree(d, t, s)
    ensures LabelChanged(d, Release(d, t, s)) <==> t != 42 || s != 16 || Counter(d, t) < 17
  {
    hide LabelChanged;
    ExtraTrackBytes(d, t, s);
    var e := Release(d, t, s);
    var bit, count := BitLoc(D41, t, s), CountLoc(D41, t);
    if t != 42 || s != 16 {
      Witness(d, e, bit);
    } else if Counter(d, t) < 17 {
      Witness(d, e, count);
    } else {
      NoWitness(d, e);
    }
  }

  lemma Witness(d: Disk, e: Disk, l: Loc)
    requires InLabel(d, l) && l.ts in e.blocks && At(e, l) != At(d, l)
    ensures LabelChanged(d, e)
  {}

  lemma NoWitness(d: Disk, e: Disk)
    requires forall l: Loc :: InLabel(d, l) && l.ts in e.blocks ==> At(e, l) == At(d, l)
    ensures !LabelChanged(d, e)
  {}

  /** The two bytes that freeing a sector of an extra track writes. */
  lemma ExtraTrackBytes(d: Disk, t: byte, s: byte)
    requires d.kind == D41 && t > 35 && Present(d, t, s) && !IsFree(d, t, s)
    ensures BitLoc(D41, t, s) == Loc(Ts(18, 0), 4 * t + 1 + s / 8) && CountLoc(D41, t) == Loc(Ts(18, 0), 4 * t) && s / 8 <= 2
    ensures var e := Release(d, t, s); var bit, count := BitLoc(D41, t, s), CountLoc(D41, t);
            && bit.ts in d.blocks && bit.ts in e.blocks && bit.pos < 256
            && At(e, bit) != At(d, bit)
            && At(e, count) == (if Counter(d, t) < 17 then Counter(d, t) + 1 else Counter(d, t)) && At(d, count) == Counter(d, t)
            && forall l: Loc :: l.ts in d.blocks && 0 <= l.pos < 256 && l != bit && l != count ==> l.ts in e.blocks && At(e, l) == At(d, l)
  {
    BamInside(d, t, s);
    BamInside(d, t, 0);
    assert (4 * t + 1) % 256 == 4 * t + 1 && (4 * t) % 256 == 4 * t && s / 8 <= 2;
    var bit, count := BitLoc(D41, t, s), CountLoc(D41, t);
    var d1 := WithBit(d, t, s, true);
    assert Bit(At(d1, bit), BitIndex(D41, s)) && !Bit(At(d, bit), BitIndex(D41, s));
    assert Counter(d1, t) == Counter(d, t);
  }
}
