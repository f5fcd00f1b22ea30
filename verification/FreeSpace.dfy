/** Free-space accounting of a Dxx image: d64_freeblocks and the "mark all sectors as free" step of
    d64_format (src/d64ops.c). */
module FreeSpace {
  import opened Bits
  import opened Geometry
  import opened BamLayout
  import opened Bam

  /** Sectors that d64_freeblocks does not report. */
  predicate Reserved(kind: Kind, t: byte, s: int) {
    match kind
    case D41 => t == 18 || t == 53
    case D71 => t == 18 || t == 53
    case D81 => t == 40
    case D80 => t == 39
    case D82 => t == 39
    case DNP => t == 1 && s < 64
  }

  /** Reference definition: free bits off the reserved area, among the first n sectors of a track. */
  function Reportable(d: Disk, t: byte, n: nat): (r: nat)
    requires Present(d, t, 0) && n <= SectorsPerTrack(d.kind, t)
    ensures r <= n
  {
    if n == 0 then 0
    else Reportable(d, t, n - 1) + if IsFree(d, t, n - 1) && !Reserved(d.kind, t, n - 1) then 1 else 0
  }

  /** ... and on the tracks 1 to t. */
  function ReportableUpTo(d: Disk, t: byte): (r: nat)
    requires t <= d.lastBamTrack
    ensures r <= 256 * t
  {
    if t == 0 then 0
    else LastBamTrack(d); ReportableUpTo(d, t - 1) + Reportable(d, t, SectorsPerTrack(d.kind, t))
  }

  lemma LastBamTrack(d: Disk)
    ensures d.lastBamTrack <= d.lastTrack
  {}

  function FreeBlocksOf(d: Disk): nat
  {
    ReportableUpTo(d, d.lastBamTrack)
  }

  lemma {:induction false} ReportableIsCount(d: Disk, t: byte, n: nat)
    requires Present(d, t, 0) && n <= SectorsPerTrack(d.kind, t)
    requires forall s: nat :: s < n ==> !Reserved(d.kind, t, s)
    ensures Reportable(d, t, n) == CountFree(d, t, n)
  {
    if n > 0 {
      ReportableIsCount(d, t, n - 1);
    }
  }

  lemma {:induction false} ReservedIsZero(d: Disk, t: byte, n: nat)
    requires Present(d, t, 0) && n <= SectorsPerTrack(d.kind, t)
    requires forall s: nat :: s < n ==> Reserved(d.kind, t, s)
    ensures Reportable(d, t, n) == 0
  {
    if n > 0 {
      ReservedIsZero(d, t, n - 1);
    }
  }

  /** The switch of d64_freeblocks: tracks it leaves out altogether. */
  predicate SkippedTrack(kind: Kind, i: byte) {
    match kind
    case D81 => i == 40
    case DNP => false
    case D80 => i == 39
    case D82 => i == 39
    case _ => i == 18 || i == 53
  }

  lemma TrackTotals(d: Disk, i: byte)
    requires CountersMatch(d) && 1 <= i <= d.lastBamTrack
    ensures Present(d, i, 0)
    ensures SkippedTrack(d.kind, i) ==> Reportable(d, i, SectorsPerTrack(d.kind, i)) == 0
    ensures !SkippedTrack(d.kind, i) && !(d.kind == DNP && i == 1) ==>
              Reportable(d, i, SectorsPerTrack(d.kind, i)) == FreeSectors(d, i)
  {
    var n := SectorsPerTrack(d.kind, i);
    if SkippedTrack(d.kind, i) {
      ReservedIsZero(d, i, n);
    } else if !(d.kind == DNP && i == 1) {
      ReportableIsCount(d, i, n);
    }
  }

  /** DNP images: sectors 0 to 63 of track 1 are not reported. */
  method FirstNativeTrack(d: Disk) returns (blocks: nat)
    requires d.kind == DNP
    ensures blocks == Reportable(d, 1, 256)
  {
    blocks := 0;
    ReservedIsZero(d, 1, 64);
    var j := 64;
    while j < 256
      invariant 64 <= j <= 256
      invariant blocks == Reportable(d, 1, j)
    {
      if IsFree(d, 1, j) {
        blocks := blocks + 1;
      }
      j := j + 1;
    }
  }

  /** One round of the loop of d64_freeblocks. */
  method TrackBlocks(d: Disk, i: byte) returns (blocks: nat)
    requires CountersMatch(d) && 1 <= i <= d.lastBamTrack
    ensures ReportableUpTo(d, i) == ReportableUpTo(d, i - 1) + blocks
  {
    TrackTotals(d, i);
    if SkippedTrack(d.kind, i) {
      blocks := 0;
    } else if d.kind == DNP && i == 1 {
      blocks := FirstNativeTrack(d);
    } else {
      blocks := FreeSectors(d, i);
    }
  }

  /** d64_freeblocks, with its 8-bit track counter. With matching counters the result is the number
      of free bits off the reserved area, and it fits the 16-bit return value. */
  method FreeBlocks(d: Disk) returns (blocks: nat)
    requires CountersMatch(d)
    ensures blocks == FreeBlocksOf(d) < 0x10000
  {
    blocks := 0;
    var i: byte := 1;
    ghost var done: byte := 0;
    while i != 0 && i <= d.lastBamTrack
      invariant done <= d.lastBamTrack && i == (if done == 255 then 0 else done + 1)
      invariant blocks == ReportableUpTo(d, done)
      decreases 256 - done
    {
      var n := TrackBlocks(d, i);
      blocks := blocks + n;
      done := i;
      i := if i == 255 then 0 else i + 1;
    }
  }

  // ---- Conservation ------------------------------------------------------------

  /** Taking one free bit out of a disk that is otherwise the same. */
  ghost predicate OneBitTaken(d: Disk, e: Disk, t: byte, s: byte) {
    && Mapped(d, t, s) && e.kind == d.kind && e.lastTrack == d.lastTrack && e.lastBamTrack == d.lastBamTrack
    && IsFree(d, t, s)
    && forall t2: byte, s2: byte :: Mapped(d, t2, s2) ==> IsFree(e, t2, s2) == (IsFree(d, t2, s2) && !(t2 == t && s2 == s))
  }

  lemma {:induction false} ReportableTaken(d: Disk, e: Disk, t: byte, s: byte, t2: byte, n: nat)
    requires OneBitTaken(d, e, t, s) && Mapped(d, t2, 0) && n <= SectorsPerTrack(d.kind, t2)
    ensures Reportable(e, t2, n) == Reportable(d, t2, n) - if t2 == t && s < n && !Reserved(d.kind, t, s) then 1 else 0
  {
    if n > 0 {
      ReportableTaken(d, e, t, s, t2, n - 1);
      assert Mapped(d, t2, n - 1);
    }
  }

  lemma {:induction false} ReportableUpToTaken(d: Disk, e: Disk, t: byte, s: byte, t2: byte)
    requires OneBitTaken(d, e, t, s) && t2 <= d.lastBamTrack
    ensures ReportableUpTo(e, t2) == ReportableUpTo(d, t2) - if t <= t2 && !Reserved(d.kind, t, s) then 1 else 0
  {
    if t2 > 0 {
      LastBamTrack(d);
      ReportableUpToTaken(d, e, t, s, t2 - 1);
      ReportableTaken(d, e, t, s, t2, SectorsPerTrack(d.kind, t2));
    }
  }

  /** Allocating a free sector takes exactly one reported block, unless the sector is reserved. */
  lemma AllocateTakesOneBlock(d: Disk, t: byte, s: byte)
    requires Mapped(d, t, s)
    ensures FreeBlocksOf(Allocate(d, t, s))
         == FreeBlocksOf(d) - if IsFree(d, t, s) && !Reserved(d.kind, t, s) then 1 else 0
  {
    if IsFree(d, t, s) {
      var e := Allocate(d, t, s);
      forall t2: byte, s2: byte | Mapped(d, t2, s2)
        ensures IsFree(e, t2, s2) == (IsFree(d, t2, s2) && !(t2 == t && s2 == s))
      {
        AllocateBit(d, t, s, t2, s2);
      }
      ReportableUpToTaken(d, e, t, s, d.lastBamTrack);
    }
  }

  /** Freeing an allocated sector gives exactly one block back. */
  lemma ReleaseGivesOneBlock(d: Disk, t: byte, s: byte)
    requires Mapped(d, t, s)
    ensures FreeBlocksOf(Release(d, t, s))
         == FreeBlocksOf(d) + if !IsFree(d, t, s) && !Reserved(d.kind, t, s) then 1 else 0
  {
    if !IsFree(d, t, s) {
      var e := Release(d, t, s);
      ReleaseBit(d, t, s, t, s);
      forall t2: byte, s2: byte | Mapped(e, t2, s2)
        ensures IsFree(d, t2, s2) == (IsFree(e, t2, s2) && !(t2 == t && s2 == s))
      {
        ReleaseBit(d, t, s, t2, s2);
      }
      ReportableUpToTaken(e, d, t, s, d.lastBamTrack);
    }
  }

  // ---- Marking everything free ---------------------------------------------------

  function ReleaseTrack(d: Disk, t: byte, n: nat): (r: Disk)
    requires Mapped(d, t, 0) && n <= SectorsPerTrack(d.kind, t)
    ensures r.(blocks := map[]) == d.(blocks := map[])
  {
    if n == 0 then d else Release(ReleaseTrack(d, t, n - 1), t, n - 1)
  }

  /** The loops of d64_format over the tracks 1 to t. */
  function ReleaseTracks(d: Disk, t: byte): (r: Disk)
    requires t <= d.lastBamTrack
    ensures r.(blocks := map[]) == d.(blocks := map[])
  {
    if t == 0 then d else
    var e := ReleaseTracks(d, t - 1);
    LastBamTrack(e);
    ReleaseTrack(e, t, SectorsPerTrack(d.kind, t))
  }

  lemma {:induction false} ReleaseTrackFrees(d: Disk, t: byte, n: nat)
    requires CountersMatch(d) && Mapped(d, t, 0) && n <= SectorsPerTrack(d.kind, t)
    ensures CountersMatch(ReleaseTrack(d, t, n))
    ensures forall t2: byte, s2: byte :: Mapped(d, t2, s2) ==>
              IsFree(ReleaseTrack(d, t, n), t2, s2) == (IsFree(d, t2, s2) || (t2 == t && s2 < n))
  {
    hide IsFree, CountersMatch;
    if n > 0 {
      ReleaseTrackFrees(d, t, n - 1);
      var e := ReleaseTrack(d, t, n - 1);
      ReleaseKeepsCounters(e, t, n - 1);
      forall t2: byte, s2: byte | Mapped(d, t2, s2)
        ensures IsFree(Release(e, t, n - 1), t2, s2) == (IsFree(e, t2, s2) || (t2 == t && s2 == n - 1))
      {
        ReleaseBit(e, t, n - 1, t2, s2);
      }
    }
  }

  lemma {:induction false} ReleaseTracksFrees(d: Disk, t: byte)
    requires CountersMatch(d) && t <= d.lastBamTrack
    ensures CountersMatch(ReleaseTracks(d, t))
    ensures forall t2: byte, s2: byte :: Mapped(d, t2, s2) && t2 <= t ==> IsFree(ReleaseTracks(d, t), t2, s2)
  {
    hide IsFree, CountersMatch;
    if t > 0 {
      LastBamTrack(d);
      ReleaseTracksFrees(d, t - 1);
      ReleaseTrackFrees(ReleaseTracks(d, t - 1), t, SectorsPerTrack(d.kind, t));
    }
  }

  lemma {:induction false} AllFreeCount(d: Disk, t: byte, n: nat)
    requires Mapped(d, t, 0) && n <= SectorsPerTrack(d.kind, t)
    requires forall s: byte :: s < n ==> IsFree(d, t, s)
    ensures CountFree(d, t, n) == n
  {
    if n > 0 {
      AllFreeCount(d, t, n - 1);
    }
  }

  lemma {:induction false} NoneFreeCount(d: Disk, t: byte, n: nat)
    requires Mapped(d, t, 0) && n <= SectorsPerTrack(d.kind, t)
    requires forall s: byte :: s < n ==> !IsFree(d, t, s)
    ensures CountFree(d, t, n) == 0
  {
    if n > 0 {
      NoneFreeCount(d, t, n - 1);
    }
  }

  /** Cleared BAM sectors are a state from which the format loops fill every track: afterwards each
      counter shows the number of sectors of its track. */
  lemma FormatFillsEveryTrack(d: Disk)
    requires forall t: byte, s: byte :: Mapped(d, t, s) ==> !IsFree(d, t, s)
    requires d.kind != DNP ==> forall t: byte :: Mapped(d, t, 0) ==> Counter(d, t) == 0
    ensures CountersMatch(ReleaseTracks(d, d.lastBamTrack))
    ensures forall t: byte :: 1 <= t <= d.lastBamTrack ==>
              FreeSectors(ReleaseTracks(d, d.lastBamTrack), t) == SectorsPerTrack(d.kind, t)
  {
    hide IsFree, ReleaseTracks;
    LastBamTrack(d);
    forall t: byte | 1 <= t <= d.lastBamTrack
      ensures CountFree(d, t, SectorsPerTrack(d.kind, t)) == 0
      ensures d.kind != DNP ==> Counter(d, t) == 0
    {
      assert Mapped(d, t, 0);
      forall s: byte | s < SectorsPerTrack(d.kind, t) ensures !IsFree(d, t, s) {
        assert Mapped(d, t, s);
      }
      NoneFreeCount(d, t, SectorsPerTrack(d.kind, t));
    }
    ReleaseTracksFrees(d, d.lastBamTrack);
    var r := ReleaseTracks(d, d.lastBamTrack);
    forall t: byte | 1 <= t <= d.lastBamTrack
      ensures FreeSectors(r, t) == SectorsPerTrack(d.kind, t)
    {
      forall s: byte | s < SectorsPerTrack(d.kind, t) ensures IsFree(r, t, s) {
        assert Mapped(d, t, s);
      }
      AllFreeCount(r, t, SectorsPerTrack(d.kind, t));
    }
  }
}
