/** Choosing the first and the next sector of a file (get_first_sector and get_next_sector of
    src/d64ops.c). The methods read the BAM as the cache presents it. */
module SectorSearch {
  import opened Bits
  import opened Geometry
  import opened BamLayout
  import opened Bam

  function FileInterleave(kind: Kind): byte {
    match kind case D41 => 10 case D71 => 6 case D81 => 1 case D80 => 5 case D82 => 5 case DNP => 1
  }

  function DirInterleave(kind: Kind): byte {
    match kind case D41 => 3 case D71 => 3 case D81 => 1 case D80 => 3 case D82 => 3 case DNP => 1
  }

  // ---- get_first_sector, all formats but DNP ------------------------------------

  /** Value of an int8_t variable after storing x in it. */
  function Int8(x: int): int
    requires -256 <= x < 256
  {
    if x > 127 then x - 256 else if x < -128 then x + 256 else x
  }

  /** The distance sequence 1, -1, 2, -2, ... as the 8-bit signed variable takes it. */
  function NextDistance(distance: int): (r: int)
    requires -128 <= distance <= 127
    ensures -128 <= r <= 127
  {
    var d := Int8(-distance);
    if d > 0 then Int8(d + 1) else d
  }

  /** 8-bit track number at a distance below the directory track. */
  function TrackAt(kind: Kind, distance: int): byte
    requires -128 <= distance <= 127
  {
    var t := DirTrack(kind) - distance;
    if t < 0 then t + 256 else t
  }

  function Abs(x: int): nat {
    if x < 0 then -x else x
  }

  /** The search order: nearer tracks first, and the lower one of two equally near ones. */
  predicate Before(kind: Kind, t: byte, t2: int) {
    var a, b := Abs(t - DirTrack(kind)), Abs(t2 - DirTrack(kind));
    a < b || (a == b && t < t2)
  }

  /** Tracks the search for a first sector may return. */
  predicate FileTrack(d: Disk, t: byte) {
    1 <= t <= d.lastBamTrack && t != DirTrack(d.kind)
  }

  lemma TrackAtDistance(d: Disk, distance: int)
    requires d.kind != DNP && Abs(distance) < d.lastBamTrack && Abs(distance) <= 115 && distance != 0
    ensures FreeSectors(d, TrackAt(d.kind, distance)) > 0 ==> TrackAt(d.kind, distance) == DirTrack(d.kind) - distance
    ensures 1 <= DirTrack(d.kind) - distance <= d.lastBamTrack ==> TrackAt(d.kind, distance) == DirTrack(d.kind) - distance
  {}

  /** The first loop of get_first_sector. On a D82 the 8-bit distance cannot count up to the 154
      tracks, so the loop ends only if it finds something (see DoubleSidedSearchNeverEnds). */
  method NearestTrack(d: Disk) returns (found: bool, t: byte)
    requires d.kind != DNP
    requires d.kind == D82 ==> exists t: byte :: FileTrack(d, t) && FreeSectors(d, t) > 0
    ensures found ==> FileTrack(d, t) && FreeSectors(d, t) > 0
    ensures found ==> forall t2: byte :: FileTrack(d, t2) && Before(d.kind, t2, t) ==> FreeSectors(d, t2) == 0
    ensures !found ==> forall t2: byte :: FileTrack(d, t2) ==> FreeSectors(d, t2) == 0
  {
    var distance := 1;
    ghost var limit := if d.kind == D82 then 115 else d.lastBamTrack - 1;
    while distance < d.lastBamTrack as int
      invariant distance != 0 && Abs(distance) <= limit + 1
      invariant distance < 0 ==> -distance <= limit
      invariant forall t2: byte :: FileTrack(d, t2) && Before(d.kind, t2, DirTrack(d.kind) - distance) ==> FreeSectors(d, t2) == 0
      invariant d.kind == D82 ==> Abs(distance) <= 115
      decreases limit + 1 - Abs(distance), distance
    {
      TrackAtDistance(d, distance);
      if FreeSectors(d, TrackAt(d.kind, distance)) > 0 {
        return true, TrackAt(d.kind, distance);
      }
      distance := NextDistance(distance);
    }
    found, t := false, 0;
  }

  /** Value of the distance variable after n rounds of the loop. */
  function DistanceAfter(n: nat): (r: int)
    ensures -128 <= r <= 127 && r != 0
  {
    if n == 0 then 1 else NextDistance(DistanceAfter(n - 1))
  }

  /** On a full D82 neither exit of the loop is ever taken: the signed 8-bit distance stays below 154
      for ever, and no track it leads to has a free sector. */
  lemma DoubleSidedSearchNeverEnds(d: Disk, n: nat)
    requires d.kind == D82
    requires forall t: byte :: FileTrack(d, t) ==> FreeSectors(d, t) == 0
    ensures DistanceAfter(n) < d.lastBamTrack && FreeSectors(d, TrackAt(d.kind, DistanceAfter(n))) == 0
  {
    var t := TrackAt(d.kind, DistanceAfter(n));
    assert t != DirTrack(d.kind);
    assert !FileTrack(d, t) ==> FreeSectors(d, t) == 0;
  }

  /** The last loop of get_first_sector: the lowest free sector of a track. */
  method LowestFree(d: Disk, t: byte) returns (found: bool, s: byte)
    requires Present(d, t, 0)
    ensures found ==> Present(d, t, s) && IsFree(d, t, s) && forall s2: byte :: s2 < s ==> !IsFree(d, t, s2)
    ensures found <==> CountFree(d, t, SectorsPerTrack(d.kind, t)) > 0
  {
    var i := 0;
    var n := SectorsPerTrack(d.kind, t);
    while i < n
      invariant 0 <= i <= n
      invariant forall s2: byte :: s2 < i ==> !IsFree(d, t, s2)
      invariant CountFree(d, t, i) == 0
    {
      if IsFree(d, t, i) {
        CountIsPositive(d, t, n, i);
        return true, i;
      }
      i := i + 1;
    }
    found, s := false, 0;
  }

  /** get_first_sector for the formats with a directory track. The error channel is set on every
      failure. When the counters match, the search fails only if no file track has a free sector. */
  method FirstSector(d: Disk) returns (found: bool, t: byte, s: byte)
    requires d.kind != DNP
    requires d.kind == D82 ==> exists t: byte :: FileTrack(d, t) && FreeSectors(d, t) > 0
    ensures found ==> FileTrack(d, t) && Mapped(d, t, s) && IsFree(d, t, s)
    ensures found ==> forall s2: byte :: s2 < s ==> !IsFree(d, t, s2)
    ensures found ==> forall t2: byte :: FileTrack(d, t2) && Before(d.kind, t2, t) ==> FreeSectors(d, t2) == 0
    ensures CountersMatch(d) && !found ==> forall t2: byte :: FileTrack(d, t2) ==> FreeSectors(d, t2) == 0
  {
    found, t := NearestTrack(d);
    s := 0;
    if found {
      found, s := LowestFree(d, t);
    }
  }

  // ---- get_first_sector on DNP images --------------------------------------------

  /** The 8-bit track counter of both DNP searches: it wraps to track 1 as soon as it reaches the
      last track, which is therefore skipped, or overflows. */
  function NextNativeTrack(last: byte, t: byte): byte {
    var u := (t + 1) % 256;
    if u == last || u == 0 then 1 else u
  }

  /** Tracks the first search on a DNP image looks at: all but the last one, which only a small image
      does not leave out. */
  predicate NativeSearched(d: Disk, t: byte) {
    1 <= t <= d.lastBamTrack && (t < d.lastBamTrack || d.lastBamTrack <= 2)
  }

  /** The search starts on track 2 and gives up when it comes back there. With two tracks it never does. */
  ghost predicate FirstNativeEnds(d: Disk) {
    d.lastBamTrack != 2 || exists t: byte :: 1 <= t <= 2 && FreeSectors(d, t) > 0
  }

  /** Tracks 2, 3, ..., last - 1, 1. The error channel is left alone when no track has a free sector. */
  method FirstNativeSector(d: Disk) returns (found: bool, t: byte, s: byte)
    requires d.kind == DNP && FirstNativeEnds(d)
    ensures found ==> Mapped(d, t, s) && IsFree(d, t, s) && NativeSearched(d, t)
    ensures found ==> forall s2: byte :: s2 < s ==> !IsFree(d, t, s2)
    ensures found ==> forall t2: byte :: 2 <= t2 && (t2 < t || t == 1) && NativeSearched(d, t2) ==> FreeSectors(d, t2) == 0
    ensures !found <==> forall t2: byte :: NativeSearched(d, t2) ==> FreeSectors(d, t2) == 0
  {
    hide FreeSectors;
    t := 2;
    while FreeSectors(d, t) == 0
      invariant 1 <= t && (d.lastBamTrack >= 3 ==> t < d.lastBamTrack)
      invariant t != 1 ==> forall t2: byte :: 2 <= t2 < t ==> FreeSectors(d, t2) == 0
      invariant t == 1 ==> forall t2: byte :: 2 <= t2 && NativeSearched(d, t2) ==> FreeSectors(d, t2) == 0
      decreases if t == 1 then 0 else 256 - t
    {
      t := NextNativeTrack(d.lastBamTrack, t);
      if t == 2 {
        return false, 0, 0;
      }
    }
    SpaceOnNative(d, t);
    found, s := LowestFree(d, t);
  }

  lemma SpaceOnNative(d: Disk, t: byte)
    requires d.kind == DNP && FreeSectors(d, t) > 0
    ensures Mapped(d, t, 0) && CountFree(d, t, SectorsPerTrack(d.kind, t)) > 0
  {}

  // ---- get_next_sector on DNP images ----------------------------------------------

  /** The search from a track comes back to it, unless it is the last one and another one as well; then
      it ends only at a free sector. */
  ghost predicate NextNativeEnds(d: Disk, t0: byte) {
    t0 < d.lastBamTrack || d.lastBamTrack == 1 || exists t: byte :: 1 <= t <= d.lastBamTrack && FreeSectors(d, t) > 0
  }

  /** The track loop of get_next_sector. It visits every track but the last one; started on the last one
      it looks there first. */
  method NextNativeTrackWithSpace(d: Disk, t0: byte) returns (found: bool, t: byte)
    requires d.kind == DNP && 1 <= t0 <= d.lastBamTrack && NextNativeEnds(d, t0)
    ensures found ==> 1 <= t <= d.lastBamTrack && FreeSectors(d, t) > 0 && (t == t0 || (t < d.lastBamTrack && FreeSectors(d, t0) == 0))
    ensures !found <==> FreeSectors(d, t0) == 0 && forall t2: byte :: 1 <= t2 < d.lastBamTrack ==> FreeSectors(d, t2) == 0
  {
    hide FreeSectors;
    t := t0;
    while FreeSectors(d, t) == 0
      invariant 1 <= t && (t0 < d.lastBamTrack ==> t < d.lastBamTrack)
      invariant t != t0 ==> FreeSectors(d, t0) == 0
      invariant t >= t0 ==> forall t2: byte :: t0 <= t2 < t ==> FreeSectors(d, t2) == 0
      invariant t < t0 ==> forall t2: byte :: (t0 <= t2 < d.lastBamTrack || 1 <= t2 < t) ==> FreeSectors(d, t2) == 0
      decreases if t >= t0 then 512 - t else t0 - t
    {
      t := NextNativeTrack(d.lastBamTrack, t);
      if t == t0 {
        return false, t;
      }
    }
    SpaceInside(d, t);
    found := true;
  }

  lemma SpaceInside(d: Disk, t: byte)
    ensures FreeSectors(d, t) > 0 ==> 1 <= t <= d.lastBamTrack
  {}

  /** Track reached after n rounds when the search starts on the last track. */
  function NativeTrackAfter(last: byte, n: nat): byte {
    if n == 0 then last else NextNativeTrack(last, NativeTrackAfter(last, n - 1))
  }

  /** Where NextNativeEnds does not hold, neither way out of the loop is ever taken. */
  lemma {:induction false} NativeSearchNeverEnds(d: Disk, t0: byte, n: nat)
    requires d.kind == DNP && 1 <= t0 <= d.lastBamTrack && !NextNativeEnds(d, t0)
    ensures t0 == d.lastBamTrack && FreeSectors(d, NativeTrackAfter(t0, n)) == 0
    ensures n > 0 ==> NativeTrackAfter(t0, n) != t0
    ensures NativeTrackAfter(t0, n) >= 1
  {
    if n > 0 {
      NativeSearchNeverEnds(d, t0, n - 1);
    }
  }

  /** The first search on a full image of two tracks is in the same loop: it starts on the last track. */
  lemma FirstNativeNeverEnds(d: Disk, n: nat)
    requires d.kind == DNP && !FirstNativeEnds(d)
    ensures NativeTrackAfter(d.lastBamTrack, 0) == 2 && FreeSectors(d, NativeTrackAfter(d.lastBamTrack, n)) == 0
    ensures n > 0 ==> NativeTrackAfter(d.lastBamTrack, n) != 2
  {
    NativeSearchNeverEnds(d, 2, n);
  }

  function Steps(n: nat, s: nat, f: nat): nat
    requires s < n && f < n
  {
    if f >= s then f - s else n - s + f
  }

  /** The last loop on DNP images; the sector number wraps from 255 to 0. */
  method NextFreeNative(d: Disk, t: byte, s0: byte) returns (s: byte)
    requires d.kind == DNP && Mapped(d, t, 0) && FreeSectors(d, t) > 0
    ensures Mapped(d, t, s) && IsFree(d, t, s)
  {
    s := s0;
    ghost var f := SomeFree(d, t, 256);
    while !IsFree(d, t, s)
      decreases Steps(256, s, f)
    {
      s := (s + 1) % 256;
    }
  }

  // ---- get_next_sector on the other formats -----------------------------------------

  /** Tracks the search from t0 looks at: not the directory track and, on a D71, not track 53 unless
      it starts there. */
  predicate Searched(kind: Kind, t0: byte, t: int) {
    t != DirTrack(kind) && (kind == D71 && t == 53 ==> t0 == 53)
  }

  /** No searched track from lo to hi has a free sector. */
  ghost predicate Exhausted(d: Disk, t0: byte, lo: int, hi: int) {
    forall t: byte :: lo <= t <= hi && Searched(d.kind, t0, t) ==> FreeSectors(d, t) == 0
  }

  /** What is known about the tracks already left, after the given number of turns. */
  ghost predicate SearchState(d: Disk, t0: byte, t: byte, tries: nat) {
    var dir := DirTrack(d.kind);
    && tries <= 3 && t != dir && t0 != dir && 1 <= t
    && (tries > 0 ==> t <= d.lastBamTrack) && Searched(d.kind, t0, t)
    && (tries > 0 || t != t0 ==> FreeSectors(d, t0) == 0)
    && (tries == 0 ==> (t < dir <==> t0 < dir))
    && (tries == 1 ==> (t < dir <==> t0 > dir))
    && (tries == 2 ==> (t < dir <==> t0 < dir))
    && (t < dir ==> Exhausted(d, t0, t + 1, if tries == 0 then t0 else dir - 1))
    && (t > dir ==> Exhausted(d, t0, if tries == 0 then t0 else dir + 1, t - 1))
    && (tries == 2 && t < dir ==> Exhausted(d, t0, dir + 1, d.lastBamTrack))
    && (tries == 2 && t > dir ==> Exhausted(d, t0, 1, dir - 1))
    && (tries == 3 ==> Exhausted(d, t0, 1, d.lastBamTrack))
  }

  /** One step down from the directory keeps the account of the tracks left behind ... */
  lemma StepDown(d: Disk, t0: byte, t: byte, tries: nat)
    requires d.kind != DNP && SearchState(d, t0, t, tries) && tries < 3 && FreeSectors(d, t) == 0 && t < DirTrack(d.kind)
    ensures t > 1 ==> SearchState(d, t0, t - 1, tries)
    ensures t == 1 ==> SearchState(d, t0, DirTrack(d.kind) + 1, tries + 1)
  {
    var dir := DirTrack(d.kind);
    assert Exhausted(d, t0, t, if tries == 0 then t0 else dir - 1);
    if t == 1 && tries == 2 {
      assert Exhausted(d, t0, 1, d.lastBamTrack);
    }
  }

  /** ... and so does one step up. */
  lemma StepUp(d: Disk, t0: byte, t: byte, u: byte, tries: nat)
    requires d.kind != DNP && SearchState(d, t0, t, tries) && tries < 3 && FreeSectors(d, t) == 0 && t > DirTrack(d.kind)
    requires u == if d.kind == D71 && t == 52 then 54 else t + 1
    ensures u <= d.lastBamTrack ==> SearchState(d, t0, u, tries)
    ensures u > d.lastBamTrack ==> SearchState(d, t0, DirTrack(d.kind) - 1, tries + 1)
  {
    var dir := DirTrack(d.kind);
    assert Exhausted(d, t0, if tries == 0 then t0 else dir + 1, u - 1);
    if u > d.lastBamTrack && tries == 2 {
      assert Exhausted(d, t0, 1, d.lastBamTrack);
    }
  }

  /** The track loop of get_next_sector: away from the directory to the edge of the disk, then the
      other side, then the first side again from the directory on. */
  method NextTrackWithSpace(d: Disk, t0: byte, s0: byte) returns (tries: nat, t: byte, s: byte)
    requires d.kind != DNP && 1 <= t0 <= d.lastTrack && t0 != DirTrack(d.kind)
    ensures tries <= 3 && (s == s0 || s == 0)
    ensures tries < 3 ==> 1 <= t <= d.lastBamTrack && Searched(d.kind, t0, t) && FreeSectors(d, t) > 0
    ensures tries < 3 && t != t0 ==> FreeSectors(d, t0) == 0
    ensures tries == 3 ==> Exhausted(d, t0, 1, d.lastBamTrack)
  {
    var dir := DirTrack(d.kind);
    t, s, tries := t0, s0, 0;
    while tries < 3 && FreeSectors(d, t) == 0
      invariant SearchState(d, t0, t, tries) && t <= 154
      invariant s == s0 || s == 0
      decreases 3 - tries, if t < dir then t else 256 - t
    {
      if t < dir {
        StepDown(d, t0, t, tries);
        t := t - 1;
      } else {
        StepUp(d, t0, t, if d.kind == D71 && t == 52 then 54 else t + 1, tries);
        t := t + 1;
        if d.kind == D71 && t == 53 {
          t := t + 1;
        }
      }
      if t < 1 {
        t, s, tries := dir + 1, 0, tries + 1;
      }
      if t > d.lastBamTrack {
        t, s, tries := dir - 1, 0, tries + 1;
      }
    }
  }

  /** The sector to try first: interleave sectors further, wrapped by the length of the track and
      then one less. */
  function InterleavedSector(n: nat, s: byte, interleave: byte): (r: int)
    requires s < 40 && interleave <= 10 && 17 <= n
    ensures s + interleave < 2 * n ==> 0 <= r < n
  {
    var u := s + interleave;
    if u >= n then (if u - n != 0 then u - n - 1 else 0) else u
  }

  /** The sector loop of get_next_sector, with its 8-bit countdown from 99. A failed countdown wraps
      to 255, so the loop reports success in any case; the sector it returns is free exactly when the
      track has a free sector at all. */
  method NextFreeOnTrack(d: Disk, t: byte, s0: byte) returns (tries: byte, s: byte)
    requires d.kind != DNP && Mapped(d, t, s0)
    ensures tries != 0 && Mapped(d, t, s)
    ensures IsFree(d, t, s) <==> CountFree(d, t, SectorsPerTrack(d.kind, t)) > 0
  {
    var n := SectorsPerTrack(d.kind, t);
    ghost var someFree := CountFree(d, t, n) > 0;
    ghost var f: byte := 0;
    if someFree {
      f := SomeFree(d, t, n);
    }
    s, tries := s0, 99;
    while !IsFree(d, t, s)
      invariant Mapped(d, t, s)
      invariant someFree ==> IsFree(d, t, f) && f < n && tries >= 60 + Steps(n, s, f)
      decreases tries
    {
      if tries == 0 {
        tries := 255;
        return;
      }
      tries := tries - 1;
      s := s + 1;
      if s >= n {
        s := 0;
      }
    }
    CountIsPositive(d, t, n, s);
  }

  /** get_next_sector for the formats with a directory track. The error channel is set on every
      failure. */
  method NextSector(d: Disk, t0: byte, s0: byte) returns (found: bool, t: byte, s: byte)
    requires d.kind != DNP && Present(d, t0, s0)
    ensures found ==> Mapped(d, t, s) && FreeSectors(d, t) > 0 && (t == DirTrack(d.kind) <==> t0 == DirTrack(d.kind))
    ensures found ==> (t0 != DirTrack(d.kind) ==> Searched(d.kind, t0, t)) && (t != t0 ==> FreeSectors(d, t0) == 0)
    ensures found ==> (IsFree(d, t, s) <==> CountFree(d, t, SectorsPerTrack(d.kind, t)) > 0)
    ensures found && CountersMatch(d) ==> IsFree(d, t, s)
    ensures !found ==> if t0 == DirTrack(d.kind) then FreeSectors(d, t0) == 0 else Exhausted(d, t0, 1, d.lastBamTrack)
  {
    t, s := t0, s0;
    var interleave := FileInterleave(d.kind);
    if t0 == DirTrack(d.kind) {
      if FreeSectors(d, t0) == 0 {
        return false, t, s;
      }
      interleave := DirInterleave(d.kind);
    } else {
      var turns;
      turns, t, s := NextTrackWithSpace(d, t0, s0);
      if turns == 3 {
        return false, t, s;
      }
    }
    InterleaveFits(d, t0, s0, t, s, interleave);
    s := InterleavedSector(SectorsPerTrack(d.kind, t), s, interleave);
    var tries;
    tries, s := NextFreeOnTrack(d, t, s);
    found := tries != 0;
  }

  lemma InterleaveFits(d: Disk, t0: byte, s0: byte, t: byte, s: byte, interleave: byte)
    requires d.kind != DNP && Present(d, t0, s0) && 1 <= t <= d.lastBamTrack && (s == s0 || s == 0)
    requires interleave == FileInterleave(d.kind) || interleave == DirInterleave(d.kind)
    ensures s < 40 && interleave <= 10 && s + interleave < 2 * SectorsPerTrack(d.kind, t)
    ensures Present(d, t, 0)
  {
    match d.kind
    case D41 =>
    case D71 =>
    case D81 =>
    case D80 =>
    case D82 =>
  }

  // ---- Both functions for all formats -------------------------------------------------

  /** What get_first_sector needs in order to end. */
  ghost predicate FirstSearchEnds(d: Disk) {
    && (d.kind == DNP ==> FirstNativeEnds(d))
    && (d.kind == D82 ==> exists t: byte :: FileTrack(d, t) && FreeSectors(d, t) > 0)
  }

  /** What get_next_sector needs in order to end. */
  ghost predicate NextSearchEnds(d: Disk, t0: byte) {
    d.kind == DNP ==> NextNativeEnds(d, t0)
  }

  /** Tracks a first-sector search considers. */
  predicate FirstSearched(d: Disk, t: byte) {
    if d.kind == DNP then NativeSearched(d, t) else FileTrack(d, t)
  }

  /** get_first_sector */
  method GetFirstSector(d: Disk) returns (found: bool, t: byte, s: byte)
    requires FirstSearchEnds(d)
    ensures found ==> Mapped(d, t, s) && IsFree(d, t, s) && FirstSearched(d, t)
    ensures found && d.kind != DNP ==> forall t2: byte :: FileTrack(d, t2) && Before(d.kind, t2, t) ==> FreeSectors(d, t2) == 0
    ensures found && d.kind == DNP ==>
              forall t2: byte :: 2 <= t2 && (t2 < t || t == 1) && NativeSearched(d, t2) ==> FreeSectors(d, t2) == 0
    ensures CountersMatch(d) && !found ==> forall t2: byte :: FirstSearched(d, t2) ==> FreeSectors(d, t2) == 0
  {
    if d.kind == DNP {
      found, t, s := FirstNativeSector(d);
    } else {
      found, t, s := FirstSector(d);
    }
  }

  /** Tracks a next-sector search from t0 considers. */
  predicate NextSearched(d: Disk, t0: byte, t: byte) {
    if d.kind == DNP then t == t0 || 1 <= t < d.lastBamTrack
    else if t0 == DirTrack(d.kind) then t == t0
    else 1 <= t <= d.lastBamTrack && Searched(d.kind, t0, t)
  }

  /** get_next_sector. With matching counters success means a free sector of a track the search
      considers, on the same track if that has one, and failure that no such track has one. */
  method GetNextSector(d: Disk, t0: byte, s0: byte) returns (found: bool, t: byte, s: byte)
    requires Present(d, t0, s0) && NextSearchEnds(d, t0) && (d.kind == DNP ==> t0 <= d.lastBamTrack)
    ensures found ==> Mapped(d, t, s) && NextSearched(d, t0, t) && (t != t0 ==> FreeSectors(d, t0) == 0)
    ensures found && CountersMatch(d) ==> IsFree(d, t, s)
    ensures !found ==> forall t2: byte :: NextSearched(d, t0, t2) ==> FreeSectors(d, t2) == 0
  {
    if d.kind == DNP {
      s := s0;
      found, t := NextNativeTrackWithSpace(d, t0);
      if found {
        s := NextFreeNative(d, t, if t == t0 then s0 else 0);
      }
    } else {
      found, t, s := NextSector(d, t0, s0);
    }
  }
}
