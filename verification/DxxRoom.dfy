/** How much room a Dxx image has for a file: the free sectors on the tracks that the searches for a first
    and a next sector look at. Every sector taken is one less, wherever it is found (src/d64ops.c). */
module DxxRoom {
  import opened Bits
  import opened Geometry
  import opened BamLayout
  import opened Bam
  import opened SectorSearch
  import opened DxxChain

  /** Sectors of a file of n bytes; an empty one holds a carriage return. */
  function FileSectors(n: nat): nat {
    if n == 0 then 1 else (n + 253) / 254
  }

  /** Free sectors on those of the tracks 1 to n that are in the set. */
  function FreeOn(d: Disk, tracks: set<int>, n: byte): nat {
    if n == 0 then 0 else FreeOn(d, tracks, n - 1) + if n as int in tracks then FreeSectors(d, n) else 0
  }

  /** Room for the file whose last sector is on track t0: what get_next_sector looks at. */
  ghost function NextRoom(d: Disk, t0: byte): nat {
    FreeOn(d, set t: byte | NextSearched(d, t0, t) :: t as int, d.lastBamTrack)
  }

  /** The tracks a new file can use. Track 53 of a D71 is used only by a file that starts there, which is
      one for which the tracks below it are full. The last track of a DNP image is not used, unless there
      are no more than two. */
  predicate SaveSearched(d: Disk, t: byte) {
    FirstSearched(d, t) && (d.kind == D71 && t == 53 ==> LowTracksFull(d))
  }

  predicate LowTracksFull(d: Disk) {
    forall t: byte :: 1 <= t < 53 && t != DirTrack(d.kind) ==> FreeSectors(d, t) == 0
  }

  /** Room for a new file. */
  ghost function SaveRoom(d: Disk): nat {
    FreeOn(d, set t: byte | SaveSearched(d, t) :: t as int, d.lastBamTrack)
  }

  // ---- One sector less -----------------------------------------------------------------------

  ghost predicate SameRoom(d: Disk, e: Disk) {
    e.(blocks := map[]) == d.(blocks := map[]) && forall t: byte :: FreeSectors(e, t) == FreeSectors(d, t)
  }

  /** A free sector of track t has been taken. */
  ghost predicate SectorTaken(d: Disk, e: Disk, t: byte) {
    && e.(blocks := map[]) == d.(blocks := map[]) && 1 <= t <= d.lastBamTrack && FreeSectors(d, t) > 0
    && forall t2: byte :: FreeSectors(e, t2) == FreeSectors(d, t2) - if t2 == t then 1 else 0
  }

  lemma TakenThenSame(d: Disk, a: Disk, e: Disk, t: byte)
    requires SectorTaken(d, a, t) && SameRoom(a, e)
    ensures SectorTaken(d, e, t)
  {}

  lemma FreeSectorsCount(d: Disk, t: byte)
    requires CountersMatch(d) && 1 <= t <= d.lastBamTrack
    ensures Present(d, t, 0) && FreeSectors(d, t) == CountFree(d, t, SectorsPerTrack(d.kind, t))
  {}

  lemma AllocateTakesOne(d: Disk, t: byte, s: byte)
    requires CountersMatch(d) && Mapped(d, t, s) && IsFree(d, t, s)
    ensures SectorTaken(d, Allocate(d, t, s), t)
  {
    hide CountersMatch, Allocate;
    var e := Allocate(d, t, s);
    AllocateKeepsCounters(d, t, s);
    AllocateKeepsSize(d, t, s);
    FreeSectorsCount(d, t);
    CountIsPositive(d, t, SectorsPerTrack(d.kind, t), s);
    forall t2: byte | 1 <= t2 <= d.lastBamTrack ensures FreeSectors(e, t2) == FreeSectors(d, t2) - if t2 == t then 1 else 0 {
      FreeSectorsCount(d, t2);
      FreeSectorsCount(e, t2);
      var n := SectorsPerTrack(d.kind, t2);
      forall s2: byte | s2 < n ensures IsFree(e, t2, s2) == (IsFree(d, t2, s2) && !(t2 == t && s2 == s)) {
        AllocateBit(d, t, s, t2, s2);
      }
      if t2 == t {
        CountFreeMinusOne(d, e, t, s, n);
      } else {
        CountFreeSame(d, e, t2, n);
      }
    }
  }

  lemma AllocateKeepsSize(d: Disk, t: byte, s: byte)
    requires Present(d, t, s)
    ensures Allocate(d, t, s).(blocks := map[]) == d.(blocks := map[])
  {}

  lemma SameBamRoom(d: Disk, e: Disk)
    requires SameBam(d, e) && CountersMatch(d)
    ensures SameRoom(d, e)
  {
    hide CountersMatch;
    SameBamCounts(d, e);
    forall t: byte | 1 <= t <= d.lastBamTrack ensures FreeSectors(e, t) == FreeSectors(d, t) {
      FreeSectorsCount(d, t);
      FreeSectorsCount(e, t);
      forall s: byte | s < SectorsPerTrack(d.kind, t) ensures IsFree(d, t, s) == IsFree(e, t, s) {
        assert Present(d, t, s);
      }
      CountFreeSame(d, e, t, SectorsPerTrack(d.kind, t));
    }
  }

  // ---- Sums over tracks ----------------------------------------------------------------------------

  /** Two sets of tracks that differ only where the second disk has nothing free, and there the first has
      nothing either, or has had one sector more on track t. */
  lemma {:induction false} FreeOnTaken(d: Disk, e: Disk, t: byte, tracks: set<int>, tracks2: set<int>, n: byte)
    requires SectorTaken(d, e, t) && t as int in tracks && t as int in tracks2
    requires forall u: byte :: 1 <= u <= n && (u as int in tracks) != (u as int in tracks2) ==> FreeSectors(d, u) == 0
    ensures FreeOn(d, tracks, n) == FreeOn(e, tracks2, n) + if t <= n then 1 else 0
  {
    if n > 0 {
      FreeOnTaken(d, e, t, tracks, tracks2, n - 1);
    }
  }

  lemma {:induction false} FreeOnSame(d: Disk, e: Disk, tracks: set<int>, n: byte)
    requires SameRoom(d, e)
    ensures FreeOn(d, tracks, n) == FreeOn(e, tracks, n)
  {
    if n > 0 {
      FreeOnSame(d, e, tracks, n - 1);
    }
  }

  lemma {:induction false} FreeOnNone(d: Disk, tracks: set<int>, n: byte)
    requires forall t: byte :: 1 <= t <= n && t as int in tracks ==> FreeSectors(d, t) == 0
    ensures FreeOn(d, tracks, n) == 0
  {
    if n > 0 {
      FreeOnNone(d, tracks, n - 1);
    }
  }

  // ---- The searches ------------------------------------------------------------------------------------

  lemma NextRoomSame(d: Disk, e: Disk, t0: byte)
    requires SameRoom(d, e)
    ensures NextRoom(e, t0) == NextRoom(d, t0)
  {
    assert (set t: byte | NextSearched(d, t0, t) :: t as int) == (set t: byte | NextSearched(e, t0, t) :: t as int) by {
      forall t: byte ensures NextSearched(d, t0, t) == NextSearched(e, t0, t) {
      }
    }
    FreeOnSame(d, e, set t: byte | NextSearched(d, t0, t) :: t as int, d.lastBamTrack);
  }

  /** Where the next search found a sector. */
  ghost predicate NextFound(d: Disk, t0: byte, t: byte) {
    NextSearched(d, t0, t) && (t != t0 ==> FreeSectors(d, t0) == 0)
  }

  /** A sector found and taken is exactly one less, also for the search that goes on from there. */
  lemma NextRoomTaken(d: Disk, e: Disk, t0: byte, t: byte)
    requires SectorTaken(d, e, t) && NextFound(d, t0, t)
    ensures NextRoom(d, t0) == NextRoom(e, t) + 1
  {
    var tracks, tracks2 := set u: byte | NextSearched(d, t0, u) :: u as int, set u: byte | NextSearched(e, t, u) :: u as int;
    forall u: byte | 1 <= u <= d.lastBamTrack && NextSearched(d, t0, u) != NextSearched(e, t, u) ensures FreeSectors(d, u) == 0 {
      assert u == t0;
    }
    FreeOnTaken(d, e, t, tracks, tracks2, d.lastBamTrack);
  }

  /** Without a sector on the tracks searched there is no room. */
  lemma NoNextRoom(d: Disk, t0: byte)
    requires forall t: byte :: NextSearched(d, t0, t) ==> FreeSectors(d, t) == 0
    ensures NextRoom(d, t0) == 0
  {
    FreeOnNone(d, set t: byte | NextSearched(d, t0, t) :: t as int, d.lastBamTrack);
  }

  lemma NoSaveRoom(d: Disk)
    requires forall t: byte :: FirstSearched(d, t) ==> FreeSectors(d, t) == 0
    ensures SaveRoom(d) == 0
  {
    FreeOnNone(d, set t: byte | SaveSearched(d, t) :: t as int, d.lastBamTrack);
  }

  /** Where the first search found a sector. */
  ghost predicate FirstFound(d: Disk, t: byte) {
    && FirstSearched(d, t)
    && (d.kind != DNP ==> forall t2: byte :: FileTrack(d, t2) && Before(d.kind, t2, t) ==> FreeSectors(d, t2) == 0)
    && (d.kind == DNP ==> forall t2: byte :: 2 <= t2 && (t2 < t || t == 1) && NativeSearched(d, t2) ==> FreeSectors(d, t2) == 0)
  }

  lemma SaveRoomTaken(d: Disk, e: Disk, t: byte)
    requires SectorTaken(d, e, t) && FirstFound(d, t)
    ensures SaveRoom(d) == NextRoom(e, t) + 1
  {
    var tracks, tracks2 := set u: byte | SaveSearched(d, u) :: u as int, set u: byte | NextSearched(e, t, u) :: u as int;
    FoundIsSearched(d, t);
    forall u: byte | 1 <= u <= d.lastBamTrack && SaveSearched(d, u) != NextSearched(e, t, u) ensures FreeSectors(d, u) == 0 {
      if d.kind != DNP {
        OnlyTrack53(d, e, t, u);
      }
    }
    FreeOnTaken(d, e, t, tracks, tracks2, d.lastBamTrack);
  }

  lemma FoundIsSearched(d: Disk, t: byte)
    requires FirstFound(d, t)
    ensures SaveSearched(d, t)
  {
    if d.kind == D71 && t == 53 {
      forall t2: byte | 1 <= t2 < 53 && t2 != DirTrack(d.kind) ensures FreeSectors(d, t2) == 0 {
        assert FreeSectors(d, t2) > 0 ==> FileTrack(d, t2) && Before(d.kind, t2, t);
      }
    }
  }

  lemma OnlyTrack53(d: Disk, e: Disk, t: byte, u: byte)
    requires d.kind != DNP && SectorTaken(d, e, t) && FirstFound(d, t) && SaveSearched(d, u) != NextSearched(e, t, u)
    requires 1 <= u <= d.lastBamTrack
    ensures FreeSectors(d, u) == 0
  {
    FoundIsSearched(d, t);
    assert d.kind == D71 && u == 53 && t != 53;
    if LowTracksFull(d) {
      assert Before(d.kind, u, t);
    }
  }

  // ---- Searches that end -----------------------------------------------------------------------------------

  /** Writing need more sectors never starts a search that does not end: not from the last track of a DNP
      image with nothing left on all others and too little on it. */
  ghost predicate SearchesEnd(d: Disk, t0: byte, need: int) {
    d.kind == DNP && t0 == d.lastBamTrack && 2 <= d.lastBamTrack && need > 0 ==>
      need <= FreeSectors(d, t0) || exists t: byte :: 1 <= t < d.lastBamTrack && FreeSectors(d, t) > 0
  }

  lemma NextSearchWillEnd(d: Disk, t0: byte, need: int)
    requires SearchesEnd(d, t0, need) && need > 0 && 1 <= t0 && (d.kind == DNP ==> t0 <= d.lastBamTrack)
    ensures NextSearchEnds(d, t0)
  {
    if d.kind == DNP && t0 == d.lastBamTrack && 2 <= d.lastBamTrack && need <= FreeSectors(d, t0) {
      assert FreeSectors(d, t0) > 0;
    }
  }

  lemma SearchesStillEnd(d: Disk, e: Disk, t0: byte, t: byte, need: int)
    requires SearchesEnd(d, t0, need) && SectorTaken(d, e, t) && NextFound(d, t0, t)
    ensures SearchesEnd(e, t, need - 1)
  {
    if d.kind == DNP && t == d.lastBamTrack && 2 <= d.lastBamTrack && need > 1 && need > FreeSectors(d, t0) {
      var u: byte :| 1 <= u < d.lastBamTrack && FreeSectors(d, u) > 0;
      assert FreeSectors(e, u) > 0;
    }
  }

  /** The same for a new file with need sectors. */
  ghost predicate SaveEnds(d: Disk, need: nat) {
    && (d.kind == D82 ==> exists t: byte :: FileTrack(d, t) && FreeSectors(d, t) > 0)
    && (d.kind == DNP && d.lastBamTrack == 2 ==> need <= FreeSectors(d, 2) || FreeSectors(d, 1) > 0)
  }

  lemma FirstSearchWillEnd(d: Disk, need: nat)
    requires SaveEnds(d, need) && need > 0
    ensures FirstSearchEnds(d)
  {
    if d.kind == DNP && d.lastBamTrack == 2 {
      assert FreeSectors(d, 2) > 0 || FreeSectors(d, 1) > 0;
    }
  }

  lemma SaveStillEnds(d: Disk, e: Disk, t: byte, need: nat)
    requires SaveEnds(d, need) && need > 0 && SectorTaken(d, e, t) && FirstFound(d, t)
    ensures SearchesEnd(e, t, need - 1)
  {
    if d.kind == DNP && t == d.lastBamTrack && 2 <= d.lastBamTrack && need > 1 && need > FreeSectors(d, t) {
      assert FreeSectors(e, 1) > 0;
    }
  }
}
