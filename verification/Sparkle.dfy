/** The sector walk of the Sparkle loader on one track, and its seek to a bundle (src/fl-sparkle.c,
    advance_sector, iterate_sector, track_changed and find_dir_entry). */
module Sparkle {
  import opened Bits

  // ---- One track --------------------------------------------------------------------

  /** The state for the current track; used has a bit for each of 24 sectors. */
  datatype Walker = Walker(track: byte, sectors: nat, interleave: nat, skew: bool, sector: nat, used: seq<bool>, remaining: nat)

  function SectorsOn(track: byte): nat {
    if track < 18 then 21 else if track < 25 then 19 else if track < 31 then 18 else 17
  }

  function Zone(track: byte): nat {
    if track < 18 then 0 else if track < 25 then 1 else if track < 31 then 2 else 3
  }

  /** Number of bits set among the first n. */
  function CountUsed(used: seq<bool>, n: nat): (r: nat)
    requires n <= |used|
    ensures r <= n
  {
    if n == 0 then 0 else CountUsed(used, n - 1) + if used[n - 1] then 1 else 0
  }

  /** advance_sector, in 8 bits */
  function Advance(w: Walker, sector: nat, ds: nat): nat {
    var s := (sector + ds) % 256;
    if s < w.sectors then s
    else if w.track < 18 && s - w.sectors > 0 then s - w.sectors - 1
    else s - w.sectors
  }

  /** Steps that stay on the track: up to its length, and one more on the first tracks. */
  predicate StepFits(w: Walker, ds: nat) {
    ds <= w.sectors || (w.track < 18 && ds == w.sectors + 1)
  }

  lemma AdvanceInside(w: Walker, sector: nat, ds: nat)
    requires w.sectors <= 24 && sector < w.sectors && StepFits(w, ds)
    ensures Advance(w, sector, ds) < w.sectors
  {}

  /** Exactly these steps lead from every sector of the track to a sector of the track. */
  lemma StepFitsIff(w: Walker, ds: byte)
    requires 1 <= w.sectors <= 24
    ensures StepFits(w, ds) <==> forall s: nat :: s < w.sectors ==> Advance(w, s, ds) < w.sectors
  {
    if StepFits(w, ds) {
      forall s: nat | s < w.sectors ensures Advance(w, s, ds) < w.sectors {
        AdvanceInside(w, s, ds);
      }
    } else {
      assert Advance(w, w.sectors - 1, ds) >= w.sectors || Advance(w, 0, ds) >= w.sectors;
    }
  }

  /** The loop that skips used sectors one by one, for at most so many steps. */
  function Skip(w: Walker, used: seq<bool>, sector: nat, steps: nat): (r: nat)
    requires sector < w.sectors <= |used| <= 24
    ensures r < w.sectors
    decreases steps
  {
    if steps == 0 || !used[sector] then sector
    else
      AdvanceInside(w, sector, 1);
      Skip(w, used, Advance(w, sector, 1), steps - 1)
  }

  /** What every call of iterate_sector keeps. */
  predicate Sound(w: Walker) {
    && 1 <= w.sectors <= 24 && StepFits(w, w.interleave) && |w.used| == 24
    && w.sector < w.sectors && w.remaining + CountUsed(w.used, w.sectors) == w.sectors
    && (w.remaining > 0 ==> !w.used[w.sector])
  }

  /** iterate_sector, while there are sectors left */
  function Iterate(w: Walker): Walker
    requires Sound(w) && w.remaining > 0
  {
    var used := w.used[w.sector := true];
    var left := w.remaining - 1;
    AdvanceInside(w, w.sector, w.interleave);
    var s := if left > 0 || !w.skew then Advance(w, w.sector, w.interleave) else w.sector;
    w.(used := used, remaining := left, sector := if left > 0 then Skip(w, used, s, w.sectors) else s)
  }

  // ---- The loop that skips ends -------------------------------------------------------------

  lemma {:induction false} CountMarked(used: seq<bool>, n: nat, k: nat)
    requires n <= |used| && k < |used| && !used[k]
    ensures CountUsed(used[k := true], n) == CountUsed(used, n) + if k < n then 1 else 0
  {
    if n > 0 {
      CountMarked(used, n - 1, k);
    }
  }

  lemma {:induction false} SomeUnused(used: seq<bool>, n: nat) returns (f: nat)
    requires n <= |used| && CountUsed(used, n) < n
    ensures f < n && !used[f]
  {
    if !used[n - 1] {
      f := n - 1;
    } else {
      f := SomeUnused(used, n - 1);
    }
  }

  /** Steps of one sector from here to f, going around at the end of the track. */
  function Distance(sectors: nat, sector: nat, f: nat): (r: nat)
    requires sector < sectors && f < sectors
    ensures r < sectors
  {
    if sector <= f then f - sector else sectors - sector + f
  }

  lemma DistanceShort(sectors: nat, sector: nat, f: nat)
    requires sector < sectors && f < sectors
    ensures Distance(sectors, sector, f) <= sectors
  {}

  /** One step brings the walk nearer. */
  lemma StepNearer(w: Walker, sector: nat, f: nat)
    requires w.sectors <= 24 && sector < w.sectors && f < w.sectors && sector != f
    ensures Advance(w, sector, 1) < w.sectors && Distance(w.sectors, sector, f) > 0
    ensures Distance(w.sectors, Advance(w, sector, 1), f) == Distance(w.sectors, sector, f) - 1
  {}

  lemma {:induction false} SkipEnds(w: Walker, used: seq<bool>, sector: nat, steps: nat, f: nat)
    requires sector < w.sectors <= |used| <= 24 && f < w.sectors && !used[f] && Distance(w.sectors, sector, f) <= steps
    ensures !used[Skip(w, used, sector, steps)]
    decreases steps
  {
    if used[sector] {
      AdvanceInside(w, sector, 1);
      SkipEnds(w, used, Advance(w, sector, 1), steps - 1, f);
    }
  }

  /** iterate_sector keeps the invariant: the sectors left and the sectors marked are together all sectors,
      and the next sector is one not yet used as long as there is one. */
  lemma IterateSound(w: Walker)
    requires Sound(w) && w.remaining > 0
    ensures Sound(Iterate(w)) && Iterate(w).remaining == w.remaining - 1
    ensures Iterate(w).used == w.used[w.sector := true] && Iterate(w).sectors == w.sectors && Iterate(w).track == w.track
  {
    var used := w.used[w.sector := true];
    CountMarked(w.used, w.sectors, w.sector);
    if w.remaining > 1 {
      var s := Advance(w, w.sector, w.interleave);
      var f := SomeUnused(used, w.sectors);
      AdvanceInside(w, w.sector, w.interleave);
      SkipEnds(w, used, s, w.sectors, f);
    }
  }

  // ---- Every sector once ---------------------------------------------------------------------

  /** track_changed, with the walk starting at a given sector */
  function Fresh(track: byte, interleave: nat, skew: bool, sector: nat): Walker {
    Walker(track, SectorsOn(track), interleave, skew, sector, seq(24, _ => false), SectorsOn(track))
  }

  lemma {:induction false} NothingUsed(n: nat)
    requires n <= 24
    ensures CountUsed(seq(24, _ => false), n) == 0
  {
    if n > 0 {
      NothingUsed(n - 1);
    }
  }

  lemma FreshSound(track: byte, interleave: nat, skew: bool, sector: nat)
    ensures var w := Fresh(track, interleave, skew, sector);
            Sound(w) <==> StepFits(w, interleave) && sector < SectorsOn(track)
  {
    NothingUsed(SectorsOn(track));
  }

  /** The state after n calls. */
  function After(w: Walker, n: nat): (r: Walker)
    requires Sound(w) && n <= w.remaining
    ensures Sound(r) && r.remaining == w.remaining - n && r.sectors == w.sectors
  {
    if n == 0 then w
    else
      IterateSound(After(w, n - 1));
      Iterate(After(w, n - 1))
  }

  /** The sectors that n calls visit, in order. */
  function Visited(w: Walker, n: nat): (r: seq<nat>)
    requires Sound(w) && n <= w.remaining
    ensures |r| == n
  {
    if n == 0 then [] else Visited(w, n - 1) + [After(w, n - 1).sector]
  }

  lemma {:induction false} UsedAreVisited(w: Walker, n: nat, x: nat)
    requires Sound(w) && n <= w.remaining && x < w.sectors
    ensures After(w, n).used[x] <==> w.used[x] || x in Visited(w, n)
  {
    hide Iterate, CountUsed;
    if n > 0 {
      UsedAreVisited(w, n - 1, x);
      IterateSound(After(w, n - 1));
    }
  }

  lemma {:induction false} NeverTwice(w: Walker, n: nat, j: nat, k: nat)
    requires Sound(w) && n <= w.remaining && j < k < n
    ensures Visited(w, n)[j] != Visited(w, n)[k]
  {
    hide Iterate, CountUsed;
    if k < n - 1 {
      NeverTwice(w, n - 1, j, k);
    } else {
      var before := After(w, n - 1);
      UsedAreVisited(w, n - 1, before.sector);
      assert Visited(w, n)[j] == Visited(w, n - 1)[j] && Visited(w, n - 1)[j] in Visited(w, n - 1);
    }
  }

  lemma {:induction false} AllUsed(used: seq<bool>, n: nat, x: nat)
    requires n <= |used| && CountUsed(used, n) == n && x < n
    ensures used[x]
  {
    if x < n - 1 {
      AllUsed(used, n - 1, x);
    }
  }

  /** From any sector of a fresh track, as many calls as the track has sectors visit every sector exactly
      once, and then none is left. */
  lemma VisitsEveryOnce(track: byte, interleave: nat, skew: bool, sector: nat, x: nat, j: nat, k: nat)
    requires StepFits(Fresh(track, interleave, skew, sector), interleave) && sector < SectorsOn(track)
    ensures Sound(Fresh(track, interleave, skew, sector))
    ensures var w := Fresh(track, interleave, skew, sector); var n := SectorsOn(track);
            && After(w, n).remaining == 0
            && (x in Visited(w, n) <==> x < n)
            && (j < k < n ==> Visited(w, n)[j] != Visited(w, n)[k])
  {
    hide Iterate, CountUsed;
    var w, n := Fresh(track, interleave, skew, sector), SectorsOn(track);
    FreshSound(track, interleave, skew, sector);
    if j < k < n {
      NeverTwice(w, n, j, k);
    }
    if x < n {
      AllUsed(After(w, n).used, n, x);
      UsedAreVisited(w, n, x);
    } else {
      VisitedInside(w, n);
    }
  }

  lemma {:induction false} VisitedInside(w: Walker, n: nat)
    requires Sound(w) && n <= w.remaining
    ensures forall x :: x in Visited(w, n) ==> x < w.sectors
  {
    hide Iterate, CountUsed;
    if n > 0 {
      VisitedInside(w, n - 1);
    }
  }

  /** find_dir_entry's loop: iterate until so many sectors are left. */
  function Seek(w: Walker, left: nat): Walker
    requires Sound(w)
    decreases w.remaining
  {
    if w.remaining <= left then w
    else
      IterateSound(w);
      Seek(Iterate(w), left)
  }

  lemma {:induction false} SeekIsAfter(w: Walker, left: nat)
    requires Sound(w) && left <= w.remaining
    ensures Seek(w, left) == After(w, w.remaining - left)
    decreases w.remaining
  {
    hide Iterate, CountUsed;
    if left < w.remaining {
      IterateSound(w);
      SeekIsAfter(Iterate(w), left);
      AfterFirst(w, w.remaining - left);
    }
  }

  lemma {:induction false} AfterFirst(w: Walker, n: nat)
    requires Sound(w) && 0 < n <= w.remaining
    ensures Sound(Iterate(w)) && n - 1 <= Iterate(w).remaining && After(w, n) == After(Iterate(w), n - 1)
  {
    hide Iterate, CountUsed;
    IterateSound(w);
    if n > 1 {
      AfterFirst(w, n - 1);
    } else {
      assert After(w, 0) == w;
    }
  }

  /** A directory entry stores where the walk of its track began and how many sectors were left when its
      bundle begins. Seeking by these two leads to exactly the state in which a reader that walked the
      track from there is when it has that many sectors left. */
  lemma SeekMeetsSequential(w: Walker, n: nat)
    requires Sound(w) && n <= w.remaining
    ensures Seek(w, After(w, n).remaining) == After(w, n)
  {
    SeekIsAfter(w, w.remaining - n);
  }

  // ---- The session ------------------------------------------------------------------------------

  class Session {
    const interleaves: seq<byte>
    const skew: bool
    var track: byte
    var sector: byte
    var currentInterleave: byte
    var sectors: byte
    const used: array<byte>
    var remaining: byte

    ghost predicate Valid()
      reads this, used
    {
      used.Length == 3 && |interleaves| == 4 && Sound(Track())
    }

    ghost function Track(): Walker
      requires used.Length == 3
      reads this, used
    {
      Walker(track, sectors, currentInterleave, skew, sector, Flags(used[..], 24), remaining)
    }

    /** advance_sector */
    method AdvanceSector(ds: byte)
      modifies this`sector
      ensures forall w: Walker :: w.sectors == sectors as nat && w.track == track ==> sector as nat == Advance(w, old(sector), ds)
    {
      sector := (sector + ds) % 256;
      if sector >= sectors {
        sector := sector - sectors;
        if track < 18 && sector > 0 {
          sector := sector - 1;
        }
      }
    }

    /** iterate_sector */
    method IterateSector() returns (left: byte)
      requires Valid() && remaining > 0
      modifies this`sector, this`remaining, used
      ensures Valid() && Track() == Iterate(old(Track())) && left == remaining
    {
      hide CountUsed, Flags;
      ghost var w := Track();
      IterateSound(w);
      FlagPut(used[..], 24, sector, true);
      used[sector / 8] := SetBit8(used[sector / 8], sector % 8);
      ghost var marked := Flags(used[..], 24);
      assert used[..] == PutBit(old(used[..]), sector as nat, true);
      remaining := remaining - 1;
      AdvanceInside(w, sector, currentInterleave);
      if remaining > 0 || !skew {
        AdvanceSector(currentInterleave);
      }
      if remaining > 0 {
        SkipUsed(w);
      }
      left := remaining;
    }

    /** The loop that skips used sectors. */
    method SkipUsed(ghost w: Walker)
      requires used.Length == 3 && sector < sectors <= 24 && w.sectors == sectors as nat && w.track == track
      requires CountUsed(Flags(used[..], 24), w.sectors) < w.sectors
      modifies this`sector
      ensures sector as nat == Skip(w, Flags(used[..], 24), old(sector), w.sectors)
    {
      hide CountUsed, Advance, Distance, StepFits;
      ghost var flags, steps := Flags(used[..], 24), w.sectors;
      ghost var f := SomeUnused(flags, w.sectors);
      DistanceShort(w.sectors, sector, f);
      ghost var start := sector as nat;
      while GetBit(used[..], sector)
        invariant sector < sectors && Distance(w.sectors, sector, f) <= steps
        invariant Skip(w, flags, sector, steps) == Skip(w, flags, start, w.sectors)
        decreases Distance(w.sectors, sector, f)
      {
        assert flags[sector];
        StepNearer(w, sector, f);
        AdvanceSector(1);
        steps := steps - 1;
      }
      assert !flags[sector];
    }

    /** track_changed. The walk can begin if the sector is on the track and the step fits it. */
    method TrackChanged()
      requires used.Length == 3 && |interleaves| == 4
      modifies this`sectors, this`currentInterleave, this`remaining, used
      ensures Track() == Fresh(track, interleaves[Zone(track)], skew, sector)
      ensures Valid() <==> StepFits(Track(), interleaves[Zone(track)]) && sector as int < SectorsOn(track)
    {
      if track < 18 {
        sectors, currentInterleave := 21, interleaves[0];
      } else if track < 25 {
        sectors, currentInterleave := 19, interleaves[1];
      } else if track < 31 {
        sectors, currentInterleave := 18, interleaves[2];
      } else {
        sectors, currentInterleave := 17, interleaves[3];
      }
      remaining := sectors;
      used[0], used[1], used[2] := 0, 0, 0;
      forall k: nat | k < 24 ensures !GetBit(used[..], k) {
        NoBits(k % 8);
      }
      assert Flags(used[..], 24) == seq(24, _ => false);
      FreshSound(track, currentInterleave, skew, sector);
    }

    /** find_dir_entry, for an entry in the directory sector loaded. */
    method FindDirEntry(entryTrack: byte, entrySector: byte, left: byte)
      requires used.Length == 3 && |interleaves| == 4 && Sound(Fresh(entryTrack, interleaves[Zone(entryTrack)], skew, entrySector))
      modifies this`track, this`sector, this`sectors, this`currentInterleave, this`remaining, used
      ensures Valid() && Track() == Seek(Fresh(entryTrack, interleaves[Zone(entryTrack)], skew, entrySector), left)
    {
      hide Iterate, Flags, CountUsed;
      track := entryTrack;
      sector := entrySector;
      TrackChanged();
      ghost var start := Track();
      while remaining > left
        invariant Valid() && Seek(Track(), left) == Seek(start, left)
        decreases remaining
      {
        IterateSound(Track());
        var r := IterateSector();
      }
    }
  }
}
