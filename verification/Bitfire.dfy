/** The sector walk of the Bitfire loader, and its seek to any file of a directory sector
    (src/fl-bitfire.c, iterate_sector, iterate_file and the bookkeeping of load_file). */
module Bitfire {
  import opened Bits
  import opened Geometry

  const INTERLEAVE: byte := 4
  const DIR_TRACK: byte := 18

  datatype Spot = Spot(track: byte, sector: byte)

  predicate OnTrack(kind: Kind, p: Spot) {
    kind != DNP && p.sector as int < SectorsPerTrack(kind, p.track)
  }

  function NextTrack(track: byte): byte {
    var t: byte := (track + 1) % 256;
    if t == DIR_TRACK then t + 1 else t
  }

  /** iterate_sector */
  function Iterate(kind: Kind, p: Spot): (r: Spot)
    requires OnTrack(kind, p)
    ensures OnTrack(kind, r)
  {
    var s := p.sector + INTERLEAVE;
    if s < SectorsPerTrack(kind, p.track) then Spot(p.track, s)
    else if s % INTERLEAVE + 1 == INTERLEAVE then Spot(NextTrack(p.track), 0)
    else Spot(p.track, s % INTERLEAVE + 1)
  }

  function Walk(kind: Kind, p: Spot, steps: nat): (r: Spot)
    requires OnTrack(kind, p)
    ensures OnTrack(kind, r)
  {
    if steps == 0 then p else Iterate(kind, Walk(kind, p, steps - 1))
  }

  // ---- Every sector of a track once -----------------------------------------------------

  /** Sectors with a smaller remainder, on a track of n sectors. */
  function Earlier(n: nat, remainder: nat): nat
    requires remainder <= 4 <= n
  {
    if remainder == 0 then 0 else Earlier(n, remainder - 1) + (n + 4 - remainder) / 4
  }

  /** When a sector is visited, starting from sector 0. */
  function Rank(n: nat, sector: nat): nat
    requires 4 <= n
  {
    Earlier(n, sector % 4) + sector / 4
  }

  lemma AllEarlier(n: nat)
    requires n >= 4
    ensures Earlier(n, 4) == n
  {
    var q, r := n / 4, n % 4;
    Quarter(n, 0, q, r);
    Quarter(n, 1, q, r);
    Quarter(n, 2, q, r);
    Quarter(n, 3, q, r);
    assert Earlier(n, 1) == (n + 3) / 4;
    assert Earlier(n, 2) == (n + 3) / 4 + (n + 2) / 4;
    assert Earlier(n, 3) == (n + 3) / 4 + (n + 2) / 4 + (n + 1) / 4;
    assert Earlier(n, 4) == Earlier(n, 3) + (n + 0) / 4;
  }

  lemma Quarter(n: nat, k: nat, q: nat, r: nat)
    requires k < 4 && r < 4 && n == 4 * q + r
    ensures (n + k) / 4 == q + if r + k >= 4 then 1 else 0
  {}

  lemma {:induction false} EarlierGrows(n: nat, a: nat, b: nat)
    requires a <= b <= 4 <= n
    ensures Earlier(n, a) <= Earlier(n, b)
  {
    if a < b {
      EarlierGrows(n, a, b - 1);
    }
  }

  /** The sectors of one remainder: as many as Earlier counts for it. */
  lemma RankInClass(n: nat, sector: nat)
    requires 4 <= n && sector < n
    ensures Earlier(n, sector % 4) <= Rank(n, sector) < Earlier(n, sector % 4 + 1) <= n
  {
    AllEarlier(n);
    EarlierGrows(n, sector % 4 + 1, 4);
    assert sector / 4 < (n + 4 - (sector % 4 + 1)) / 4;
  }

  lemma RankInjective(n: nat, a: nat, b: nat)
    requires 4 <= n && a < n && b < n && Rank(n, a) == Rank(n, b)
    ensures a == b
  {
    RankInClass(n, a);
    RankInClass(n, b);
    if a % 4 < b % 4 {
      EarlierGrows(n, a % 4 + 1, b % 4);
    } else if b % 4 < a % 4 {
      EarlierGrows(n, b % 4 + 1, a % 4);
    }
  }

  /** One call goes to the sector with the next rank, and from the last one to the next track. */
  lemma IterateRank(kind: Kind, p: Spot)
    requires OnTrack(kind, p)
    ensures var n, r := SectorsPerTrack(kind, p.track), Iterate(kind, p);
            if Rank(n, p.sector) + 1 < n then r.track == p.track && Rank(n, r.sector) == Rank(n, p.sector) + 1
            else r == Spot(NextTrack(p.track), 0)
  {
    hide SectorsPerTrack, Rank, Earlier, NextTrack;
    NextRank(SectorsPerTrack(kind, p.track), p.sector);
  }

  /** The sector after a given one, by ranks. */
  lemma NextRank(n: nat, s: nat)
    requires 4 <= n && s < n
    ensures if s + 4 < n then Rank(n, s + 4) == Rank(n, s) + 1 && Rank(n, s) + 1 < n
            else if s % 4 < 3 then Rank(n, s % 4 + 1) == Rank(n, s) + 1 && Rank(n, s) + 1 < n
            else Rank(n, s) + 1 == n
  {
    hide Earlier;
    AllEarlier(n);
    RankInClass(n, s);
    if s + 4 < n {
      assert (s + 4) % 4 == s % 4 && (s + 4) / 4 == s / 4 + 1;
      RankInClass(n, s + 4);
    } else {
      LastOfClass(n, s);
      if s % 4 < 3 {
        RankInClass(n, s % 4 + 1);
        assert (s % 4 + 1) % 4 == s % 4 + 1 && (s % 4 + 1) / 4 == 0;
      }
    }
  }

  lemma LastOfClass(n: nat, s: nat)
    requires 4 <= n && s < n <= s + 4
    ensures Rank(n, s) + 1 == Earlier(n, s % 4 + 1)
  {
    assert s / 4 + 1 == (n + 4 - (s % 4 + 1)) / 4;
    assert Earlier(n, s % 4 + 1) == Earlier(n, s % 4) + (n + 4 - (s % 4 + 1)) / 4;
  }

  /** From sector 0 on, the k-th call reaches the sector of rank k. */
  lemma {:induction false} WalkRank(kind: Kind, track: byte, k: nat)
    requires kind != DNP && k < SectorsPerTrack(kind, track)
    ensures var r := Walk(kind, Spot(track, 0), k); r.track == track && Rank(SectorsPerTrack(kind, track), r.sector) == k
  {
    hide Iterate, Rank;
    if k == 0 {
      assert Rank(SectorsPerTrack(kind, track), 0) == 0 by { FirstRank(SectorsPerTrack(kind, track)); }
    } else {
      WalkRank(kind, track, k - 1);
      IterateRank(kind, Walk(kind, Spot(track, 0), k - 1));
    }
  }

  lemma FirstRank(n: nat)
    requires n >= 4
    ensures Rank(n, 0) == 0
  {}

  /** Starting at sector 0, the walk visits every sector of the track exactly once, and then is at sector 0
      of the next track, which is never the directory track. */
  lemma VisitsEveryOnce(kind: Kind, track: byte, sector: byte, k: nat)
    requires OnTrack(kind, Spot(track, sector)) && k < SectorsPerTrack(kind, track)
    ensures Rank(SectorsPerTrack(kind, track), sector) < SectorsPerTrack(kind, track)
    ensures Walk(kind, Spot(track, 0), k) == Spot(track, sector) <==> k == Rank(SectorsPerTrack(kind, track), sector)
    ensures Walk(kind, Spot(track, 0), SectorsPerTrack(kind, track)) == Spot(NextTrack(track), 0)
    ensures NextTrack(track) != DIR_TRACK
  {
    hide Iterate, Rank;
    var n := SectorsPerTrack(kind, track);
    RankBelow(n, sector);
    WalkRank(kind, track, k);
    if k == Rank(n, sector) {
      RankInjective(n, Walk(kind, Spot(track, 0), k).sector, sector);
    }
    WalkRank(kind, track, n - 1);
    IterateRank(kind, Walk(kind, Spot(track, 0), n - 1));
  }

  lemma RankBelow(n: nat, sector: nat)
    requires 4 <= n && sector < n
    ensures Rank(n, sector) < n
  {
    RankInClass(n, sector);
  }

  // ---- Byte positions ------------------------------------------------------------------------

  datatype Position = Position(spot: Spot, offset: byte)

  /** m bytes further. */
  function Further(kind: Kind, p: Position, m: nat): (r: Position)
    requires OnTrack(kind, p.spot)
    ensures OnTrack(kind, r.spot)
  {
    Position(Walk(kind, p.spot, (p.offset + m) / 256), (p.offset + m) % 256)
  }

  lemma {:induction false} WalkTwice(kind: Kind, p: Spot, a: nat, b: nat)
    requires OnTrack(kind, p)
    ensures Walk(kind, Walk(kind, p, a), b) == Walk(kind, p, a + b)
  {
    if b > 0 {
      WalkTwice(kind, p, a, b - 1);
    }
  }

  lemma FurtherTwice(kind: Kind, p: Position, a: nat, b: nat)
    requires OnTrack(kind, p.spot)
    ensures Further(kind, Further(kind, p, a), b) == Further(kind, p, a + b)
  {
    var x: nat := p.offset + a;
    assert x == 256 * (x / 256) + x % 256;
    assert x + b == 256 * (x / 256) + (x % 256 + b);
    assert (x + b) / 256 == x / 256 + (x % 256 + b) / 256 && (x + b) % 256 == (x % 256 + b) % 256;
    WalkTwice(kind, p.spot, x / 256, (x % 256 + b) / 256);
  }

  /** Loading a file of length + 1 bytes, block by block, as load_file does it. */
  function Loaded(kind: Kind, p: Position, bytes: nat): (r: Position)
    requires OnTrack(kind, p.spot)
    ensures OnTrack(kind, r.spot)
    decreases bytes
  {
    if bytes == 0 then p
    else
      var block := if p.offset + bytes > 256 then 256 - p.offset else bytes;
      var offset := (p.offset + block) % 256;
      Loaded(kind, Position(if offset == 0 then Iterate(kind, p.spot) else p.spot, offset), bytes - block)
  }

  lemma {:induction false} LoadedIsFurther(kind: Kind, p: Position, bytes: nat)
    requires OnTrack(kind, p.spot)
    ensures Loaded(kind, p, bytes) == Further(kind, p, bytes)
    decreases bytes
  {
    hide Iterate, SectorsPerTrack;
    if bytes == 0 {
      assert Walk(kind, p.spot, 0) == p.spot;
    } else {
      var block := if p.offset + bytes > 256 then 256 - p.offset else bytes;
      var q := Further(kind, p, block);
      BlockFurther(kind, p, block);
      LoadedIsFurther(kind, q, bytes - block);
      FurtherTwice(kind, p, block, bytes - block);
    }
  }

  lemma BlockFurther(kind: Kind, p: Position, block: nat)
    requires OnTrack(kind, p.spot) && 0 < block && p.offset + block <= 256
    ensures var offset := (p.offset + block) % 256;
            Further(kind, p, block) == Position(if offset == 0 then Iterate(kind, p.spot) else p.spot, offset)
  {
    hide Iterate, SectorsPerTrack;
    assert Walk(kind, p.spot, 0) == p.spot && Walk(kind, p.spot, 1) == Iterate(kind, p.spot);
  }

  lemma LoadedStep(kind: Kind, p: Position, bytes: nat)
    requires OnTrack(kind, p.spot) && bytes > 0
    ensures var block := if p.offset + bytes > 256 then 256 - p.offset else bytes;
            var offset := (p.offset + block) % 256;
            Loaded(kind, p, bytes) == Loaded(kind, Position(if offset == 0 then Iterate(kind, p.spot) else p.spot, offset), bytes - block)
  {
    hide Iterate, SectorsPerTrack;
  }

  lemma LoadedNothing(kind: Kind, p: Position)
    requires OnTrack(kind, p.spot)
    ensures Loaded(kind, p, 0) == p
  {}

  /** load_file: the length of an entry is one less than that of its file, in 16 bits. A file of 65536
      bytes counts as an empty one; its only block moves on if it stands at the start of a sector. */
  function LoadedFile(kind: Kind, p: Position, length: nat): (r: Position)
    requires OnTrack(kind, p.spot)
    ensures OnTrack(kind, r.spot)
  {
    var bytes := (length + 1) % 65536;
    if bytes == 0 then Position(if p.offset == 0 then Iterate(kind, p.spot) else p.spot, p.offset)
    else Loaded(kind, p, bytes)
  }

  /** Skipping a directory entry as iterate_file does it; the sum is a 16-bit number. */
  function Skipped(kind: Kind, p: Position, length: nat): (r: Position)
    requires OnTrack(kind, p.spot)
    ensures OnTrack(kind, r.spot)
  {
    var l := (length + p.offset + 1) % 65536;
    Position(Walk(kind, p.spot, l / 256), l % 256)
  }

  /** All entries before a file. */
  function SkippedAll(kind: Kind, p: Position, lengths: seq<nat>): (r: Position)
    requires OnTrack(kind, p.spot)
    ensures OnTrack(kind, r.spot)
  {
    if lengths == [] then p else Skipped(kind, SkippedAll(kind, p, lengths[..|lengths| - 1]), lengths[|lengths| - 1])
  }

  function LoadedAll(kind: Kind, p: Position, lengths: seq<nat>): (r: Position)
    requires OnTrack(kind, p.spot)
    ensures OnTrack(kind, r.spot)
  {
    if lengths == [] then p else LoadedFile(kind, LoadedAll(kind, p, lengths[..|lengths| - 1]), lengths[|lengths| - 1])
  }

  // ---- A wrapped sum is 256 sectors short --------------------------------------------------------

  /** A track some changes later. */
  function Hop(track: byte, changes: nat): byte {
    if changes == 0 then track else NextTrack(Hop(track, changes - 1))
  }

  /** How many tracks a walk has changed, with the number of sectors on them: 17 to 40 on each. */
  lemma {:induction false} WalkChanges(kind: Kind, p: Spot, steps: nat) returns (changes: nat, sectors: nat)
    requires OnTrack(kind, p)
    ensures var r := Walk(kind, p, steps);
            && r.track == Hop(p.track, changes) && 17 * changes <= sectors <= 40 * changes
            && steps + Rank(SectorsPerTrack(kind, p.track), p.sector) == sectors + Rank(SectorsPerTrack(kind, r.track), r.sector)
  {
    hide Iterate, Rank, Hop, SectorsPerTrack;
    if steps == 0 {
      changes, sectors := 0, 0;
      assert Hop(p.track, 0) == p.track by { NoHop(p.track); }
    } else {
      changes, sectors := WalkChanges(kind, p, steps - 1);
      var q := Walk(kind, p, steps - 1);
      var n := SectorsPerTrack(kind, q.track);
      IterateRank(kind, q);
      RankBelow(n, q.sector);
      if Rank(n, q.sector) + 1 >= n {
        FirstRank(SectorsPerTrack(kind, NextTrack(q.track)));
        changes, sectors := changes + 1, sectors + n;
        assert Hop(p.track, changes) == NextTrack(q.track) by { OneHop(p.track, changes); }
      }
    }
  }

  lemma NoHop(track: byte)
    ensures Hop(track, 0) == track
  {}

  lemma OneHop(track: byte, changes: nat)
    requires changes > 0
    ensures Hop(track, changes) == NextTrack(Hop(track, changes - 1))
  {}

  lemma NextTrackIs(track: byte)
    ensures NextTrack(track) == if track == 255 then 0 else if track == 17 then 19 else track + 1
  {}

  /** Every change is one track or two, and the track number wraps around at 256. */
  lemma {:induction false} HopRange(track: byte, changes: nat) returns (tracks: nat, wraps: nat)
    ensures changes <= tracks <= 2 * changes && Hop(track, changes) + 256 * wraps == track + tracks
  {
    hide NextTrack;
    tracks, wraps := 0, 0;
    if changes > 0 {
      tracks, wraps := HopRange(track, changes - 1);
      var t := Hop(track, changes - 1);
      NextTrackIs(t);
      tracks, wraps := tracks + (if t == 17 then 2 else 1), wraps + if t == 255 then 1 else 0;
    }
  }

  /** 256 sectors further is another track. */
  lemma WrapMoves(kind: Kind, p: Spot)
    requires OnTrack(kind, p)
    ensures Walk(kind, p, 256) != p
  {
    hide Walk, Rank, SectorsPerTrack, Hop;
    var changes, sectors := WalkChanges(kind, p, 256);
    var r := Walk(kind, p, 256);
    RankBelow(SectorsPerTrack(kind, p.track), p.sector);
    RankBelow(SectorsPerTrack(kind, r.track), r.sector);
    assert 1 <= changes <= 17;
    var tracks, wraps := HopRange(p.track, changes);
    assert r.track == p.track ==> 256 * wraps == tracks;
  }

  /** The 16-bit sum for an entry does not wrap around, or wraps around to nothing just as loading does. */
  predicate SumHolds(p: Position, length: nat) {
    length + p.offset + 1 < 65536 || (length == 65535 && p.offset != 0)
  }

  lemma SumFits(kind: Kind, p: Position, length: nat)
    requires OnTrack(kind, p.spot) && length + p.offset + 1 < 65536
    ensures Skipped(kind, p, length) == LoadedFile(kind, p, length)
  {
    hide Walk, Loaded, Iterate;
    LoadedIsFurther(kind, p, length + 1);
    var sum: nat := length + p.offset + 1;
    assert sum % 65536 == sum && (length + 1) % 65536 == length + 1;
  }

  lemma SumWraps(kind: Kind, p: Position, length: nat)
    requires OnTrack(kind, p.spot) && length < 65535 && length + p.offset + 1 >= 65536
    ensures Skipped(kind, p, length) != LoadedFile(kind, p, length)
  {
    hide Walk, Loaded, Iterate;
    LoadedIsFurther(kind, p, length + 1);
    var sum: nat := length + p.offset + 1;
    WrappedSum(sum);
    assert (length + 1) % 65536 == length + 1;
    WalkTwice(kind, p.spot, 0, 256);
    NoSteps(kind, p.spot);
    WrapMoves(kind, p.spot);
  }

  /** Skipping an entry leads to the position that loading the file leads to exactly when the 16-bit sum
      does not wrap around. */
  lemma SkippedIff(kind: Kind, p: Position, length: nat)
    requires OnTrack(kind, p.spot) && length < 65536
    ensures Skipped(kind, p, length) == LoadedFile(kind, p, length) <==> SumHolds(p, length)
  {
    if length + p.offset + 1 < 65536 {
      SumFits(kind, p, length);
    } else if length < 65535 {
      SumWraps(kind, p, length);
    } else {
      NoSteps(kind, p.spot);
      IterateMoves(kind, p.spot);
      NothingLeft(p.offset);
    }
  }

  lemma NothingLeft(offset: byte)
    ensures (65535 + offset + 1) % 65536 == offset && offset / 256 == 0 && offset % 256 == offset
  {}

  lemma WrappedSum(sum: nat)
    requires 65536 <= sum < 65536 + 256
    ensures sum % 65536 == sum - 65536 && sum / 256 == 256 && (sum - 65536) / 256 == 0 && sum % 256 == (sum - 65536) % 256
  {}

  lemma NoSteps(kind: Kind, p: Spot)
    requires OnTrack(kind, p)
    ensures Walk(kind, p, 0) == p
  {}

  lemma IterateMoves(kind: Kind, p: Spot)
    requires OnTrack(kind, p)
    ensures Iterate(kind, p) != p
  {}

  /** No 16-bit sum wraps around on the way; so it is for every file that ends inside 64 KiB of its first
      sector. */
  predicate NoWrap(kind: Kind, p: Position, lengths: seq<nat>)
    requires OnTrack(kind, p.spot)
  {
    lengths == []
    || var front := lengths[..|lengths| - 1];
       NoWrap(kind, p, front) && SumHolds(LoadedAll(kind, p, front), lengths[|lengths| - 1])
  }

  /** Seeking agrees with loading for this file and all files before it. */
  predicate SeeksAgree(kind: Kind, p: Position, lengths: seq<nat>)
    requires OnTrack(kind, p.spot)
  {
    SkippedAll(kind, p, lengths) == LoadedAll(kind, p, lengths) && (lengths == [] || SeeksAgree(kind, p, lengths[..|lengths| - 1]))
  }

  /** Seeking to a file by the lengths of the entries before it, and to every file before that, ends at the
      position that loading those files one after another ends at - same track, same sector, same byte - if
      and only if no sum wraps around. */
  lemma {:induction false} SeekIsSequential(kind: Kind, p: Position, lengths: seq<nat>)
    requires OnTrack(kind, p.spot) && forall k :: 0 <= k < |lengths| ==> lengths[k] < 65536
    ensures SeeksAgree(kind, p, lengths) <==> NoWrap(kind, p, lengths)
    ensures NoWrap(kind, p, lengths) ==> SkippedAll(kind, p, lengths) == LoadedAll(kind, p, lengths)
  {
    hide Skipped, LoadedFile, SectorsPerTrack, SumHolds;
    if lengths != [] {
      var front := lengths[..|lengths| - 1];
      SeekIsSequential(kind, p, front);
      SkippedIff(kind, SkippedAll(kind, p, front), lengths[|lengths| - 1]);
    }
  }

  // ---- The session ---------------------------------------------------------------------------------

  class Session {
    const kind: Kind
    var track: byte
    var sector: byte
    var offset: byte

    constructor (kind: Kind)
      ensures this.kind == kind
    {
      this.kind := kind;
      track, sector, offset := 1, 0, 0;
    }

    function At(): Position
      reads this
    {
      Position(Spot(track, sector), offset)
    }

    /** iterate_sector */
    method IterateSector()
      requires OnTrack(kind, Spot(track, sector))
      modifies this`track, this`sector
      ensures Spot(track, sector) == Iterate(kind, old(Spot(track, sector)))
    {
      hide SectorsPerTrack;
      sector := sector + INTERLEAVE;
      if sector as int >= SectorsPerTrack(kind, track) {
        ghost var q: nat := 0;
        while sector >= INTERLEAVE
          invariant track == old(track) && sector + 4 * q == old(sector) + 4
        {
          sector := sector - INTERLEAVE;
          q := q + 1;
        }
        Remainder(old(sector) + INTERLEAVE, q, sector);
        sector := sector + 1;
        if sector == INTERLEAVE {
          sector := 0;
          track := (track + 1) % 256;
          if track == DIR_TRACK {
            track := track + 1;
          }
        }
      }
    }

    /** Call iterate_sector several times. */
    method Iterations(n: nat)
      requires OnTrack(kind, Spot(track, sector))
      modifies this`track, this`sector
      ensures Spot(track, sector) == Walk(kind, old(Spot(track, sector)), n)
    {
      hide Iterate, SectorsPerTrack;
      ghost var start := Spot(track, sector);
      for i := 0 to n
        invariant Spot(track, sector) == Walk(kind, start, i)
      {
        IterateSector();
      }
    }

    /** iterate_file: from the start of the first file of a directory sector, skip the entries before the
        requested one. */
    method IterateFile(startTrack: byte, startSector: byte, startOffset: byte, lengths: seq<nat>, file: byte)
      requires kind != DNP && file as int <= |lengths| && forall k :: 0 <= k < |lengths| ==> lengths[k] < 65536
      modifies this`track, this`sector, this`offset
      ensures At() == SkippedAll(kind, Position(Walk(kind, Spot(startTrack, 0), startSector), startOffset), lengths[..file])
    {
      hide Iterate, SectorsPerTrack;
      track, offset := startTrack, startOffset;
      sector := 0;
      assert OnTrack(kind, Spot(track, sector)) by { FirstSector(kind, track); }
      Iterations(startSector);
      ghost var start := At();
      for i := 0 to file
        invariant OnTrack(kind, start.spot) && At() == SkippedAll(kind, start, lengths[..i])
      {
        assert lengths[..i + 1][..i] == lengths[..i];
        var l := (lengths[i] + offset + 1) % 65536;
        Iterations(l / 256);
        offset := l % 256;
      }
    }

    /** load_file: how the position moves while the blocks of a file are sent. */
    method LoadFile(length: nat)
      requires OnTrack(kind, Spot(track, sector)) && length < 65536
      modifies this`track, this`sector, this`offset
      ensures At() == LoadedFile(kind, old(At()), length)
    {
      hide Iterate, SectorsPerTrack, Loaded;
      var flen: nat := (length + 1) % 65536;
      if flen == 0 {
        NextBlock(0);
        return;
      }
      while flen > 0
        invariant OnTrack(kind, Spot(track, sector))
        invariant Loaded(kind, At(), flen) == Loaded(kind, old(At()), length + 1)
      {
        var blen := if offset + flen > 256 then 256 - offset else flen;
        LoadedStep(kind, At(), flen);
        NextBlock(blen);
        flen := flen - blen;
      }
      LoadedNothing(kind, At());
    }

    /** The end of a round: the byte position, and the next sector when all of one has been sent. */
    method NextBlock(blen: nat)
      requires OnTrack(kind, Spot(track, sector)) && offset + blen <= 256
      modifies this`track, this`sector, this`offset
      ensures var o := old(offset + blen) % 256;
              At() == Position(if o == 0 then Iterate(kind, old(Spot(track, sector))) else old(Spot(track, sector)), o)
    {
      hide Iterate, SectorsPerTrack;
      offset := (offset + blen) % 256;
      if offset == 0 {
        IterateSector();
      }
    }
  }

  lemma Remainder(a: nat, q: nat, r: nat)
    requires a == 4 * q + r && r < 4
    ensures a % 4 == r
  {}

  lemma FirstSector(kind: Kind, track: byte)
    requires kind != DNP
    ensures OnTrack(kind, Spot(track, 0))
  {}
}
