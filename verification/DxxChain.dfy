/** Sector chains of files in a Dxx image: what allocating and writing a sector leaves alone, and
    what it means for a file to be stored (src/d64ops.c). */
module DxxChain {
  import opened Bits
  import opened Geometry
  import opened BamLayout
  import opened Bam

  // ---- Frames -------------------------------------------------------------------

  lemma AllocateFrame(d: Disk, t: byte, s: byte, ts: Ts)
    requires Present(d, t, s) && ts in d.blocks && !IsBam(d.kind, ts)
    ensures ts in Allocate(d, t, s).blocks && Allocate(d, t, s).blocks[ts] == d.blocks[ts]
  {
    BamSectorIsBam(d, t, true);
    BamSectorIsBam(d, t, false);
  }

  lemma ReleaseFrame(d: Disk, t: byte, s: byte, ts: Ts)
    requires Present(d, t, s) && ts in d.blocks && !IsBam(d.kind, ts)
    ensures ts in Release(d, t, s).blocks && Release(d, t, s).blocks[ts] == d.blocks[ts]
  {
    BamSectorIsBam(d, t, true);
    BamSectorIsBam(d, t, false);
  }

  /** Two images with the same BAM. */
  ghost predicate SameBam(d: Disk, e: Disk) {
    && d.(blocks := map[]) == e.(blocks := map[])
    && (forall t: byte, s: byte :: Present(d, t, s) ==> IsFree(d, t, s) == IsFree(e, t, s))
    && (forall t: byte :: Present(d, t, 0) && d.kind != DNP ==> Counter(d, t) == Counter(e, t))
  }

  lemma WriteKeepsBam(d: Disk, ts: Ts, block: Block)
    requires ts in d.blocks && !IsBam(d.kind, ts)
    ensures SameBam(d, WithBlock(d, ts, block))
  {
    var e := WithBlock(d, ts, block);
    forall t: byte, s: byte | Present(d, t, s) ensures IsFree(d, t, s) == IsFree(e, t, s) {
      BamInside(d, t, s);
      BamSectorIsBam(d, t, true);
    }
    forall t: byte | Present(d, t, 0) && d.kind != DNP ensures Counter(d, t) == Counter(e, t) {
      BamInside(d, t, 0);
      BamSectorIsBam(d, t, false);
    }
  }

  lemma SameBamCounts(d: Disk, e: Disk)
    requires SameBam(d, e) && CountersMatch(d)
    ensures CountersMatch(e)
  {
    if d.kind != DNP {
      forall t: byte | 1 <= t <= d.lastBamTrack
        ensures Counter(e, t) == CountFree(e, t, SectorsPerTrack(d.kind, t))
      {
        assert Present(d, t, 0);
        assert forall s: byte :: s < SectorsPerTrack(d.kind, t) ==> Present(d, t, s);
        CountFreeSame(d, e, t, SectorsPerTrack(d.kind, t));
      }
    }
  }

  // ---- Chains ----------------------------------------------------------------------

  /** Not free, as far as the BAM knows the sector. */
  predicate Taken(d: Disk, ts: Ts) {
    ts in d.blocks && InRange(d.kind, d.lastTrack, ts.track, ts.sector)
    && (ts.track <= d.lastBamTrack ==> !IsFree(d, ts.track, ts.sector))
  }

  /** A directory sector outside the BAM, and a BAM that has marked its own sectors as used. */
  ghost predicate Protected(d: Disk, dir: Ts) {
    && CountersMatch(d)
    && Taken(d, dir) && !IsBam(d.kind, dir)
    && forall ts :: ts in d.blocks && IsBam(d.kind, ts) ==> Taken(d, ts)
  }

  /** No sector occurs twice. */
  predicate Distinct(chain: seq<Ts>) {
    chain == [] || (Distinct(chain[..|chain| - 1]) && chain[|chain| - 1] !in chain[..|chain| - 1])
  }

  lemma {:induction false} DistinctAt(chain: seq<Ts>, j: nat, k: nat)
    requires Distinct(chain) && j < k < |chain|
    ensures chain[j] != chain[k]
  {
    if k < |chain| - 1 {
      DistinctAt(chain[..|chain| - 1], j, k);
    } else {
      assert chain[j] == chain[..|chain| - 1][j];
    }
  }

  lemma DistinctMore(chain: seq<Ts>, ts: Ts)
    requires Distinct(chain) && ts !in chain
    ensures Distinct(chain + [ts])
  {
    assert (chain + [ts])[..|chain|] == chain;
  }

  /** The sectors of a chain belong to it alone: they are distinct, marked as used, and neither BAM
      nor directory. */
  ghost predicate Owned(d: Disk, chain: seq<Ts>, dir: Ts) {
    && Distinct(chain)
    && forall k :: 0 <= k < |chain| ==> Taken(d, chain[k]) && !IsBam(d.kind, chain[k]) && chain[k] != dir
  }

  /** The 254 bytes of a sector behind its link. */
  function Payload(block: Block): (r: seq<byte>)
    ensures |r| == 254
  {
    block[2..]
  }

  /** One full sector: link to the next one and 254 bytes. */
  predicate FullSector(d: Disk, ts: Ts, next: Ts, body: seq<byte>) {
    ts in d.blocks && d.blocks[ts][0] == next.track && d.blocks[ts][1] == next.sector && Payload(d.blocks[ts]) == body
  }

  /** Every sector of the chain but the last one is full and links to its successor. */
  ghost predicate Stored(d: Disk, chain: seq<Ts>, bodies: seq<seq<byte>>) {
    && |chain| == |bodies| + 1
    && forall k {:trigger bodies[k]} :: 0 <= k < |bodies| ==> FullSector(d, chain[k], chain[k + 1], bodies[k])
  }

  /** The last sector: link track 0, position of the last byte, and up to 254 bytes. Without any the position is
      1, as after copying an empty file, or 0. */
  ghost predicate LastSector(d: Disk, ts: Ts, body: seq<byte>) {
    && ts in d.blocks && |body| <= 254 && d.blocks[ts][0] == 0
    && (d.blocks[ts][1] == |body| + 1 || (d.blocks[ts][1] == 0 && body == []))
    && Payload(d.blocks[ts])[..|body|] == body
  }

  /** A terminated file: its sectors, and its contents sector by sector. */
  ghost predicate IsFile(d: Disk, chain: seq<Ts>, bodies: seq<seq<byte>>, tail: seq<byte>) {
    Stored(d, chain, bodies) && LastSector(d, chain[|bodies|], tail)
  }

  function Flatten(bodies: seq<seq<byte>>): seq<byte> {
    if bodies == [] then [] else Flatten(bodies[..|bodies| - 1]) + bodies[|bodies| - 1]
  }

  lemma FlattenAppend(bodies: seq<seq<byte>>, body: seq<byte>)
    ensures Flatten(bodies + [body]) == Flatten(bodies) + body
  {
    assert (bodies + [body])[..|bodies|] == bodies;
  }

  lemma {:induction false} FlattenLength(bodies: seq<seq<byte>>)
    requires forall k :: 0 <= k < |bodies| ==> |bodies[k]| == 254
    ensures |Flatten(bodies)| == 254 * |bodies|
  {
    if bodies != [] {
      FlattenLength(bodies[..|bodies| - 1]);
    }
  }

  /** A file has as many sectors as its length asks for, and one more if the last one is empty. */
  lemma FileLength(d: Disk, chain: seq<Ts>, bodies: seq<seq<byte>>, tail: seq<byte>)
    requires IsFile(d, chain, bodies, tail)
    ensures |chain| == (|Flatten(bodies) + tail| + 253) / 254 + if tail == [] then 1 else 0
  {
    forall k | 0 <= k < |bodies| ensures |bodies[k]| == 254 {
      assert FullSector(d, chain[k], chain[k + 1], bodies[k]);
    }
    FlattenLength(bodies);
  }

  // ---- One more sector ----------------------------------------------------------------

  /** Allocating a sector marks it as used and leaves every sector outside the BAM as it was. */
  lemma AllocateEffect(d: Disk, dir: Ts, t: byte, s: byte)
    requires Protected(d, dir) && Mapped(d, t, s) && IsFree(d, t, s)
    ensures var e := Allocate(d, t, s);
            && Protected(e, dir) && Taken(e, Ts(t, s))
            && !Taken(d, Ts(t, s)) && !IsBam(d.kind, Ts(t, s)) && Ts(t, s) != dir
            && (forall ts :: Taken(d, ts) ==> Taken(e, ts))
            && (forall ts :: ts in d.blocks && !IsBam(d.kind, ts) ==> e.blocks[ts] == d.blocks[ts])
  {
    hide IsFree, CountersMatch, IsBam;
    var e := Allocate(d, t, s);
    AllocateKeepsCounters(d, t, s);
    forall ts | Taken(d, ts) ensures Taken(e, ts) {
      if ts.track <= d.lastBamTrack {
        AllocateBit(d, t, s, ts.track, ts.sector);
      }
    }
    forall ts | ts in d.blocks && !IsBam(d.kind, ts) ensures e.blocks[ts] == d.blocks[ts] {
      AllocateFrame(d, t, s, ts);
    }
    AllocateBit(d, t, s, t, s);
  }

  /** Writing a sector outside the BAM changes nothing else. */
  lemma RewriteSector(d: Disk, dir: Ts, ts: Ts, block: Block)
    requires Protected(d, dir) && ts in d.blocks && !IsBam(d.kind, ts)
    ensures var e := WithBlock(d, ts, block); Protected(e, dir) && forall u :: Taken(d, u) <==> Taken(e, u)
  {
    WriteKeepsBam(d, ts, block);
    SameBamCounts(d, WithBlock(d, ts, block));
  }

  /** Freeing a sector that is neither BAM nor directory. */
  lemma ReleaseEffect(d: Disk, dir: Ts, ts: Ts)
    requires Protected(d, dir) && Taken(d, ts) && ts.track <= d.lastBamTrack && !IsBam(d.kind, ts) && ts != dir
    ensures var e := Release(d, ts.track, ts.sector);
            && Protected(e, dir) && IsFree(e, ts.track, ts.sector)
            && (forall u :: Taken(d, u) && u != ts ==> Taken(e, u))
            && (forall u :: u in d.blocks && !IsBam(d.kind, u) ==> e.blocks[u] == d.blocks[u])
            && (forall t: byte, s: byte :: Mapped(d, t, s) && IsFree(d, t, s) ==> IsFree(e, t, s))
  {
    var e := Release(d, ts.track, ts.sector);
    ReleaseKeepsCounters(d, ts.track, ts.sector);
    forall u | Taken(d, u) && u != ts ensures Taken(e, u) {
      if u.track <= d.lastBamTrack {
        ReleaseBit(d, ts.track, ts.sector, u.track, u.sector);
      }
    }
    forall u | u in d.blocks && !IsBam(d.kind, u) ensures e.blocks[u] == d.blocks[u] {
      ReleaseFrame(d, ts.track, ts.sector, u);
    }
    forall t: byte, s: byte | Mapped(d, t, s) && IsFree(d, t, s) ensures IsFree(e, t, s) {
      ReleaseBit(d, ts.track, ts.sector, t, s);
    }
    ReleaseBit(d, ts.track, ts.sector, ts.track, ts.sector);
  }
}
