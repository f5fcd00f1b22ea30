/** File operations through the BAM buffers: the same sectors are allocated, freed and written, and after a commit
    the images hold what the file operations on a plain image leave (src/d64ops.c). */
module DxxCached {
  import opened Bits
  import opened Geometry
  import opened BamLayout
  import opened Bam
  import opened BamCache
  import opened DxxSteps
  import opened DxxRoom
  import opened DxxFile
  import opened DxxSession

  /** One operation, with whatever is cached. */
  method Perform(c: Cache, part: byte, step: Step, mayAllocate: bool)
    requires c.Valid() && part as int < |c.View()| && Possible(c.View()[part], step)
    modifies c.Repr
    ensures c.Valid() && fresh(c.Repr - old(c.Repr))
    ensures c.View() == old(c.View())[part := Applied(old(c.View())[part], step)]
  {
    c.ViewOk();
    match step {
      case Take(t, s) => c.AllocateSector(part, t, s, mayAllocate);
      case Give(t, s) => c.FreeSector(part, t, s, mayAllocate);
      case Store(ts, block) => c.WriteThrough(part, ts, block);
    }
  }

  /** Operations that lead from the image in view to another one bring that one into view, and a commit writes it. */
  method Replay(c: Cache, part: byte, steps: seq<Step>, mayAllocate: nat -> bool, ghost e: Disk)
    requires c.Valid() && part as int < |c.View()| && Leads(c.View()[part], steps, e)
    modifies c.Repr
    ensures c.Valid() && fresh(c.Repr - old(c.Repr))
    ensures c.disks == c.View() == old(c.View())[part := e]
  {
    hide Applied, Possible, Leads, Cache.View, Overlay, SlotOk;
    ghost var before := c.View();
    ghost var d := before[part];
    assert steps[0..] == steps && before[part := d] == before;
    for i := 0 to |steps|
      invariant c.Valid() && fresh(c.Repr - old(c.Repr))
      invariant c.View() == before[part := d] && Leads(d, steps[i..], e)
    {
      LeadsVia(d, steps, i, e);
      Perform(c, part, steps[i], mayAllocate(i));
      d := Applied(d, steps[i]);
      assert before[part := d] == c.View();
    }
    LeadsEnd(d, steps, e);
    c.Commit();
  }

  /** The image of a partition, as every reader sees it. */
  ghost predicate Shows(c: Cache, part: byte, d: Disk)
    reads c, c.Repr
    requires c.Valid()
  {
    part as int < |c.View()| && c.View()[part] == d
  }

  /** Saving through the buffers: whatever they hold before, the image is in the end what the save makes of the
      one in view, and the other images hold what was in view for them. */
  method SaveCached(c: Cache, part: byte, d: Disk, mayAllocate: nat -> bool, f: Target, data: Block, bytes: seq<byte>)
    returns (outcome: Outcome, ghost e: Disk, ghost log: Log)
    requires c.Valid() && Shows(c, part, d) && Saveable(d, f, |bytes|)
    modifies c.Repr
    ensures c.Valid() && part as int < |old(c.View())| && c.disks == c.View() == old(c.View())[part := e]
    ensures outcome == Done <==> FileSectors(|bytes|) <= SaveRoom(d)
    ensures if SaveRoom(d) == 0 then e == d else Complete(Place(f.dir, f.entry, d, 0, 0), e, log)
    ensures outcome.DiskFull? ==> (outcome.reported <==> d.kind != DNP)
    ensures outcome == Done ==> Saved(e, f, log, bytes)
    ensures outcome.DiskFull? && SaveRoom(d) > 0 ==> SavedInPart(d, e, f, log, bytes, SaveRoom(d))
  {
    hide Saveable, SaveRoom, Complete, Saved, SavedInPart, Leads, FileSectors;
    var saved, steps;
    outcome, saved, steps, log := Save(d, f, data, bytes);
    e := saved;
    Replay(c, part, steps, mayAllocate, e);
  }

  /** Appending through the buffers. */
  method AppendCached(c: Cache, part: byte, d: Disk, mayAllocate: nat -> bool, bad: set<Ts>, dir: Ts, entry: nat,
                      first: Stamp, last: Stamp, bytes: seq<byte>, ghost log: Log)
    returns (ok: bool, outcome: Outcome, ghost e: Disk, ghost after: Log)
    requires c.Valid() && Shows(c, part, d)
    requires Appendable(d, dir, entry, log) && |log.chain| > 0 && SearchesEnd(d, LastTrack(log), Needed(log, |bytes|))
    modifies c.Repr
    ensures c.Valid() && part as int < |old(c.View())| && c.disks == c.View() == old(c.View())[part := e]
    ensures ok <==> GoodFront(bad, log.chain) == |log.chain|
    ensures !ok ==> e == d
    ensures ok ==> (outcome == Done <==> Needed(log, |bytes|) <= NextRoom(d, LastTrack(log)))
    ensures ok && outcome == Done ==> Lengthened(d, e, dir, entry, log, after, bytes)
    ensures ok && outcome.DiskFull? ==> CutShort(d, e, dir, entry, log, after, bytes, NextRoom(d, LastTrack(log)), first)
  {
    hide Appendable, SearchesEnd, Needed, NextRoom, Lengthened, CutShort, Leads, Complete, GoodFront;
    var appended, steps;
    ok, outcome, appended, steps, after := AppendBytes(d, bad, dir, entry, first, last, bytes, log);
    e := appended;
    Replay(c, part, steps, mayAllocate, e);
  }

  /** Deleting through the buffers. */
  method DeleteCached(c: Cache, part: byte, d: Disk, mayAllocate: nat -> bool, bad: set<Ts>, dir: Ts, entry: nat, ghost log: Log)
    returns (result: int, ghost e: Disk)
    requires c.Valid() && Shows(c, part, d)
    requires Listed(d, dir, entry, log) && forall k :: 0 <= k < |log.chain| ==> log.chain[k].track <= d.lastBamTrack
    modifies c.Repr
    ensures c.Valid() && part as int < |old(c.View())| && c.disks == c.View() == old(c.View())[part := e]
    ensures entry < 8 && dir in d.blocks
    ensures var locked := Bit(EntryByte(d.blocks[dir], entry, TYPE), 6);
            result == if locked then 0 else if GoodFront(bad, log.chain) < |log.chain| then 255 else 1
    ensures result == 0 ==> e == d
    ensures result == 255 ==> Freed(d, e, dir, log.chain, GoodFront(bad, log.chain) + 1)
    ensures result == 1 ==> Deleted(d, e, dir, entry, log.chain)
  {
    hide Listed, GoodFront, Freed, Deleted, Leads, Bit;
    var deleted, steps;
    result, deleted, steps := Delete(d, bad, dir, entry, log);
    e := deleted;
    Replay(c, part, steps, mayAllocate, e);
  }
}
