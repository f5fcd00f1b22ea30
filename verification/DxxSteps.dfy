/** The operations on an image that the file code is made of: allocate_sector, free_sector and image_write of a
    sector outside the BAM (src/d64ops.c). */
module DxxSteps {
  import opened Bits
  import opened BamLayout
  import opened Bam

  datatype Step = Take(t: byte, s: byte) | Give(t: byte, s: byte) | Store(ts: Ts, block: Block)

  predicate Possible(d: Disk, step: Step) {
    match step
    case Take(t, s) => Present(d, t, s)
    case Give(t, s) => Present(d, t, s)
    case Store(ts, _) => ts in d.blocks && !IsBam(d.kind, ts)
  }

  function Applied(d: Disk, step: Step): Disk
    requires Possible(d, step)
  {
    match step
    case Take(t, s) => Allocate(d, t, s)
    case Give(t, s) => Release(d, t, s)
    case Store(ts, block) => WithBlock(d, ts, block)
  }

  /** The operations, one after the other, lead from one image to the other. */
  predicate Leads(d: Disk, steps: seq<Step>, e: Disk)
    decreases |steps|
  {
    if steps == [] then d == e
    else Possible(d, steps[0]) && Leads(Applied(d, steps[0]), steps[1..], e)
  }

  lemma LeadsNowhere(d: Disk)
    ensures Leads(d, [], d)
  {}

  lemma LeadsThere(d: Disk, step: Step)
    requires Possible(d, step)
    ensures Leads(d, [step], Applied(d, step))
  {
    LeadsNowhere(Applied(d, step));
    assert [step][1..] == [];
  }

  lemma {:induction false} LeadsOn(d: Disk, steps: seq<Step>, e: Disk, more: seq<Step>, f: Disk)
    requires Leads(d, steps, e) && Leads(e, more, f)
    ensures Leads(d, steps + more, f)
    decreases |steps|
  {
    hide Applied, Possible;
    if steps == [] {
      assert steps + more == more;
    } else {
      LeadsOn(Applied(d, steps[0]), steps[1..], e, more, f);
      assert (steps + more)[1..] == steps[1..] + more;
    }
  }

  lemma LeadsVia(d: Disk, steps: seq<Step>, i: nat, e: Disk)
    requires i < |steps| && Leads(d, steps[i..], e)
    ensures Possible(d, steps[i]) && Leads(Applied(d, steps[i]), steps[i + 1..], e)
  {
    hide Applied;
    assert steps[i..][1..] == steps[i + 1..];
  }

  lemma LeadsEnd(d: Disk, steps: seq<Step>, e: Disk)
    requires Leads(d, steps[|steps|..], e)
    ensures d == e
  {}
}
