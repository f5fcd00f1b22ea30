/** Deleting a file of the EEPROM file system: every entry of the chain is erased and every sector of
    the file comes free, nothing else changes (src/eeprom-fs.c, eepromfs_delete). */
module EefsDelete {
  import opened Bits
  import opened EefsModel
  import opened EefsInvariant
  import opened EefsWrite
  import opened EefsFiles

  // ---- States on the way ------------------------------------------------------------

  /** In the first m places of file h. */
  predicate Before(o: Own, h: byte, m: nat) {
    o.Owned? && o.head == h && o.index < m
  }

  /** The bitmap after the first m sectors of file h came free. */
  function Cleared(used: seq<bool>, owner: seq<Own>, h: byte, m: nat): (r: seq<bool>)
    requires |owner| == |used|
    ensures |r| == |used|
  {
    seq(|used|, x requires 0 <= x < |used| => used[x] && !Before(owner[x], h, m))
  }

  /** The directory after the first k entries of file h were erased. */
  function ErasedUpTo(dir: seq<Entry>, owner: seq<Own>, h: byte, k: nat): (r: seq<Entry>)
    requires |owner| == |dir|
    ensures |r| == |dir|
  {
    seq(|dir|, i requires 0 <= i < |dir| => if Before(owner[i], h, k) then Erased() else dir[i])
  }

  /** After k whole entries and m sectors. */
  ghost predicate Underway(s: State, b: Books, h: byte, t: State, k: nat, m: nat) {
    && s.Sized() && t.Sized() && |b.entryOwner| == |s.dir| && |b.sectorOwner| == |s.data|
    && t.data == s.data && t.usedEntries == s.usedEntries
    && t.dir == ErasedUpTo(s.dir, b.entryOwner, h, k)
    && t.usedSectors == Cleared(s.usedSectors, b.sectorOwner, h, m)
    && t.free as int == CountFree(t.usedSectors)
  }

  // ---- One sector, one entry ------------------------------------------------------------

  /** mark_sector for the m-th sector of file h; it was still marked, as the assertion in mark_sector
      wants. */
  lemma SectorFreed(s: State, b: Books, h: byte, t: State, k: nat, m: nat)
    requires SectorsOk(s, b) && h in b.files && m < |Sectors(b.files[h])| && Underway(s, b, h, t, k, m)
    ensures var x := Sectors(b.files[h])[m];
            && x as int < |s.data| && t.usedSectors[x]
            && Underway(s, b, h, MarkSector(t, x as int, false), k, m + 1)
  {
    hide Sectors, CountFree;
    var x := Sectors(b.files[h])[m] as int;
    assert b.sectorOwner[x] == Owned(h, m);
    CountFreeUpdate(t.usedSectors, x, false);
    forall y | 0 <= y < |s.data| && Before(b.sectorOwner[y], h, m + 1) && y != x
      ensures Before(b.sectorOwner[y], h, m)
    {
      if s.usedSectors[y] {
        assert OwnsSector(b, y);
      }
    }
    assert Cleared(s.usedSectors, b.sectorOwner, h, m + 1) == t.usedSectors[x := false];
    CountFreeBound(t.usedSectors[x := false]);
  }

  lemma CountFreeBound(used: seq<bool>)
    ensures CountFree(used) <= |used|
  {}

  lemma {:induction false} EntryFreed(s: State, b: Books, h: byte, t: State, k: nat, e: Entry, sectors: seq<byte>, i: nat)
    requires SectorsOk(s, b) && h in b.files && k < |b.files[h]| && Holds(e, sectors) && i <= |sectors|
    requires var m := |Sectors(b.files[h][..k])|;
             m + |sectors| <= |Sectors(b.files[h])| && Sectors(b.files[h])[m..m + |sectors|] == sectors
             && Underway(s, b, h, t, k, m + i)
    ensures Underway(s, b, h, FreeSlots(t, e, i), k, |Sectors(b.files[h][..k])| + |sectors|)
    decreases |sectors| - i
  {
    hide Sectors, CountFree, Underway, SectorsOk;
    var m := |Sectors(b.files[h][..k])|;
    Sizes(s, b, h, t, k, m + i);
    if i < |sectors| {
      assert e[i] == sectors[i] == Sectors(b.files[h])[m..m + |sectors|][i] == Sectors(b.files[h])[m + i];
      SectorFreed(s, b, h, t, k, m + i);
      EntryFreed(s, b, h, MarkSector(t, e[i] as int, false), k, e, sectors, i + 1);
    }
  }

  lemma Sizes(s: State, b: Books, h: byte, t: State, k: nat, m: nat)
    requires Underway(s, b, h, t, k, m)
    ensures s.Sized() && t.Sized() && |t.dir| == |s.dir| && |t.data| == |s.data| && t.data == s.data
  {}

  // ---- The chain ---------------------------------------------------------------------------

  /** The k-th entry's sectors are the next ones of the file. */
  lemma {:induction false} PartSlice(f: File, k: nat)
    requires k < |f|
    ensures var m := |Sectors(f[..k])|; var n := |f[k].sectors|;
            && |Sectors(f[..k + 1])| == m + n && m + n <= |Sectors(f)| && Sectors(f)[m..m + n] == f[k].sectors
  {
    hide Sectors;
    SectorsMore(f[..k], f[k]);
    assert f[..k] + [f[k]] == f[..k + 1];
    PrefixSectors(f, k + 1);
  }

  /** The sectors of the first k entries come first. */
  lemma {:induction false} PrefixSectors(f: File, k: nat)
    requires k <= |f|
    ensures Sectors(f[..k]) <= Sectors(f)
  {
    if k == |f| {
      assert f[..k] == f;
    } else {
      PrefixSectors(f[..|f| - 1], k);
      assert f[..|f| - 1][..k] == f[..k];
    }
  }

  lemma DirErased(s: State, b: Books, h: byte, u: State, k: nat, m: nat)
    requires s.Sized() && EntriesOk(s, b) && h in b.files && k < |b.files[h]| && Underway(s, b, h, u, k, m)
    ensures var e := b.files[h][k].entry;
            && e as int < |s.dir| && u.dir[e] == s.dir[e]
            && Underway(s, b, h, u.(dir := u.dir[e := Erased()]), k + 1, m)
  {
    hide Sectors, CountFree, Cleared;
    var e := b.files[h][k].entry;
    assert b.entryOwner[e] == Owned(h, k);
    forall i | 0 <= i < |s.dir| && i != e as int
      ensures Before(b.entryOwner[i], h, k + 1) == Before(b.entryOwner[i], h, k)
    {
      if Before(b.entryOwner[i], h, k + 1) {
        assert OwnsEntry(b, i);
      }
    }
    assert ErasedUpTo(s.dir, b.entryOwner, h, k + 1) == u.dir[e := Erased()];
  }

  /** One round of the loop: free the sectors of an entry, then erase it. */
  lemma EntryErased(s: State, b: Books, h: byte, t: State, k: nat)
    requires Inv(s, b) && h in b.files && k < |b.files[h]| && Underway(s, b, h, t, k, |Sectors(b.files[h][..k])|)
    ensures var e := b.files[h][k].entry;
            && e as int < |s.dir| && t.dir[e] == s.dir[e]
            && var u := FreeSlots(t, t.dir[e], 0);
            Underway(s, b, h, u.(dir := u.dir[e := Erased()]), k + 1, |Sectors(b.files[h][..k + 1])|)
  {
    hide Sectors, CountFree, SectorsOk, EntriesOk, FilesOk, NamesOk, Underway, PartOk, FreeSlots;
    var f := b.files[h];
    var m := |Sectors(f[..k])|;
    DirErased(s, b, h, t, k, m);
    PartHolds(s, b, h, k);
    PartSlice(f, k);
    Sizes(s, b, h, t, k, m);
    EntryFreed(s, b, h, t, k, s.dir[f[k].entry], f[k].sectors, 0);
    DirErased(s, b, h, FreeSlots(t, s.dir[f[k].entry], 0), k, m + |f[k].sectors|);
  }

  lemma PartHolds(s: State, b: Books, h: byte, k: nat)
    requires FilesOk(s, b) && h in b.files && k < |b.files[h]|
    ensures var p := b.files[h][k]; p.entry as int < |s.dir| && Holds(s.dir[p.entry], p.sectors)
  {
    hide Sectors;
    assert PartOk(s.dir, b.files[h], k);
  }

  lemma {:induction false} ChainErased(s: State, b: Books, h: byte, t: State, k: nat, links: nat)
    requires Inv(s, b) && h in b.files && k < |b.files[h]| && Underway(s, b, h, t, k, |Sectors(b.files[h][..k])|)
    requires links + k + 1 >= |b.files[h]|
    ensures var e := b.files[h][k].entry;
            && e as int < |t.dir| && t.Sized()
            && Underway(s, b, h, DeleteChain(t, e, links), |b.files[h]|, |Sectors(b.files[h])|)
    decreases links
  {
    hide Sectors, CountFree, Underway, Inv, FreeSlots;
    var f := b.files[h];
    var e := f[k].entry;
    Sizes(s, b, h, t, k, |Sectors(f[..k])|);
    EntryErased(s, b, h, t, k);
    var u := FreeSlots(t, t.dir[e], 0);
    var v := u.(dir := u.dir[e := Erased()]);
    ChainLink(s, b, h, k);
    if k + 1 < |f| {
      ChainErased(s, b, h, v, k + 1, links - 1);
    } else {
      assert f[..k + 1] == f;
    }
  }

  lemma ChainLink(s: State, b: Books, h: byte, k: nat)
    requires Inv(s, b) && h in b.files && k < |b.files[h]|
    ensures var f := b.files[h];
            && f[k].entry as int < |s.dir|
            && s.dir[f[k].entry][NEXT] == (if k + 1 < |f| then f[k + 1].entry else NONE)
            && (k + 1 < |f| ==> f[k + 1].entry as int < |s.dir|)
  {
    hide Sectors, CountFree;
    var f := b.files[h];
    assert PartOk(s.dir, f, k);
    if k + 1 < |f| {
      assert PartOk(s.dir, f, k + 1);
    }
  }

  /** Following the links from any entry of a chain ends at the last one. */
  lemma {:induction false} LastEntryOfChain(s: State, b: Books, h: byte, k: nat, links: nat)
    requires Inv(s, b) && h in b.files && k < |b.files[h]| && links + k + 1 >= |b.files[h]|
    ensures var f := b.files[h];
            f[k].entry as int < |s.dir| && LastEntry(s.dir, f[k].entry, links) == f[|f| - 1].entry
    decreases links
  {
    hide Inv, Sectors;
    Inside(s, b);
    ChainLink(s, b, h, k);
    if k + 1 < |b.files[h]| {
      LastEntryOfChain(s, b, h, k + 1, links - 1);
    }
  }

  // ---- After the deletion --------------------------------------------------------------------

  /** The books without file h. */
  function RemoveFile(b: Books, h: byte): Books {
    Books(b.files - {h},
          seq(|b.sectorOwner|, i requires 0 <= i < |b.sectorOwner| => Without(b.sectorOwner[i], h)),
          seq(|b.entryOwner|, i requires 0 <= i < |b.entryOwner| => Without(b.entryOwner[i], h)))
  }

  function Without(o: Own, h: byte): Own {
    if o.Owned? && o.head == h then Nobody else o
  }

  lemma RemovedSectors(s: State, b: Books, h: byte, t: State)
    requires SectorsOk(s, b) && h in b.files && Underway(s, b, h, t, |b.files[h]|, |Sectors(b.files[h])|)
    ensures SectorsOk(t, RemoveFile(b, h))
    ensures forall x :: 0 <= x < |s.data| ==> (t.usedSectors[x] <==> s.usedSectors[x] && !(b.sectorOwner[x].Owned? && b.sectorOwner[x].head == h))
  {
    hide Sectors, ErasedUpTo, CountFree;
    var c := RemoveFile(b, h);
    forall x | 0 <= x < |s.data| && b.sectorOwner[x].Owned?
      ensures b.sectorOwner[x].head != h ==> OwnsSector(c, x)
      ensures b.sectorOwner[x].head == h ==> Before(b.sectorOwner[x], h, |Sectors(b.files[h])|)
    {
      assert OwnsSector(b, x);
    }
  }

  lemma RemovedEntries(s: State, b: Books, h: byte, t: State)
    requires s.Sized() && EntriesOk(s, b) && h in b.files && Underway(s, b, h, t, |b.files[h]|, |Sectors(b.files[h])|)
    ensures EntriesOk(t, RemoveFile(b, h))
    ensures forall i :: 0 <= i < |s.dir| ==> t.dir[i] == if b.entryOwner[i].Owned? && b.entryOwner[i].head == h then Erased() else s.dir[i]
  {
    hide Sectors, Cleared, CountFree;
    var c := RemoveFile(b, h);
    forall i | 0 <= i < |s.dir| && b.entryOwner[i].Owned?
      ensures b.entryOwner[i].head != h ==> OwnsEntry(c, i)
      ensures b.entryOwner[i].head == h ==> Before(b.entryOwner[i], h, |b.files[h]|)
    {
      assert OwnsEntry(b, i);
    }
  }

  lemma RemovedFiles(s: State, b: Books, h: byte, t: State)
    requires Inv(s, b) && h in b.files && Underway(s, b, h, t, |b.files[h]|, |Sectors(b.files[h])|)
    ensures FilesOk(t, RemoveFile(b, h)) && NamesOk(t, RemoveFile(b, h))
    ensures forall x :: x in b.files && x != h ==> x as int < |s.dir| && t.dir[x] == s.dir[x]
  {
    hide Sectors, Cleared, ErasedUpTo, CountFree, SectorsOk, FileOk;
    RemovedEntries(s, b, h, t);
    forall x | x in b.files && x != h
      ensures FileOk(t.dir, x, b.files[x]) && x as int < |s.dir| && t.dir[x] == s.dir[x]
    {
      FoundIsInside(s, b, x);
      OtherFiles(s, b, t.dir, h, x);
    }
  }

  lemma RemovedAll(s: State, b: Books, h: byte, t: State)
    requires Inv(s, b) && h in b.files && Underway(s, b, h, t, |b.files[h]|, |Sectors(b.files[h])|)
    ensures Inv(t, RemoveFile(b, h))
  {
    hide Sectors, Cleared, ErasedUpTo, CountFree, FilesOk, SectorsOk, EntriesOk, NamesOk, RemoveFile;
    RemovedSectors(s, b, h, t);
    RemovedEntries(s, b, h, t);
    RemovedFiles(s, b, h, t);
  }

  /** A chain has no more entries than the directory. */
  lemma {:induction false} ChainIsShort(s: State, b: Books, h: byte)
    requires Inv(s, b) && h in b.files
    ensures |b.files[h]| <= |s.dir|
  {
    hide Sectors, CountFree, FilesOk, SectorsOk, NamesOk;
    var f := b.files[h];
    var entries := seq(|f|, k requires 0 <= k < |f| => f[k].entry);
    DistinctIsShort(entries, b.entryOwner, h);
  }

  /** What a successful deletion of file h leaves: its entries erased, its sectors free, and every other
      entry and sector as it was. The entries stay marked in the bitmap of used entries. */
  ghost predicate Gone(s: State, b: Books, h: byte, t: State) {
    && |b.entryOwner| == |s.dir| == |t.dir| && |b.sectorOwner| == |s.usedSectors| == |t.usedSectors|
    && t.data == s.data && t.usedEntries == s.usedEntries
    && (forall i :: 0 <= i < |s.dir| ==>
          t.dir[i] == if b.entryOwner[i].Owned? && b.entryOwner[i].head == h then Erased() else s.dir[i])
    && (forall x :: 0 <= x < |s.usedSectors| ==>
          (t.usedSectors[x] <==> s.usedSectors[x] && !(b.sectorOwner[x].Owned? && b.sectorOwner[x].head == h)))
  }

  /** eepromfs_delete succeeds exactly when a file has the name. Then the file is gone, with every entry
      and every sector of it, and nothing else has changed. */
  lemma DeleteKeeps(s: State, b: Books, name: Name)
    requires Inv(s, b)
    ensures var r := Delete(s, name); var h := Find(s.dir, name);
            && (r.error == Ok <==> h != NONE) && (r.error == Ok || r.error == FileNotFound)
            && (r.error != Ok ==> r.s == s)
            && (r.error == Ok ==>
                  && h in b.files && NameOf(s.dir[h]) == name
                  && Inv(r.s, RemoveFile(b, h)) && Gone(s, b, h, r.s))
  {
    hide Sectors, CountFree, Find, FilesOk, SectorsOk, EntriesOk, NamesOk, RemoveFile, DeleteChain, Gone, Underway;
    FindSpec(s, b, name);
    var h := Find(s.dir, name);
    if h != NONE {
      DeletionStarts(s, b, h);
      ChainIsShort(s, b, h);
      ChainErased(s, b, h, s, 0, |s.dir|);
      var t := DeleteChain(s, h, |s.dir|);
      RemovedAll(s, b, h, t);
      IsGone(s, b, h, t);
    }
  }

  lemma DeletionStarts(s: State, b: Books, h: byte)
    requires Inv(s, b) && h in b.files
    ensures Underway(s, b, h, s, 0, 0) && |b.files[h]| > 0 && b.files[h][0].entry == h && |Sectors(b.files[h][..0])| == 0
  {
    hide CountFree, FilesOk, SectorsOk, EntriesOk, NamesOk;
    FirstEntry(s, b, h);
    assert s.dir == ErasedUpTo(s.dir, b.entryOwner, h, 0);
    assert s.usedSectors == Cleared(s.usedSectors, b.sectorOwner, h, 0);
  }

  lemma FirstEntry(s: State, b: Books, h: byte)
    requires Inv(s, b) && h in b.files
    ensures |b.files[h]| > 0 && b.files[h][0].entry == h && |b.entryOwner| == |s.dir| && |b.sectorOwner| == |s.data|
  {
    hide CountFree, Sectors, PartOk;
  }

  lemma IsGone(s: State, b: Books, h: byte, t: State)
    requires Inv(s, b) && h in b.files && Underway(s, b, h, t, |b.files[h]|, |Sectors(b.files[h])|)
    ensures Gone(s, b, h, t)
  {
    hide Sectors, CountFree, ErasedUpTo, Cleared;
    RemovedEntries(s, b, h, t);
    RemovedSectors(s, b, h, t);
  }
}
