/** What every state of the EEPROM file system keeps: chains of directory entries that end, and every
    sector and every entry in at most one place of one file. */
module EefsInvariant {
  import opened Bits
  import opened EefsModel

  /** One directory entry of a file with the sectors it lists. */
  datatype Part = Part(entry: byte, sectors: seq<byte>)
  type File = seq<Part>

  /** The place of a sector in the list of a file's sectors, or of an entry in its chain. */
  datatype Own = Nobody | Owned(head: byte, index: nat)

  /** The files by the index of their first entry, and the owner of every sector and every entry. */
  datatype Books = Books(files: map<byte, File>, sectorOwner: seq<Own>, entryOwner: seq<Own>)

  /** All sectors of a file, in order. */
  function Sectors(f: File): seq<byte> {
    if f == [] then [] else Sectors(f[..|f| - 1]) + f[|f| - 1].sectors
  }

  /** Number of sectors not in use. */
  function CountFree(used: seq<bool>): (r: nat)
    ensures r <= |used|
  {
    if used == [] then 0 else CountFree(used[..|used| - 1]) + if used[|used| - 1] then 0 else 1
  }

  // ---- One file ---------------------------------------------------------------------

  /** The slots of an entry: the sectors, then only free ones. */
  ghost predicate Holds(e: Entry, sectors: seq<byte>) {
    |sectors| <= MaxSectors(e) && forall i :: 0 <= i < MaxSectors(e) ==> e[i] == if i < |sectors| then sectors[i] else FREE
  }

  /** The k-th entry of the chain: a name entry first, list entries behind it, linked in order, all
      full but the last one. */
  ghost predicate PartOk(dir: seq<Entry>, f: File, k: nat)
    requires k < |f|
  {
    && f[k].entry as int < |dir|
    && var e := dir[f[k].entry];
    && Live(e) && (IsList(e) <==> k > 0)
    && e[NEXT] == (if k + 1 < |f| then f[k + 1].entry else NONE)
    && Holds(e, f[k].sectors)
    && (k + 1 < |f| ==> |f[k].sectors| == MaxSectors(e))
    && (k > 0 ==> |f[k].sectors| > 0)
  }

  ghost predicate FileOk(dir: seq<Entry>, head: byte, f: File) {
    && |f| > 0 && f[0].entry == head
    && forall k {:trigger f[k]} :: 0 <= k < |f| ==> PartOk(dir, f, k)
  }

  // ---- All files ----------------------------------------------------------------------

  ghost predicate FilesOk(s: State, b: Books) {
    forall h :: h in b.files ==> FileOk(s.dir, h, b.files[h]) && SizeOf(s.dir[h]) <= SECTOR_SIZE * |Sectors(b.files[h])|
  }

  /** Every sector is in at most one place of one file, and the bitmap marks those that are. */
  ghost predicate SectorsOk(s: State, b: Books) {
    && |b.sectorOwner| == |s.data| == |s.usedSectors|
    && (forall h, j :: h in b.files && 0 <= j < |Sectors(b.files[h])| ==>
          Sectors(b.files[h])[j] as int < |s.data| && b.sectorOwner[Sectors(b.files[h])[j]] == Owned(h, j))
    && (forall k :: 0 <= k < |s.data| ==> (s.usedSectors[k] <==> b.sectorOwner[k].Owned?))
    && (forall k :: 0 <= k < |s.data| && b.sectorOwner[k].Owned? ==> OwnsSector(b, k))
  }

  predicate OwnsSector(b: Books, k: int)
    requires 0 <= k < |b.sectorOwner| && b.sectorOwner[k].Owned?
  {
    var o := b.sectorOwner[k];
    o.head in b.files && o.index < |Sectors(b.files[o.head])| && Sectors(b.files[o.head])[o.index] == k
  }

  /** Every entry is in at most one chain, in one place; live are exactly those that are. */
  ghost predicate EntriesOk(s: State, b: Books) {
    && |b.entryOwner| == |s.dir| == |s.usedEntries|
    && (forall h, k :: h in b.files && 0 <= k < |b.files[h]| ==>
          b.files[h][k].entry as int < |s.dir| && b.entryOwner[b.files[h][k].entry] == Owned(h, k))
    && (forall i :: 0 <= i < |s.dir| ==> (Live(s.dir[i]) <==> b.entryOwner[i].Owned?))
    && (forall i :: 0 <= i < |s.dir| && b.entryOwner[i].Owned? ==> OwnsEntry(b, i))
    && (forall i :: 0 <= i < |s.dir| && Live(s.dir[i]) ==> s.usedEntries[i])
  }

  predicate OwnsEntry(b: Books, i: int)
    requires 0 <= i < |b.entryOwner| && b.entryOwner[i].Owned?
  {
    var o := b.entryOwner[i];
    o.head in b.files && o.index < |b.files[o.head]| && b.files[o.head][o.index].entry == i
  }

  /** No two files have the same name. */
  ghost predicate NamesOk(s: State, b: Books) {
    forall h, h2 :: h in b.files && h2 in b.files && h as int < |s.dir| && h2 as int < |s.dir| ==>
      NameOf(s.dir[h]) == NameOf(s.dir[h2]) ==> h == h2
  }

  ghost predicate Inv(s: State, b: Books) {
    && s.Sized() && FilesOk(s, b) && SectorsOk(s, b) && EntriesOk(s, b) && NamesOk(s, b)
    && s.free as int == CountFree(s.usedSectors)
  }

  // ---- Lists ----------------------------------------------------------------------------

  lemma SectorsMore(f: File, p: Part)
    ensures Sectors(f + [p]) == Sectors(f) + p.sectors
  {
    assert (f + [p])[..|f|] == f;
  }

  /** One more sector in the last entry. */
  lemma SectorsLonger(f: File, k: byte)
    requires |f| > 0
    ensures var last := f[|f| - 1];
            Sectors(f[|f| - 1 := Part(last.entry, last.sectors + [k])]) == Sectors(f) + [k]
  {
    var last := f[|f| - 1];
    var g := f[|f| - 1 := Part(last.entry, last.sectors + [k])];
    assert g[..|f| - 1] == f[..|f| - 1];
    assert Sectors(f[..|f| - 1]) + (last.sectors + [k]) == (Sectors(f[..|f| - 1]) + last.sectors) + [k];
  }

  lemma {:induction false} CountFreeUpdate(used: seq<bool>, k: nat, state: bool)
    requires k < |used|
    ensures CountFree(used[k := state]) == CountFree(used) + (if used[k] then 1 else 0) - if state then 1 else 0
  {
    var last := |used| - 1;
    if k == last {
      assert used[k := state][..last] == used[..last];
    } else {
      CountFreeUpdate(used[..last], k, state);
      assert used[k := state][..last] == used[..last][k := state];
    }
  }
}
