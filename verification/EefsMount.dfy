/** Mounting and formatting the EEPROM file system: the bitmaps that eepromfs_init rebuilds from the
    directory are those the running system keeps (src/eeprom-fs.c). */
module EefsMount {
  import opened Bits
  import opened EefsModel
  import opened EefsInvariant
  import opened EefsWrite
  import opened EefsFiles
  import opened EefsDelete

  // ---- Where a sector is listed --------------------------------------------------------

  /** A slot: its entry and its index in that entry. */
  datatype Place = Place(entry: nat, slot: nat)

  predicate PlaceBefore(p: Place, entry: nat, slot: nat) {
    p.entry < entry || (p.entry == entry && p.slot < slot)
  }

  /** The part of a file, and the slot in it, of the file's sector number index. */
  function PlaceIn(f: File, index: nat): (r: Place)
    requires index < |Sectors(f)|
    ensures r.entry < |f| && r.slot < |f[r.entry].sectors| && f[r.entry].sectors[r.slot] == Sectors(f)[index]
  {
    var front := |Sectors(f[..|f| - 1])|;
    if index >= front then Place(|f| - 1, index - front) else PlaceIn(f[..|f| - 1], index)
  }

  lemma {:induction false} PlaceInUnique(f: File, k: nat, m: nat)
    requires k < |f| && m < |f[k].sectors|
    ensures var index := |Sectors(f[..k])| + m;
            index < |Sectors(f)| && Sectors(f)[index] == f[k].sectors[m] && PlaceIn(f, index) == Place(k, m)
  {
    hide PlaceIn;
    if k == |f| - 1 {
      PlaceInLast(f, m);
    } else {
      var g := f[..|f| - 1];
      assert g[..k] == f[..k];
      PlaceInUnique(g, k, m);
      PlaceInFront(f, |Sectors(g[..k])| + m);
    }
  }

  lemma PlaceInLast(f: File, m: nat)
    requires |f| > 0 && m < |f[|f| - 1].sectors|
    ensures var index := |Sectors(f[..|f| - 1])| + m;
            index < |Sectors(f)| && Sectors(f)[index] == f[|f| - 1].sectors[m] && PlaceIn(f, index) == Place(|f| - 1, m)
  {}

  lemma PlaceInFront(f: File, index: nat)
    requires |f| > 0 && index < |Sectors(f[..|f| - 1])|
    ensures index < |Sectors(f)| && Sectors(f)[index] == Sectors(f[..|f| - 1])[index] && PlaceIn(f, index) == PlaceIn(f[..|f| - 1], index)
  {}

  /** The slot of every sector in use. */
  ghost predicate PlacesOk(s: State, places: seq<Place>) {
    && |places| == |s.data| == |s.usedSectors|
    && (forall e, m :: 0 <= e < |s.dir| && Live(s.dir[e]) && 0 <= m < MaxSectors(s.dir[e]) && s.dir[e][m] as int < |s.data| ==>
          s.usedSectors[s.dir[e][m]] && places[s.dir[e][m]] == Place(e, m))
    && (forall x :: 0 <= x < |s.data| && s.usedSectors[x] ==> LiesAt(s, places[x], x))
  }

  predicate LiesAt(s: State, p: Place, x: nat) {
    p.entry < |s.dir| && Live(s.dir[p.entry]) && p.slot < MaxSectors(s.dir[p.entry]) && s.dir[p.entry][p.slot] as int == x
  }

  /** The slot that the books give for a sector. */
  function PlaceOf(b: Books, o: Own): Place
    requires o.Owned? ==> o.head in b.files && o.index < |Sectors(b.files[o.head])|
  {
    if o == Nobody then Place(0, 0)
    else
      var p := PlaceIn(b.files[o.head], o.index);
      Place(b.files[o.head][p.entry].entry as nat, p.slot)
  }

  lemma OwnersInside(s: State, b: Books, x: nat)
    requires SectorsOk(s, b) && x < |s.data|
    ensures x < |b.sectorOwner| && x < |s.usedSectors| && (s.usedSectors[x] <==> b.sectorOwner[x].Owned?)
    ensures var o := b.sectorOwner[x];
            o.Owned? ==> o.head in b.files && o.index < |Sectors(b.files[o.head])| && Sectors(b.files[o.head])[o.index] as int == x
  {
    hide Sectors;
    if b.sectorOwner[x].Owned? {
      assert OwnsSector(b, x);
    }
  }

  /** A sector in use is in a slot of a live entry. */
  lemma PlaceIsThere(s: State, b: Books, x: nat)
    requires Inv(s, b) && x < |s.data| && s.usedSectors[x]
    ensures OwnerKnown(b, x) && LiesAt(s, PlaceOf(b, b.sectorOwner[x]), x)
  {
    hide Sectors, CountFree, EntriesOk, NamesOk, PlaceIn;
    OwnersInside(s, b, x);
    var o := b.sectorOwner[x];
    var f := b.files[o.head];
    var p := PlaceIn(f, o.index);
    assert PartOk(s.dir, f, p.entry);
  }

  predicate OwnerKnown(b: Books, x: nat) {
    && x < |b.sectorOwner|
    && var o := b.sectorOwner[x];
    o.Owned? ==> o.head in b.files && o.index < |Sectors(b.files[o.head])|
  }

  /** A sector number in a slot of a live entry has its place there. */
  lemma SlotIsPlace(s: State, b: Books, e: nat, m: nat)
    requires Inv(s, b) && e < |s.dir| && Live(s.dir[e]) && m < MaxSectors(s.dir[e]) && s.dir[e][m] as int < |s.data|
    ensures var x := s.dir[e][m] as int;
            s.usedSectors[x] && OwnerKnown(b, x) && PlaceOf(b, b.sectorOwner[x]) == Place(e, m)
  {
    hide Sectors, CountFree, NamesOk, PlaceIn;
    assert OwnsEntry(b, e);
    var o := b.entryOwner[e];
    var f := b.files[o.head];
    assert PartOk(s.dir, f, o.index);
    PlaceInUnique(f, o.index, m);
    var x := s.dir[e][m] as int;
    assert b.sectorOwner[x] == Owned(o.head, |Sectors(f[..o.index])| + m);
  }

  lemma PlacesExist(s: State, b: Books) returns (places: seq<Place>)
    requires Inv(s, b)
    ensures PlacesOk(s, places)
  {
    hide Sectors, CountFree, FilesOk, EntriesOk, NamesOk, PlaceOf, LiesAt;
    forall x: nat | x < |s.data| ensures OwnerKnown(b, x) {
      OwnersInside(s, b, x);
    }
    places := seq(|s.data|, x requires 0 <= x < |s.data| => PlaceOf(b, b.sectorOwner[x]));
    forall e: nat, m: nat | e < |s.dir| && Live(s.dir[e]) && m < MaxSectors(s.dir[e]) && s.dir[e][m] as int < |s.data|
      ensures s.usedSectors[s.dir[e][m]] && places[s.dir[e][m]] == Place(e, m)
    {
      SlotIsPlace(s, b, e, m);
    }
    forall x: nat | x < |s.data| && s.usedSectors[x] ensures LiesAt(s, places[x], x) {
      PlaceIsThere(s, b, x);
    }
  }

  // ---- The scan -------------------------------------------------------------------------

  /** The bitmap when the scan stands at a slot. */
  function Scanned(used: seq<bool>, places: seq<Place>, entry: nat, slot: nat): (r: seq<bool>)
    requires |places| == |used|
    ensures |r| == |used|
  {
    seq(|used|, x requires 0 <= x < |used| => used[x] && PlaceBefore(places[x], entry, slot))
  }

  function LiveBefore(dir: seq<Entry>, i: nat): (r: seq<bool>)
    ensures |r| == |dir|
  {
    seq(|dir|, k requires 0 <= k < |dir| => k < i && Live(dir[k]))
  }

  /** The state t of a scan of s that stands at a slot of entry i. */
  ghost predicate Scanning(s: State, places: seq<Place>, t: State, i: nat, j: nat) {
    && s.Sized() && t.Sized() && PlacesOk(s, places) && t.dir == s.dir && t.data == s.data
    && t.usedSectors == Scanned(s.usedSectors, places, i, j)
    && t.free as int == CountFree(t.usedSectors)
  }

  lemma {:induction false} SlotsMarked(s: State, places: seq<Place>, t: State, i: nat, j: nat)
    requires i < |s.dir| && Live(s.dir[i]) && j <= MaxSectors(s.dir[i]) && Scanning(s, places, t, i, j)
    ensures Scanning(s, places, MarkSlots(t, s.dir[i], j), i + 1, 0)
    decreases MaxSectors(s.dir[i]) - j
  {
    hide CountFree, Scanning;
    ScanSizes(s, places, t, i, j);
    if j == MaxSectors(s.dir[i]) {
      EntryScanned(s, places, t, i, j);
    } else {
      var u := if s.dir[i][j] as int >= |t.data| then t else MarkSector(t, s.dir[i][j] as int, true);
      SlotMarked(s, places, t, i, j);
      SlotsMarked(s, places, u, i, j + 1);
    }
  }

  lemma ScanSizes(s: State, places: seq<Place>, t: State, i: nat, j: nat)
    requires Scanning(s, places, t, i, j)
    ensures t.Sized() && s.Sized() && t.data == s.data && t.dir == s.dir
  {}

  /** mark_sector for one slot; the sector was not marked yet, as the assertion in mark_sector wants. */
  lemma SlotMarked(s: State, places: seq<Place>, t: State, i: nat, j: nat)
    requires i < |s.dir| && Live(s.dir[i]) && j < MaxSectors(s.dir[i]) && Scanning(s, places, t, i, j)
    ensures var x := s.dir[i][j] as int;
            if x >= |t.data| then Scanning(s, places, t, i, j + 1)
            else !t.usedSectors[x] && Scanning(s, places, MarkSector(t, x, true), i, j + 1)
  {
    hide CountFree, Live;
    var x := s.dir[i][j] as int;
    forall y | 0 <= y < |s.data| && s.usedSectors[y] && y != x
      ensures PlaceBefore(places[y], i, j + 1) == PlaceBefore(places[y], i, j)
    {
      assert LiesAt(s, places[y], y);
    }
    if x < |t.data| {
      assert places[x] == Place(i, j);
      CountFreeUpdate(t.usedSectors, x, true);
      CountFreeBound(t.usedSectors);
      CountFreeBound(t.usedSectors[x := true]);
      assert Scanned(s.usedSectors, places, i, j + 1) == t.usedSectors[x := true];
    } else {
      assert Scanned(s.usedSectors, places, i, j + 1) == t.usedSectors;
    }
  }

  /** Behind the last slot of an entry, or at a deleted entry, the scan moves to the next one. */
  lemma EntryScanned(s: State, places: seq<Place>, t: State, i: nat, j: nat)
    requires i < |s.dir| && Scanning(s, places, t, i, j)
    requires if Live(s.dir[i]) then j == MaxSectors(s.dir[i]) else j == 0
    ensures Scanning(s, places, t, i + 1, 0)
  {
    hide CountFree, MaxSectors, Live;
    forall y | 0 <= y < |s.data| && s.usedSectors[y]
      ensures PlaceBefore(places[y], i + 1, 0) == PlaceBefore(places[y], i, j)
    {
      assert LiesAt(s, places[y], y);
    }
    assert Scanned(s.usedSectors, places, i + 1, 0) == t.usedSectors;
  }

  lemma {:induction false} ScanRebuilds(s: State, places: seq<Place>, t: State, i: nat)
    requires i <= |s.dir| && Scanning(s, places, t, i, 0) && t.usedEntries == LiveBefore(s.dir, i)
    ensures t.Sized()
    ensures var r := InitFrom(t, i); Scanning(s, places, r, |s.dir|, 0) && r.usedEntries == LiveBefore(s.dir, |s.dir|)
    decreases |s.dir| - i
  {
    hide CountFree, Scanning, Live, MaxSectors;
    ScanSizes(s, places, t, i, 0);
    if i < |s.dir| {
      if !Live(s.dir[i]) {
        EntryScanned(s, places, t, i, 0);
        assert LiveBefore(s.dir, i + 1) == LiveBefore(s.dir, i);
        ScanRebuilds(s, places, t, i + 1);
      } else {
        var u := t.(usedEntries := t.usedEntries[i := true]);
        assert LiveBefore(s.dir, i + 1) == u.usedEntries;
        SameScan(s, places, t, u, i, 0);
        SlotsMarked(s, places, u, i, 0);
        ScanRebuilds(s, places, MarkSlots(u, s.dir[i], 0), i + 1);
      }
    }
  }

  lemma SameScan(s: State, places: seq<Place>, t: State, u: State, i: nat, j: nat)
    requires Scanning(s, places, t, i, j) && u == t.(usedEntries := u.usedEntries) && |u.usedEntries| == |t.usedEntries|
    ensures Scanning(s, places, u, i, j)
  {}

  lemma ScanStarts(s: State, places: seq<Place>)
    requires s.Sized() && PlacesOk(s, places)
    ensures Scanning(s, places, State(s.dir, s.data, seq(|s.data|, _ => false), seq(|s.dir|, _ => false), |s.data|), 0, 0)
    ensures seq(|s.dir|, _ => false) == LiveBefore(s.dir, 0)
  {
    assert Scanned(s.usedSectors, places, 0, 0) == seq(|s.data|, _ => false);
    AllFree(|s.data|);
  }

  lemma {:induction false} AllFree(n: nat)
    ensures CountFree(seq(n, _ => false)) == n
  {
    if n > 0 {
      AllFree(n - 1);
      assert seq(n, _ => false)[..n - 1] == seq(n - 1, _ => false);
    }
  }

  /** eepromfs_init rebuilds from the directory exactly the sector bitmap and the sector counter that the
      running system has. The bitmap of used entries it rebuilds has exactly the live ones, which the
      running system has too. */
  lemma MountRebuilds(s: State, b: Books)
    requires Inv(s, b)
    ensures var r := Init(s.dir, s.data);
            && r.usedSectors == s.usedSectors && r.free == s.free && Inv(r, b)
            && (forall i :: 0 <= i < |s.dir| ==> (r.usedEntries[i] <==> Live(s.dir[i])) && (r.usedEntries[i] ==> s.usedEntries[i]))
  {
    hide CountFree, Sectors, InitFrom, Live, MaxSectors, PlacesOk, Scanning, FilesOk, NamesOk;
    var places := PlacesExist(s, b);
    ScanStarts(s, places);
    ScanRebuilds(s, places, State(s.dir, s.data, seq(|s.data|, _ => false), seq(|s.dir|, _ => false), |s.data|), 0);
    var r := Init(s.dir, s.data);
    ScanDone(s, places, r);
    EntriesRemarked(s, b, r);
    SectorBooks(s, b, r);
    FilesOnly(s, b, r);
  }

  lemma ScanDone(s: State, places: seq<Place>, r: State)
    requires Scanning(s, places, r, |s.dir|, 0)
    ensures r.usedSectors == s.usedSectors && r.free as int == CountFree(s.usedSectors)
  {
    forall x | 0 <= x < |s.data| && s.usedSectors[x] ensures PlaceBefore(places[x], |s.dir|, 0) {
      assert LiesAt(s, places[x], x);
    }
    assert Scanned(s.usedSectors, places, |s.dir|, 0) == s.usedSectors;
  }

  lemma EntriesRemarked(s: State, b: Books, r: State)
    requires s.Sized() && EntriesOk(s, b) && r.Sized() && r.dir == s.dir && r.usedEntries == LiveBefore(s.dir, |s.dir|)
    ensures EntriesOk(r, b)
  {
    hide Live;
    forall i | 0 <= i < |r.dir| && b.entryOwner[i].Owned? ensures OwnsEntry(b, i) {
    }
  }

  lemma SectorBooks(s: State, b: Books, r: State)
    requires SectorsOk(s, b) && |r.data| == |s.data| && r.usedSectors == s.usedSectors
    ensures SectorsOk(r, b)
  {
    hide Sectors;
  }

  lemma FilesOnly(s: State, b: Books, r: State)
    requires FilesOk(s, b) && NamesOk(s, b) && r.dir == s.dir
    ensures FilesOk(r, b) && NamesOk(r, b)
  {
    hide Sectors, FileOk;
  }

  // ---- Entries of deleted files -------------------------------------------------------------

  /** After a deletion the running system still has the file's entries marked as used; mounting again
      would have them free. Nothing else differs. */
  lemma DeletedEntriesStayMarked(s: State, b: Books, name: Name)
    requires Inv(s, b) && Delete(s, name).error == Ok
    requires forall i :: 0 <= i < |s.dir| ==> (s.usedEntries[i] <==> Live(s.dir[i]))
    ensures var t, h := Delete(s, name).s, Find(s.dir, name); var r := Init(t.dir, t.data);
            && r == t.(usedEntries := r.usedEntries) && |b.entryOwner| == |t.usedEntries| == |s.dir| == |r.usedEntries|
            && forall i :: 0 <= i < |s.dir| ==>
                 (t.usedEntries[i] != r.usedEntries[i] <==> b.entryOwner[i].Owned? && b.entryOwner[i].head == h)
  {
    hide CountFree, Sectors, Find, DeleteChain, InitFrom, RemoveFile, FilesOk, NamesOk, SectorsOk, MaxSectors;
    DeleteKeeps(s, b, name);
    var t, h := Delete(s, name).s, Find(s.dir, name);
    MountRebuilds(t, RemoveFile(b, h));
    assert !Live(Erased());
  }

  /** So a full directory stays full: after deleting any file no new one can be created, until the next
      mount, after which one can. */
  lemma FullDirectoryStaysFull(s: State, b: Books, name: Name, other: Name)
    requires Inv(s, b) && Delete(s, name).error == Ok && forall i :: 0 <= i < |s.dir| ==> s.usedEntries[i]
    requires Find(s.dir, other) == NONE
    ensures var t := Delete(s, name).s; var r := Init(t.dir, t.data);
            Create(t, other).error == DirFull && Create(r, other).error == Ok
  {
    hide CountFree, Sectors, Find, DeleteChain, InitFrom, RemoveFile, FilesOk, NamesOk, SectorsOk, MaxSectors, Live, NextFree, EntriesOk;
    DeleteKeeps(s, b, name);
    var t, h := Delete(s, name).s, Find(s.dir, name);
    MountRebuilds(t, RemoveFile(b, h));
    var r := Init(t.dir, t.data);
    StillMissing(s, b, h, t, other);
    NextFreeFrom(t.usedEntries, 0);
    NextFreeFrom(r.usedEntries, 0);
    HeadErased(s, b, h, t);
  }

  lemma HeadErased(s: State, b: Books, h: byte, t: State)
    requires Inv(s, b) && h in b.files && Gone(s, b, h, t)
    ensures h as int < |t.dir| && !Live(t.dir[h])
  {
    hide CountFree, Sectors, SectorsOk, NamesOk;
    FirstEntry(s, b, h);
    assert b.entryOwner[h] == Owned(h, 0);
  }

  lemma StillMissing(s: State, b: Books, h: byte, t: State, other: Name)
    requires s.Sized() && t.Sized() && Gone(s, b, h, t) && Find(s.dir, other) == NONE
    ensures Find(t.dir, other) == NONE
  {
    FindFromSpec(s.dir, other, 0);
    FindFromSpec(t.dir, other, 0);
    assert !Live(Erased());
  }

  // ---- Formatting --------------------------------------------------------------------------------

  /** The books of an empty file system. */
  function NoFiles(entries: nat, sectors: nat): Books {
    Books(map[], seq(sectors, _ => Nobody), seq(entries, _ => Nobody))
  }

  /** eepromfs_format leaves a file system without files, with every sector and every entry free. */
  lemma FormatEmpties(entries: nat, sectors: nat)
    requires 1 <= entries <= 255 && 1 <= sectors <= 255
    ensures var s := Format(entries, sectors);
            && Inv(s, NoFiles(entries, sectors)) && s.free as int == sectors && |s.dir| == entries && |s.data| == sectors
            && (forall k :: 0 <= k < |s.usedSectors| ==> !s.usedSectors[k])
            && (forall i :: 0 <= i < |s.usedEntries| ==> !s.usedEntries[i])
  {
    hide CountFree, InitFrom;
    var s0 := State(seq(entries, _ => Erased()), seq(sectors, _ => seq(64, _ => 255)),
                    seq(sectors, _ => false), seq(entries, _ => false), sectors);
    AllFree(sectors);
    assert Inv(s0, NoFiles(entries, sectors));
    MountRebuilds(s0, NoFiles(entries, sectors));
  }
}
