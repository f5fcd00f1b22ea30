/** Creating, closing, renaming and deleting files of the EEPROM file system, and what mounting
    rebuilds (src/eeprom-fs.c). */
module EefsFiles {
  import opened Bits
  import opened EefsModel
  import opened EefsInvariant
  import opened EefsWrite
  import Counting

  // ---- Looking up names --------------------------------------------------------------

  predicate Named(e: Entry, name: Name) {
    Live(e) && !IsList(e) && NameOf(e) == name
  }

  lemma {:induction false} FindFromSpec(dir: seq<Entry>, name: Name, i: nat)
    requires i <= |dir| <= 255
    ensures var r := FindFrom(dir, name, i);
            if r as int < |dir| then i <= r as int && Named(dir[r], name) && forall j :: i <= j < r ==> !Named(dir[j], name)
            else r == NONE && forall j :: i <= j < |dir| ==> !Named(dir[j], name)
    decreases |dir| - i
  {
    if i < |dir| {
      FindFromSpec(dir, name, i + 1);
    }
  }

  /** A name is found exactly when a file has it, and then at that file's first entry. */
  lemma FindSpec(s: State, b: Books, name: Name)
    requires Inv(s, b)
    ensures var r := Find(s.dir, name);
            && (r as int < |s.dir| <==> r != NONE) && (r != NONE ==> r in b.files && NameOf(s.dir[r]) == name)
            && forall h :: h in b.files && h as int < |s.dir| && NameOf(s.dir[h]) == name ==> r == h
  {
    hide Sectors, CountFree, FindFrom;
    FindFromSpec(s.dir, name, 0);
    var r := Find(s.dir, name);
    if r != NONE {
      var o := b.entryOwner[r];
      assert OwnsEntry(b, r as int);
      assert PartOk(s.dir, b.files[o.head], o.index);
    }
    forall h | h in b.files && h as int < |s.dir| && NameOf(s.dir[h]) == name ensures r == h {
      assert PartOk(s.dir, b.files[h], 0);
    }
  }

  // ---- Creating -------------------------------------------------------------------------

  /** The books with a new, empty file at entry e. */
  function AddFile(b: Books, e: byte): Books
    requires e as int < |b.entryOwner|
  {
    Books(b.files[e := [Part(e, [])]], b.sectorOwner, b.entryOwner[e := Owned(e, 0)])
  }

  lemma FreshFile(dir: seq<Entry>, e: byte, name: Name)
    requires e as int < |dir|
    ensures FileOk(dir[e := FreshName(name)], e, [Part(e, [])]) && Sectors([Part(e, [])]) == []
    ensures SizeOf(FreshName(name)) == 0 && NameOf(FreshName(name)) == name && Live(FreshName(name))
  {
    var f := [Part(e, [])];
    assert f[..0] == [];
    var entry := FreshName(name);
    assert entry[NAME..SIZE] == name;
    assert Holds(entry, []);
    assert PartOk(dir[e := entry], f, 0);
  }

  /** eepromfs_open for writing keeps the invariant, adds an empty file and changes no other. */
  lemma CreateKeeps(s: State, b: Books, name: Name) returns (c: Books)
    requires Inv(s, b)
    ensures |b.entryOwner| == |s.dir|
    ensures var o := Create(s, name); var e := o.fh.entry;
            && (o.error == Ok ==>
                  && e as int < |s.dir| && e !in b.files && !s.usedEntries[e] && Inv(o.s, c) && c == AddFile(b, e)
                  && AtEnd(c, o.fh) && o.fh.size == 0 && SizeOf(o.s.dir[e]) == 0 && NameOf(o.s.dir[e]) == name && HasContents(o.s, c, e, 0, [])
                  && o.s.data == s.data && o.s.usedSectors == s.usedSectors && SameHeads(s, o.s, b))
            && (o.error != Ok ==> o.s == s && c == b)
            && (o.error == FileExists <==> exists h :: h in b.files && h as int < |s.dir| && NameOf(s.dir[h]) == name)
            && (o.error == DirFull ==> forall i :: 0 <= i < |s.usedEntries| ==> s.usedEntries[i])
            && (o.error == Ok || o.error == FileExists || o.error == DirFull)
  {
    hide Sectors, CountFree, Find, NextFree, FilesOk, SectorsOk, EntriesOk, NamesOk, FreshName;
    FindSpec(s, b, name);
    FoundIsInside(s, b, Find(s.dir, name));
    NextFreeFrom(s.usedEntries, 0);
    EntryCount(s, b);
    c := b;
    if Find(s.dir, name) == NONE {
      var e := NextFree(s.usedEntries, 0, 0);
      if e as int < |s.dir| {
        var t := s.(dir := s.dir[e := FreshName(name)], usedEntries := s.usedEntries[e := true]);
        c := AddFile(b, e);
        FreshFile(s.dir, e, name);
        CreateBooks(s, b, t, c, e, name);
      }
    }
  }

  lemma EntryCount(s: State, b: Books)
    requires EntriesOk(s, b)
    ensures |b.entryOwner| == |s.dir|
  {}

  lemma FoundIsInside(s: State, b: Books, r: byte)
    requires Inv(s, b)
    ensures r in b.files ==> r as int < |s.dir|
  {
    hide Sectors, CountFree;
    if r in b.files {
      assert PartOk(s.dir, b.files[r], 0);
    }
  }

  lemma CreateBooks(s: State, b: Books, t: State, c: Books, e: byte, name: Name)
    requires Inv(s, b) && e as int < |s.dir| && !s.usedEntries[e] && c == AddFile(b, e)
    requires t == s.(dir := s.dir[e := FreshName(name)], usedEntries := s.usedEntries[e := true])
    requires forall h :: h in b.files && h as int < |s.dir| ==> NameOf(s.dir[h]) != name
    ensures e !in b.files && Inv(t, c) && SameHeads(s, t, b)
    ensures HasContents(t, c, e, 0, []) && Sectors(c.files[e]) == []
  {
    hide Sectors, CountFree, FreshName;
    FreshFile(s.dir, e, name);
    UnusedEntry(s, b, e);
    forall h | h in b.files ensures h != e {
      assert PartOk(s.dir, b.files[h], 0);
    }
    CreateFiles(s, b, t, c, e, name);
    CreateEntries(s, b, t, c, e, name);
    CreateSectors(s, b, t, c, e);
  }

  lemma CreateFiles(s: State, b: Books, t: State, c: Books, e: byte, name: Name)
    requires Inv(s, b) && e as int < |s.dir| && !s.usedEntries[e] && c == AddFile(b, e) && e !in b.files
    requires t == s.(dir := s.dir[e := FreshName(name)], usedEntries := s.usedEntries[e := true])
    ensures FilesOk(t, c) && SameHeads(s, t, b)
  {
    hide Sectors, CountFree, FreshName;
    FreshFile(s.dir, e, name);
    UnusedEntry(s, b, e);
    forall h | h in b.files ensures FileOk(t.dir, h, b.files[h]) && t.dir[h] == s.dir[h] {
      var f := b.files[h];
      forall k | 0 <= k < |f| ensures PartOk(t.dir, f, k) {
        assert PartOk(s.dir, f, k);
        assert f[k].entry != e;
      }
      assert PartOk(s.dir, f, 0);
    }
  }

  lemma CreateEntries(s: State, b: Books, t: State, c: Books, e: byte, name: Name)
    requires Inv(s, b) && e as int < |s.dir| && !s.usedEntries[e] && c == AddFile(b, e) && e !in b.files
    requires t == s.(dir := s.dir[e := FreshName(name)], usedEntries := s.usedEntries[e := true])
    ensures EntriesOk(t, c)
  {
    hide Sectors, CountFree, FreshName, FilesOk;
    FreshFile(s.dir, e, name);
    UnusedEntry(s, b, e);
    forall i | 0 <= i < |t.dir| && c.entryOwner[i].Owned? ensures OwnsEntry(c, i) {
      if i != e as int {
        assert OwnsEntry(b, i);
      }
    }
  }

  lemma CreateSectors(s: State, b: Books, t: State, c: Books, e: byte)
    requires SectorsOk(s, b) && e as int < |b.entryOwner| && c == AddFile(b, e) && e !in b.files && Sectors([Part(e, [])]) == []
    requires t.data == s.data && t.usedSectors == s.usedSectors
    ensures SectorsOk(t, c)
  {
    hide Sectors;
    forall i | 0 <= i < |t.data| && c.sectorOwner[i].Owned? ensures OwnsSector(c, i) {
      assert OwnsSector(b, i);
    }
  }

  // ---- Closing and renaming ---------------------------------------------------------------

  lemma {:induction false} DistinctIsShort(ss: seq<byte>, owner: seq<Own>, h: byte)
    requires forall j :: 0 <= j < |ss| ==> ss[j] as int < |owner| && owner[ss[j]] == Owned(h, j)
    ensures |ss| <= |owner|
  {
    var taken := set j | 0 <= j < |ss| :: ss[j] as nat;
    ElementsDistinct(ss, owner, h);
    Counting.Below(taken, |owner|);
  }

  lemma {:induction false} ElementsDistinct(ss: seq<byte>, owner: seq<Own>, h: byte)
    requires forall j :: 0 <= j < |ss| ==> ss[j] as int < |owner| && owner[ss[j]] == Owned(h, j)
    ensures |set j | 0 <= j < |ss| :: ss[j] as nat| == |ss|
  {
    if ss != [] {
      var n := |ss| - 1;
      var rest := set j | 0 <= j < n :: ss[..n][j] as nat;
      ElementsDistinct(ss[..n], owner, h);
      assert (set j | 0 <= j < |ss| :: ss[j] as nat) == rest + {ss[n] as nat};
    }
  }

  /** A file has no more sectors than there are, so its size fits 16 bits. */
  lemma SizeFits(s: State, b: Books, h: byte)
    requires Inv(s, b) && h in b.files
    ensures |Sectors(b.files[h])| <= |s.data|
    ensures SECTOR_SIZE * |Sectors(b.files[h])| < 65536
  {
    hide Sectors, CountFree, FilesOk, EntriesOk, NamesOk;
    DistinctIsShort(Sectors(b.files[h]), b.sectorOwner, h);
  }

  /** A first entry may change in name and size: the rest of the file system stays as it is. */
  lemma HeadChanged(s: State, b: Books, h: byte, e: Entry)
    requires Inv(s, b) && h in b.files && h as int < |s.dir|
    requires e[..NAME] == s.dir[h][..NAME] && e[FLAGS] == s.dir[h][FLAGS] && e[NEXT] == s.dir[h][NEXT]
    requires SizeOf(e) <= SECTOR_SIZE * |Sectors(b.files[h])|
    requires forall x :: x in b.files && x != h && x as int < |s.dir| ==> NameOf(s.dir[x]) != NameOf(e)
    ensures Inv(s.(dir := s.dir[h := e]), b)
  {
    hide Sectors, CountFree;
    var t := s.(dir := s.dir[h := e]);
    HeadChangedFiles(s, b, h, e);
    EntriesUnchanged(s, b, t, b);
  }

  lemma HeadChangedFiles(s: State, b: Books, h: byte, e: Entry)
    requires s.Sized() && FilesOk(s, b) && EntriesOk(s, b) && h in b.files && h as int < |s.dir|
    requires e[..NAME] == s.dir[h][..NAME] && e[FLAGS] == s.dir[h][FLAGS] && e[NEXT] == s.dir[h][NEXT]
    requires SizeOf(e) <= SECTOR_SIZE * |Sectors(b.files[h])|
    ensures FilesOk(s.(dir := s.dir[h := e]), b)
  {
    hide Sectors, SizeOf, Holds;
    var dir := s.dir[h := e];
    var f := b.files[h];
    assert PartOk(s.dir, f, 0);
    HoldsFirst(s.dir[h], e, f[0].sectors);
    forall k | 0 <= k < |f| ensures PartOk(dir, f, k) {
      assert PartOk(s.dir, f, k);
      assert b.entryOwner[f[k].entry] == Owned(h, k) && b.entryOwner[f[0].entry] == Owned(h, 0);
    }
    forall x | x in b.files && x != h ensures FileOk(dir, x, b.files[x]) && dir[x] == s.dir[x] {
      assert b.entryOwner[f[0].entry] == Owned(h, 0);
      OtherFiles(s, b, dir, h, x);
    }
  }

  lemma HoldsFirst(d: Entry, e: Entry, sectors: seq<byte>)
    requires Holds(d, sectors) && !IsList(d) && e[..NAME] == d[..NAME] && e[FLAGS] == d[FLAGS]
    ensures Holds(e, sectors)
  {
    forall i | 0 <= i < 12 ensures e[i] == d[i] {
      assert e[..NAME][i] == d[..NAME][i];
    }
  }

  /** The other files: same entries, sectors, names and sizes. */
  ghost predicate OnlyHead(s: State, t: State, h: byte) {
    && h as int < |s.dir| && |t.dir| == |s.dir| && t == s.(dir := t.dir)
    && forall i :: 0 <= i < |s.dir| && i != h as int ==> t.dir[i] == s.dir[i]
  }

  /** eepromfs_close records the size, and changes nothing else. */
  lemma CloseKeeps(s: State, b: Books, fh: Handle)
    requires Inv(s, b) && fh.entry in b.files && fh.entry as int < |s.dir| && fh.mode == WriteMode
    requires fh.size <= SECTOR_SIZE * |Sectors(b.files[fh.entry])|
    ensures var t := Close(s, fh);
            && Inv(t, b) && OnlyHead(s, t, fh.entry)
            && SizeOf(t.dir[fh.entry]) == fh.size && NameOf(t.dir[fh.entry]) == NameOf(s.dir[fh.entry])
  {
    hide Inv, Sectors;
    var e := s.dir[fh.entry];
    SizeFits(s, b, fh.entry);
    SizeRecorded(e, fh.size);
    OtherNames(s, b, fh.entry);
    HeadChanged(s, b, fh.entry, WithSize(e, fh.size));
  }

  lemma OtherNames(s: State, b: Books, h: byte)
    requires Inv(s, b) && h in b.files && h as int < |s.dir|
    ensures forall x :: x in b.files && x != h && x as int < |s.dir| ==> NameOf(s.dir[x]) != NameOf(s.dir[h])
  {
    hide Sectors, CountFree, FilesOk, SectorsOk, EntriesOk;
  }

  lemma SizeRecorded(e: Entry, size: nat)
    requires size < 65536
    ensures var w := WithSize(e, size);
            w[..NAME] == e[..NAME] && w[FLAGS] == e[FLAGS] && w[NEXT] == e[NEXT] && SizeOf(w) == size && NameOf(w) == NameOf(e)
  {
    var w := WithSize(e, size);
    assert w[SIZE] as nat == size % 256 && w[SIZE + 1] as nat == size / 256;
    assert w[..NAME] == e[..NAME];
    assert w[NAME..SIZE] == e[NAME..SIZE];
  }

  lemma NameRecorded(e: Entry, name: Name)
    ensures var w := WithName(e, name);
            w[..NAME] == e[..NAME] && w[FLAGS] == e[FLAGS] && w[NEXT] == e[NEXT] && SizeOf(w) == SizeOf(e) && NameOf(w) == name
  {}

  /** eepromfs_rename succeeds exactly when a file has the old name and none the new one; it then
      changes that file's name and nothing else. */
  lemma RenameKeeps(s: State, b: Books, from: Name, to: Name)
    requires Inv(s, b)
    ensures var r := Rename(s, from, to); var h := Find(s.dir, from);
            && (r.error == FileExists <==> Find(s.dir, to) != NONE)
            && (r.error == Ok <==> Find(s.dir, to) == NONE && h != NONE)
            && (r.error == Ok || r.error == FileExists || r.error == FileNotFound)
            && (r.error == Ok ==>
                  && h in b.files && OnlyHead(s, r.s, h) && Inv(r.s, b)
                  && NameOf(r.s.dir[h]) == to && NameOf(s.dir[h]) == from && SizeOf(r.s.dir[h]) == SizeOf(s.dir[h]))
            && (r.error != Ok ==> r.s == s)
  {
    hide Inv, Sectors, Find, WithName;
    Inside(s, b);
    FindSpec(s, b, to);
    FindSpec(s, b, from);
    var h := Find(s.dir, from);
    if Find(s.dir, to) == NONE && h != NONE {
      FoundIsInside(s, b, h);
      NameRecorded(s.dir[h], to);
      FileSize(s, b, h);
      HeadChanged(s, b, h, WithName(s.dir[h], to));
    }
  }

  lemma Inside(s: State, b: Books)
    requires Inv(s, b)
    ensures s.Sized()
  {}

  lemma FileSize(s: State, b: Books, h: byte)
    requires Inv(s, b) && h in b.files && h as int < |s.dir|
    ensures SizeOf(s.dir[h]) <= SECTOR_SIZE * |Sectors(b.files[h])|
  {
    hide Sectors, CountFree, SectorsOk, EntriesOk;
  }
}
