# sd2iec: allocation, chaining and caching, proved in Dafny

sd2iec emulates a Commodore disk drive. This project models the parts of its firmware that keep state over
byte arrays and proves what they promise, for all inputs and all runs:

- **Dxx images** (D64, D71, D81, D80, D82, DNP): the sector numbering, the block availability map (BAM) with its
  counters and bitfields, the two write-back BAM buffers, the search for the first and the next sector of a file,
  writing, appending, reading and deleting files, free-space accounting, and the cached error info.
- **The EEPROM file system**: directory entries, sector lists, the bitmaps kept in RAM, mounting, and every file
  operation, from the bytes of the EEPROM up to whole runs compared with a map from names to contents.
- **File names on FAT media** in extension mode 5, the **copy** command, the **day of the week** of T-WI, the sector
  walks of the **Bitfire** and **Sparkle** loaders, and the **buffer pool** with direct-access buffers of any size.

`dafny verify dfyconfig.toml` checks everything.

## Layout

| file | contents |
|---|---|
| `Bits.dfy`, `Counting.dfy` | bytes, single bits, bitmaps, bit counting, finite sets of numbers |
| `BusBuffer.dfy` | a byte arriving in a buffer, and the bytes of a buffer being sent |
| `Geometry.dfy` | `sector_lba`, sectors per track, recognising an image by its size |
| `BamLayout.dfy`, `Bam.dfy`, `FreeSpace.dfy` | where the BAM keeps a track, allocating and freeing, free blocks |
| `BamCache.dfy` | the two BAM buffers as classes; the view is the images overlaid with the modified buffers |
| `SectorSearch.dfy` | first and next sector |
| `DxxChain.dfy`, `DxxRoom.dfy`, `DxxFile.dfy`, `DxxSession.dfy` | sector chains, how much room the searches find, the write path as a class, whole sessions |
| `DxxSteps.dfy`, `DxxCached.dfy` | the operations on the image that sessions are made of, and sessions through the BAM buffers |
| `EefsModel.dfy` | the EEPROM file system as functions on its state |
| `EefsInvariant.dfy`, `EefsWrite.dfy`, `EefsFiles.dfy`, `EefsDelete.dfy`, `EefsMount.dfy`, `EefsRead.dfy` | the invariant, and what each operation does to it and to the contents of files |
| `EefsDangling.dfy`, `EefsRuns.dfy`, `EefsSafety.dfy` | handles whose file was erased, whole runs, and exactly which runs keep the invariant |
| `EefsAppend.dfy`, `EefsChannel.dfy` | appending, files byte by byte through a channel |
| `EefsDevice.dfy` | the file system in place: memory, packed bitmaps and one entry buffer as arrays |
| `NameCodec.dfy`, `CopyLoop.dfy`, `Calendar.dfy` | names, copying, dates |
| `Bitfire.dfy`, `Sparkle.dfy`, `ErrorInfo.dfy` | loaders, error info |
| `Buffers.dfy`, `DirectRuns.dfy` | the buffer pool, direct-access buffers, and whole runs on one of them |

Code that computes a value is a function. Code that changes state is a method of a class, or a method with the
source's loops, whose postconditions tie the new state to such a function. Eight-bit and sixteen-bit arithmetic is
written out wherever a variable of the source can wrap around.

## What the source does not do

The proofs turned up places where the code does less than one would expect. Each is stated in the model exactly.

- Appending to an EEPROM file does not restore the index of the current sector (src/eeprom-fs.c:439-459). The
  appended data can be read back if and only if it fits into the last sector or the last directory entry lists one
  sector; otherwise an assertion of `eepromfs_read` fails (`EefsAppend.AppendReadableIff`, with an example in
  `EefsAppend.AppendCounterexample`). Nothing appended to an empty file can be read back at all
  (`EefsAppend.EmptyAppendBreaks`); the search for its first sector starts behind the bitmap, and never ends when that
  bit is set and no sector is free (`EefsAppend.SearchFromBehindEnds`).
- `eepromfs_delete` never clears the bitmap of used entries (src/eeprom-fs.c:671-702). A directory that was full
  stays full until the next mount (`EefsMount.FullDirectoryStaysFull`).
- An empty EEPROM file is sent as one stray byte (`EefsChannel.TalkNamed`).
- Neither scratching a file nor formatting closes the channels that write to it (src/doscmd.c:1642-1667, 2047-2088).
  Such a channel goes on with an erased entry: it takes sectors that no file owns and that the next mount finds free
  (`EefsSafety.WrittenAfterErasing`, for a run of three commands), or stores in sectors that other files were given.
  A run keeps the invariant if and only if every write takes no sector or takes it at the end of a chain, and every
  size goes to an erased entry, to a first entry with enough sectors, or to a list entry without changing which sectors
  it lists (`EefsSafety.RunSoundIff`); through an erased entry it must take none (`EefsDangling.ErasedSafeIff`). The
  data of other files stays as it is if and only if the current sector is in no file or held the same bytes
  (`EefsSafety.SameDataIff`).
- `petscii_to_fat` can cut off names of 16 bytes. Before every byte it checks for the space that the byte takes with all
  braces it could need, 4 bytes in hexadecimal and 2 otherwise. A name comes back if and only if its last byte passes
  that check (`NameCodec.RoundTripIff`). Some encodings are longer than the limit of 40 in any case: the one of
  `NameCodec.NameCutOff` takes 41 bytes. Names of 15 bytes always come back.
- The check for reserved names looks at the name before trailing shifted spaces are dropped, so "CON" followed by a
  shifted space becomes the reserved name CON (`NameCodec.ReservedEscapedIff`).
- README:372-376 of the repository promises that a trailing shifted space is encoded and that the encoding is
  transparent. The code drops trailing shifted spaces (src/fatops.c:130-135); it is transparent exactly for names
  without them whose last byte fits (`NameCodec.TransparentIff`).
- On a full D82 image `get_first_sector` never ends, because its signed 8-bit distance never reaches the number of
  tracks (`SectorSearch.DoubleSidedSearchNeverEnds`). On a DNP image the search for a next sector ends if and only if
  it does not start on the last track, or that is the only one, or some track has a free sector
  (`SectorSearch.NextNativeTrackWithSpace` and `SectorSearch.NativeSearchNeverEnds`); the search for a first sector
  never ends on a full image of two tracks (`SectorSearch.FirstNativeNeverEnds`). Both DNP searches skip the last track.
- The countdown of `get_next_sector` wraps from 0 to 255, so the loop always reports success; the sector is free
  exactly when the track has a free one (`SectorSearch.NextFreeOnTrack`).
- A file in an image whose last sector holds no byte, as copying an empty file leaves it (src/doscmd.c:1107-1108), is
  sent with one stray byte (`DxxSession.Load`).
- When a DNP image fills up, writing reports no error (`DxxSession.Save`).
- Not every free sector is room for a file: track 53 of a D71 is used only by a file that starts there, which needs all
  tracks below it to be full, and the last track of a DNP image only if there are at most two
  (`DxxRoom.SaveRoomTaken`). A save succeeds if and only if that room is enough (`DxxSession.Save`).
- The extra tracks of a D41 image have no BAM entry; deleting a file on them changes the disk label, with one exception
  that depends on the label itself (`Bam.ExtraTrackHitsLabel`).
- Mounting an image with error info throws away modified error info of another image (`ErrorInfo.Cache.Mount`).
- Bitfire's seek adds a length and an offset in 16 bits. It ends where loading ends for this and all earlier files if
  and only if no sum wraps around (`Bitfire.SeekIsSequential`); a wrapped one is 256 sectors short, which is another
  track (`Bitfire.WrapMoves`).
- Sparkle's interleave comes from the disk. It keeps the walk on the track if and only if it is at most the number of
  sectors, or one more on tracks 1 to 17 (`Sparkle.StepFitsIff`).
- B-P clears mustflush only in a large buffer (src/doscmd.c:964-977). In a buffer of one member, "#" as well as "#1",
  that a write has filled to its last byte, bytes written behind B-P are stored from there on if and only if the
  position is the first one; otherwise they go to the first position and on (`Buffers.ComesBackIff`, with an example in
  `DirectRuns.MisplacedByte`).
- Behind a write that ends with the last byte of a member of a large buffer, reading starts again at the first byte of
  that member (`DirectRuns.ReadAgain`). A run of B-P, LISTEN and TALK moves its bytes where a tape with one cursor does
  if and only if neither of these two happens in it (`DirectRuns.AsTapeIff`).

## Model

| member | source | states |
|---|---|---|
| Bits.PutBitAt | src/eeprom-fs.c:96-105 | setting or clearing one bit of a packed bitmap changes that bit and no other |
| Bits.ParallelCountIsPopCount | src/d64ops.c:644-664 | the parallel count of masks and shifts is the number of bits set, for every byte |
| BusBuffer.StoreByte | src/iec.c:356-374 | a byte that arrives is the next one of those held; the last one wraps the position and asks for a flush |
| BusBuffer.SendBuffer | src/iec.c:421-482 | at least the byte at position 2 is sent, and those up to the last one used |
| Geometry.LbaIsPrefixSum | src/d64ops.c:181-224 | the linear sector number is the number of sectors on all tracks before, counted track by track, plus the sector; for all six formats, extra D41 tracks and the second side of a D82 |
| Geometry.LbaInjective | src/d64ops.c:181-224 | different sectors of an image have different linear numbers |
| Geometry.LbaInDataArea | src/d64ops.c:181-224 | every sector of an image lies in its data area |
| Geometry.LbaSurjective | src/d64ops.c:181-224 | every linear number of the data area belongs to a sector |
| Geometry.D41Extra | src/d64ops.c:1384-1420 | an accepted D41 size is a whole number of extra tracks, with or without one error byte for each sector |
| Geometry.MountLayout | src/d64ops.c:1326-1434 | every accepted size is exactly the data area and, with error info, one byte per sector behind it |
| Geometry.SectorPlacement | src/d64ops.c:1326-1434 | every sector and its error byte lie inside an accepted image |
| BamLayout.BamInside | src/d64ops.c:510-564 | every BAM access to a track of the image stays inside a BAM sector the image has |
| BamLayout.BamRangesDisjoint | src/d64ops.c:510-564 | counters and bitfields of all mapped tracks are disjoint bytes and touch no header or label |
| Bam.AllocateBit | src/d64ops.c:690-723 | allocating marks exactly the one sector as used |
| Bam.ReleaseBit | src/d64ops.c:735-768 | freeing marks exactly the one sector as free |
| Bam.AllocateKeepsCounters | src/d64ops.c:690-723 | allocating keeps every counter equal to the number of free bits of its track |
| Bam.ReleaseKeepsCounters | src/d64ops.c:735-768 | freeing keeps every counter equal to the number of free bits of its track |
| Bam.ReleaseUndoesAllocate | src/d64ops.c:690-768 | freeing a sector that was just allocated gives back the same image, byte for byte |
| Bam.BamWritesStayInside | src/d64ops.c:690-768 | allocating and freeing write no header or label byte and no sector outside the BAM |
| Bam.ExtraTrackHitsLabel | src/d64ops.c:735-768 | freeing a sector on an extra D41 track changes the disk label, but for sector 16 of track 42 with its counter byte at the limit |
| BamCache.Cache.constructor | src/d64ops.c:449-460 | a fresh cache shows the images as they are |
| BamCache.Cache.Flush | src/d64ops.c:425-439 | flushing a buffer writes it and changes nothing a reader sees |
| BamCache.Cache.Swap | src/d64ops.c:467-471 | swapping the buffers changes nothing a reader sees |
| BamCache.Cache.AllocateSecond | src/d64ops.c:582-593 | the second buffer is empty and changes nothing a reader sees |
| BamCache.Cache.Load | src/d64ops.c:595-606 | loading another BAM sector writes the old one first; no two buffers hold the same sector |
| BamCache.Cache.Select | src/d64ops.c:566-611 | afterwards the buffer in front holds the requested sector with the data a reader sees, whatever was cached |
| BamCache.Cache.MoveWindow | src/d64ops.c:510-611 | the buffer in front and the offset are those of the track's counter or bitfield, and the view is unchanged |
| BamCache.Cache.Poke | src/d64ops.c:690-768 | storing a byte in the buffer stores it in the view, and in nothing else |
| BamCache.Cache.IsSectorFree | src/d64ops.c:622-634 | the bit of the view, with the view unchanged |
| BamCache.Cache.Toggle | src/d64ops.c:690-768 | bit and counter of one sector change in the view of that image; all other images stay |
| BamCache.Cache.AllocateSector | src/d64ops.c:690-723 | through the cache, the view changes as allocating in the image itself would |
| BamCache.Cache.FreeSector | src/d64ops.c:735-768 | through the cache, the view changes as freeing in the image itself would |
| BamCache.Cache.SectorsFree | src/d64ops.c:644-678 | the number of free sectors of a track of the view |
| BamCache.Cache.Commit | src/d64ops.c:2004-2016 | afterwards the images hold everything the view showed, and nothing is left to write |
| BamCache.Cache.Unmount | src/d64ops.c:2042-2068 | afterwards the images hold the view and no buffer belongs to the partition |
| BamCache.Cache.WriteThrough | src/d64ops.c:1779-1785 | a write past the cache to any sector outside the BAM shows in the view as the same write, whatever is cached |
| BamCache.CountBits | src/d64ops.c:644-664 | the loop over a DNP bitfield counts the free sectors of the track |
| BamCache.Locate | src/d64ops.c:510-564 | the branches with their 8-bit arithmetic give the sector and offset of the layout |
| FreeSpace.FreeBlocks | src/d64ops.c:1584-1630 | the sum over tracks is the number of free sectors off the reserved area, and fits 16 bits |
| FreeSpace.AllocateTakesOneBlock | src/d64ops.c:690-723 | allocating a free sector takes exactly one reported block, none if it is reserved |
| FreeSpace.ReleaseGivesOneBlock | src/d64ops.c:735-768 | freeing a used sector gives exactly one reported block back, none if it is reserved |
| FreeSpace.FormatFillsEveryTrack | src/d64ops.c:2560-2564 | from cleared BAM sectors, freeing every sector fills every counter to the length of its track |
| SectorSearch.NearestTrack | src/d64ops.c:806-827 | a nearest track to the directory with a free sector, the lower of two equally near ones; failure means there is none |
| SectorSearch.DoubleSidedSearchNeverEnds | src/d64ops.c:806-818 | on a full D82 neither way out of the loop is ever taken |
| SectorSearch.LowestFree | src/d64ops.c:829-837 | the lowest free sector of a track |
| SectorSearch.FirstSector | src/d64ops.c:785-838 | the lowest free sector of a nearest track; it fails exactly when no file track has one |
| SectorSearch.FirstNativeSector | src/d64ops.c:791-838 | on DNP images of any number of tracks, the lowest free sector of the first track with one; it fails exactly when no track it looks at has one |
| SectorSearch.FirstNativeNeverEnds | src/d64ops.c:791-804 | on a full DNP image of two tracks that search never ends |
| SectorSearch.NextNativeTrackWithSpace | src/d64ops.c:853-869 | started below the last track, on the only track, or with space anywhere, the DNP track loop ends, and fails exactly when neither the start nor a track below the last one has space |
| SectorSearch.NativeSearchNeverEnds | src/d64ops.c:853-869 | in all other cases neither way out of the loop is ever taken |
| SectorSearch.NextFreeNative | src/d64ops.c:871-888 | the DNP sector loop ends at a free sector of the track |
| SectorSearch.NextTrackWithSpace | src/d64ops.c:902-932 | at most three turns; failure means that no searched track has a free sector |
| SectorSearch.NextFreeOnTrack | src/d64ops.c:942-955 | the countdown loop ends, always with success, at a free sector exactly if the track has one |
| SectorSearch.NextSector | src/d64ops.c:852-956 | with matching counters success is a free sector, and failure means that no searched track has one |
| SectorSearch.GetFirstSector | src/d64ops.c:785-838 | the same for all formats |
| SectorSearch.GetNextSector | src/d64ops.c:852-956 | the same for all formats; another track is taken only if the current one is full |
| DxxRoom.AllocateTakesOne | src/d64ops.c:690-723 | allocating a free sector leaves one less on its track and as many on all others |
| DxxRoom.NextRoomTaken | src/d64ops.c:852-956 | taking a sector that the next search found leaves exactly one less for all further searches |
| DxxRoom.SaveRoomTaken | src/d64ops.c:785-838 | the same for the sector that the first search found, with track 53 of a D71 and the last DNP track |
| DxxRoom.NextSearchWillEnd | src/d64ops.c:853-869 | a file that needs more sectors than it can find is the only one whose search may not end, and then only from the last DNP track |
| DxxChain.FileLength | src/d64ops.c:1140-1229 | a file of n bytes has one sector for every 254 bytes begun, and one more if its last one is empty |
| DxxChain.AllocateEffect | src/d64ops.c:690-723 | allocating keeps the BAM and directory sectors protected and changes no other sector |
| DxxChain.RewriteSector | src/d64ops.c:1140-1193 | writing a sector outside the BAM changes neither what is free nor what is protected |
| DxxChain.ReleaseEffect | src/d64ops.c:735-768 | freeing keeps the protection and every other sector in use |
| DxxFile.Writer.Create | src/d64ops.c:1689-1732 | a new file owns one sector that was free, and its entry names type, first sector and padded name |
| DxxFile.Writer.Append | src/d64ops.c:1660-1687 | the last sector is in the buffer and writing goes on behind its last byte; only the time stamp of the entry changes, whatever number of blocks it tells |
| DxxFile.Writer.Refill | src/d64ops.c:1140-1193 | the full sector is linked to one that was free, or no searched track has one left and the file is terminated; the directory entry stays |
| DxxFile.Writer.Listen | src/iec.c:356-374 | each byte that arrives is appended to the contents, or the disk is full and nothing is lost |
| DxxFile.Writer.Close | src/d64ops.c:1195-1229 | the file is complete on the disk, and the entry has the closed flag and as many blocks more as the file has gained |
| DxxFile.Advance | src/d64ops.c:1140-1193 | with another sector found the chain grows by it, acyclic, and all other files stay |
| DxxFile.Terminate | src/d64ops.c:1149-1193 | without one the file is complete and terminated with all bytes so far |
| DxxFile.StampEntry | src/d64ops.c:332-349 | only the five bytes of the time stamp of one entry change |
| DxxSession.Send | src/iec.c:356-374 | a LISTEN for every byte appends all of them if and only if the searched tracks have the sectors for them; otherwise it appends exactly those that fill the sectors there are |
| DxxSession.Save | src/d64ops.c:1140-1229 | a save of n bytes succeeds if and only if there is room for one sector for every 254 bytes begun; then it is a terminated chain of distinct new sectors, entered with type, name, start and that number. A disk that fills up keeps the bytes there was room for and an open entry. Nothing else changes, and free blocks drop by the unreserved sectors of the chain |
| DxxSession.ReadSector | src/d64ops.c:298-322 | a sector off the disk or with a bad error code is refused; a link of track 0 ends the file at its length byte, and all other sectors are full |
| DxxSession.Load | src/d64ops.c:1091-1113 | loading any terminated chain sends exactly its contents, with one stray byte if the last sector has none, or the contents of the sectors before the first unreadable one |
| DxxSession.SaveThenLoad | src/d64ops.c:1091-1229 | whenever there is room, what was saved is what is loaded |
| DxxSession.ReadToEnd | src/d64ops.c:1660-1667 | the loop of an append ends at the last sector of the chain, or at the first unreadable one |
| DxxSession.AppendBytes | src/d64ops.c:1660-1687 | if and only if there is room behind the last sector, the file holds the old contents followed by the new bytes, its entry counts the sectors gained, and it can be appended to again; otherwise it holds the bytes there was room for, and only the time stamp of the entry changes |
| DxxSession.FreeNext | src/d64ops.c:1758-1763 | each round frees one more sector of the chain and nothing else |
| DxxSession.Delete | src/d64ops.c:1744-1771 | a locked file stays; an unreadable sector stops with the sectors up to it freed; otherwise exactly the chain's sectors come free, its blocks are back, and only the type byte of the entry changes |
| DxxSession.SaveThenDelete | src/d64ops.c:1744-1771 | whenever there is room and the type has no lock flag, saving and then deleting gives every block back, and no sector in use before is lost |
| DxxCached.Replay | src/d64ops.c:690-768 | sectors allocated, freed and written through the BAM buffers, whatever these hold, and then committed, leave in the images what the same operations make of the image in view; all other images hold what was in view for them |
| DxxCached.SaveCached | src/d64ops.c:1140-1229 | all that a save promises, through the BAM buffers: after a commit the images hold it |
| DxxCached.AppendCached | src/d64ops.c:1660-1687 | the same for an append |
| DxxCached.DeleteCached | src/d64ops.c:1744-1771 | the same for a deletion |
| EefsModel.ExtendUsable | src/eeprom-fs.c:484-531 | allocating leaves a handle that points into the file system |
| EefsInvariant.SectorsLonger | src/eeprom-fs.c:526-530 | one more sector number in the last entry is one more sector at the end of the file |
| EefsInvariant.CountFreeUpdate | src/eeprom-fs.c:208-216 | marking a sector changes the number of free ones by one, or not at all |
| EefsWrite.NextFreeFrom | src/eeprom-fs.c:226-289 | the wrapping searches return something unused, and fail only if nothing is |
| EefsWrite.GrowInPlace | src/eeprom-fs.c:500-530 | storing a number in the current entry keeps the invariant of the whole file system |
| EefsWrite.LinkNewPart | src/eeprom-fs.c:505-530 | linking a new list entry keeps the invariant of the whole file system |
| EefsWrite.ExtendKeeps | src/eeprom-fs.c:493-531 | allocating gives the file one sector that was in no file, or changes nothing when something is used up |
| EefsWrite.StoreKeeps | src/eeprom-fs.c:533-545 | storing bytes appends them to this file and changes no other |
| EefsWrite.RoundKeeps | src/eeprom-fs.c:492-545 | one round of the loop appends a piece or fails without a trace |
| EefsWrite.WriteKeeps | src/eeprom-fs.c:484-548 | for every state, file and buffer: the bytes counted are appended, no other file changes, the invariant stays, and it stops early only when no sector or no entry is left |
| EefsFiles.FindFromSpec | src/eeprom-fs.c:249-263 | the lowest live name entry with the name, or none |
| EefsFiles.FindSpec | src/eeprom-fs.c:249-263 | a name is found exactly when a file has it, at that file's first entry |
| EefsFiles.CreateKeeps | src/eeprom-fs.c:403-435 | a new empty file at an unused entry, or an error exactly when the name exists or no entry is left; other files stay |
| EefsFiles.SizeFits | src/eeprom-fs.c:51-60 | no file is longer than its 16-bit size can tell |
| EefsFiles.HeadChanged | src/eeprom-fs.c:620-659 | changing name and size of a first entry keeps the invariant |
| EefsFiles.CloseKeeps | src/eeprom-fs.c:620-629 | closing records the size and changes nothing else |
| EefsFiles.RenameKeeps | src/eeprom-fs.c:639-659 | renaming succeeds exactly when the old name exists and the new one does not, and changes that name only |
| EefsDelete.SectorFreed | src/eeprom-fs.c:208-216 | every sector freed was marked, as the assertion of mark_sector demands |
| EefsDelete.EntryErased | src/eeprom-fs.c:679-699 | one round frees the sectors of an entry and erases it |
| EefsDelete.ChainErased | src/eeprom-fs.c:679-699 | the loop reaches every entry of the chain |
| EefsDelete.LastEntryOfChain | src/eeprom-fs.c:440-444 | following the links from any entry of a chain ends at its last one |
| EefsDelete.DeleteKeeps | src/eeprom-fs.c:671-702 | deleting succeeds exactly when the name exists; then every entry and sector of the file is gone, nothing else changed, and the invariant stays |
| EefsMount.PlaceInUnique | src/eeprom-fs.c:51-60 | every sector of a file has exactly one place in its entries |
| EefsMount.SlotMarked | src/eeprom-fs.c:208-216 | while mounting no sector is marked twice, as the assertion of mark_sector demands |
| EefsMount.MountRebuilds | src/eeprom-fs.c:309-331 | mounting rebuilds exactly the sector bitmap and the counter that the running system has; used entries come back as the live ones, a subset of those marked |
| EefsMount.DeletedEntriesStayMarked | src/eeprom-fs.c:671-702 | after a deletion the bitmap of used entries differs from the rebuilt one in exactly the entries of the deleted file |
| EefsMount.FullDirectoryStaysFull | src/eeprom-fs.c:671-702 | with every entry marked, deleting any file does not make room for a new one, and mounting does |
| EefsMount.FormatEmpties | src/eeprom-fs.c:333-350 | formatting leaves no file and everything free |
| EefsRead.PlaceAfter | src/eeprom-fs.c:587-603 | the next sector is in the next slot, or the first slot of the next entry that lists any |
| EefsRead.NextSectorReached | src/eeprom-fs.c:587-605 | moving on reaches the file's next sector, and the two assertions hold |
| EefsRead.OpenReadStands | src/eeprom-fs.c:434-470 | opening for reading stands at the first byte of the file with the name, or fails exactly when there is none |
| EefsRead.ReadLoopReads | src/eeprom-fs.c:573-608 | the loop delivers exactly the next bytes across sectors and entries |
| EefsRead.ReadReads | src/eeprom-fs.c:562-611 | a read delivers the next bytes of the file, as many as asked for or as are left, and no assertion fails |
| EefsRead.ReadsConcatenate | src/eeprom-fs.c:562-611 | any sequence of reads delivers, put together, the bytes of the file in order |
| EefsRuns.ObserveCatalog | src/eeprom-fs.c:403-611 | reading any name in any pieces delivers what the abstract catalogue has under it |
| EefsRuns.CreateRefines | src/eeprom-fs.c:403-435 | creating adds an empty file to the catalogue and changes no other |
| EefsRuns.WriteRefines | src/eefs-ops.c:157-179 | writing extends one draft by the bytes counted; when room runs out the file is closed with what it has |
| EefsRuns.CloseFileRefines | src/eeprom-fs.c:620-629 | closing records the draft under its name |
| EefsRuns.RenameRefines | src/eeprom-fs.c:639-659 | renaming moves the contents to the new name, for open files too |
| EefsRuns.DeleteRefines | src/eeprom-fs.c:671-702 | deleting removes one name from the catalogue, also while a channel is writing to the file |
| EefsRuns.MountRefines | src/eeprom-fs.c:309-331 | mounting keeps all recorded files |
| EefsRuns.WrittenIsRead | src/eeprom-fs.c:484-629 | after a successful write and a close, any sequence of reads delivers the draft followed by the bytes written |
| EefsRuns.StepRefines | src/eeprom-fs.c:309-702 | every operation keeps the invariant, does to the files what it does to a map of names, and reports the right error; a channel without a file may store in free sectors and record its size in erased entries |
| EefsRuns.RunRefines | src/eeprom-fs.c:309-702 | so does every such run, with files scratched and the device formatted under open channels |
| EefsRuns.RunsFromFormat | src/eeprom-fs.c:309-702 | after it, reading any name delivers what the run on a map has, and mounting finds the bitmap and counter in RAM |
| EefsDangling.GrowableGrows | src/eeprom-fs.c:493-531 | a sector taken at the end of any chain keeps the invariant, whoever's handle it is |
| EefsDangling.FlawBreaks | src/eeprom-fs.c:309-331 | with a sector that no entry lists, a list entry that nothing links to, or a free slot in front of something, no books fit the state |
| EefsDangling.ElsewhereFlawed | src/eeprom-fs.c:493-531 | a sector taken anywhere else leaves one of these flaws |
| EefsDangling.WriteSafeIff | src/eeprom-fs.c:484-548 | a write through any handle keeps the invariant if and only if it takes no sector or takes it at the end of a chain |
| EefsDangling.ErasedSafeIff | src/eeprom-fs.c:484-548 | through an erased entry, if and only if it takes no sector |
| EefsDangling.ErasedLeaks | src/eeprom-fs.c:484-548 | the sector it takes is marked in RAM and free again after the next mount |
| EefsDangling.CloseSafeIff | src/eeprom-fs.c:620-629 | a close through any handle keeps the invariant if and only if the size goes to an erased entry, to a first entry with enough sectors, or to a list entry without changing which sectors it lists |
| EefsSafety.RunSoundIff | src/eeprom-fs.c:309-702 | a run keeps the invariant in every state if and only if all its writes and closes are of these kinds |
| EefsSafety.CleanIsSafe | src/eeprom-fs.c:484-629 | whatever is done through a channel that has its file is of these kinds |
| EefsSafety.SameDataIff | src/eeprom-fs.c:533-537 | bytes that go into the current sector leave the data of all files if and only if the sector is in no file or held them before |
| EefsSafety.WrittenAfterErasing | src/doscmd.c:2047-2088 | create, scratch or format, write a byte: on every device, bitmap and rebuilt bitmap differ |
| EefsAppend.OpenAppendStands | src/eeprom-fs.c:438-459 | opening for appending stands at the file's last sector, with slot index 0 |
| EefsAppend.SafeAppendReads | src/eeprom-fs.c:438-459 | a safe append is read back after the old contents |
| EefsAppend.LooseLoop | src/eeprom-fs.c:484-548 | from a wrong slot index the entries list fewer sectors than the size needs, for every further write |
| EefsAppend.ReadRunsOut | src/eeprom-fs.c:587-605 | reading past the listed sectors fails an assertion |
| EefsAppend.AppendReadableIff | src/eeprom-fs.c:438-459 | an append can be read back if and only if the data fits into the last sector or the last entry lists one sector |
| EefsAppend.AppendCounterexample | src/eeprom-fs.c:438-459 | one byte appended to a file of 128 bytes in two sectors makes it unreadable |
| EefsAppend.SearchFromBehindEnds | src/eeprom-fs.c:226-239 | a search from number 255 gets past its first turn to an end if and only if a sector is free |
| EefsAppend.LoopNames | src/eeprom-fs.c:492-545 | a write through any handle, from a sector boundary on, renames no file and grows the size by no more than the free sectors hold |
| EefsAppend.EmptyAppendBreaks | src/eeprom-fs.c:438-459 | nothing appended to an empty file can be read back: the write finds no sector and the closed file is still empty, or the file's first slot stays free, no books fit the state, and after the close every read of a byte starts at a sector that does not exist |
| EefsChannel.RefillRead | src/eefs-ops.c:126-149 | the next 254 bytes or the rest are in the buffer, and the end is signalled with the last of them |
| EefsChannel.TalkFile | src/eefs-ops.c:126-149 | a file that is not empty is sent as it is |
| EefsChannel.TalkNamed | src/eefs-ops.c:220-240 | what is sent is the file exactly if it is not empty |
| EefsChannel.RefillWrite | src/eefs-ops.c:157-179 | what is in the buffer is appended to the draft, or no sector or no entry is left and the file is closed with the part that fitted |
| EefsChannel.ListenAndClose | src/eefs-ops.c:157-200 | all bytes that arrived are recorded under the name, or no sector or no entry is left and as many of the first ones as fitted |
| EefsDevice.EntryReplaced | src/eeprom-fs.c:127-170 | overwriting one entry in memory changes that entry of the directory and no sector |
| EefsDevice.SectorPatched | src/eeprom-fs.c:533-537 | overwriting bytes of one sector changes that sector and no entry |
| EefsDevice.Device.WriteEntry | src/eeprom-fs.c:127-170 | afterwards the entry is the buffer, nothing else changed, and exactly the bytes that differed were written, once each |
| EefsDevice.Device.Mark | src/eeprom-fs.c:208-216 | bitmap and counter change together; the assertion is the precondition and every caller meets it |
| EefsDevice.Device.NextFreeSector | src/eeprom-fs.c:226-239 | the loop over packed bits ends with the first unused sector, wrapping |
| EefsDevice.Device.NextFreeEntry | src/eeprom-fs.c:274-289 | the same for entries, and the entry found is marked |
| EefsDevice.Device.FindEntry | src/eeprom-fs.c:249-263 | the entry found is in the buffer |
| EefsDevice.Device.OpenWrite | src/eeprom-fs.c:403-435 | memory, bitmaps and handle become those of the model |
| EefsDevice.Device.OpenForReading | src/eeprom-fs.c:434-467 | the handle becomes that of the model, and nothing is written |
| EefsDevice.Device.OpenForAppending | src/eeprom-fs.c:434-467 | the walk to the last entry ends, and the handle becomes that of the model |
| EefsDevice.Device.AllocateSector | src/eeprom-fs.c:493-531 | memory and bitmaps become those of the model, on success and on both errors |
| EefsDevice.Device.WriteFile | src/eeprom-fs.c:484-548 | the loop does what the model's function does, including the number of bytes counted |
| EefsDevice.Device.ReadFile | src/eeprom-fs.c:562-611 | the bytes delivered and the handle are those of the model, and nothing is written |
| EefsDevice.Device.CloseFile | src/eeprom-fs.c:620-629 | the size is written to the first entry |
| EefsDevice.Device.RenameFile | src/eeprom-fs.c:639-659 | the name is written to the entry found |
| EefsDevice.Device.DeleteFile | src/eeprom-fs.c:671-702 | the loop ends, and memory and bitmaps become those of the model |
| EefsDevice.Device.Mount | src/eeprom-fs.c:309-331 | the scan marks every sector once and leaves the state of the model |
| EefsDevice.Device.Reformat | src/eeprom-fs.c:333-350 | all memory is erased and the state is that of the model |
| NameCodec.DecodeEncode | src/fatops.c:95-223 | for every name, limit and target size, decoding the encoded name gives a prefix of the name without trailing shifted spaces |
| NameCodec.RoundTripIff | src/fatops.c:95-223 | a name of at most 16 bytes comes back if and only if its last byte passes the encoder's check |
| NameCodec.TransparentIff | src/fatops.c:95-223 | a name of at most 16 bytes comes back unchanged if and only if it does not end in a shifted space and its last byte passes the check |
| NameCodec.ShortNamesFit | src/fatops.c:95-223 | every name of 15 bytes, and every one of 16 with at most 8 bytes in hexadecimal, comes back |
| NameCodec.NameCutOff | src/fatops.c:136-158 | a name of 16 bytes that does not come back |
| NameCodec.PositionBound | src/fatops.c:127-165 | at most five positions for every two bytes |
| NameCodec.EncodedLength | src/fatops.c:95-173 | for every name the output is at most two bytes longer than the limit |
| NameCodec.BufferFits | src/fatops.c:533-547 | the encoded name with dot, type and terminating zero fits the buffer of 45 bytes |
| NameCodec.BufferFull | src/fatops.c:533-547 | and can fill it exactly |
| NameCodec.ReservedEscapedIff | src/fatops.c:97-121 | the output is a reserved name exactly when the name is one only after its trailing shifted spaces are dropped |
| NameCodec.ReservedSlipsThrough | src/fatops.c:97-121 | "CON" with a shifted space is such a name |
| NameCodec.MatchesName | src/fatops.c:101-118 | the comparison loop accepts the reserved name itself, or with anything behind a dot |
| NameCodec.ReservedName | src/fatops.c:97-121 | the loop over the reserved names finds exactly the reserved ones |
| NameCodec.EncodeLoop | src/fatops.c:127-165 | the loop writes exactly the specified output and stays inside the limit |
| NameCodec.PetsciiToFat | src/fatops.c:95-173 | the terminated string in the buffer is the encoded name |
| NameCodec.MoveKeeps | src/fatops.c:189-218 | every round of the decoder keeps what is decoded and what is still to come, and comes nearer to the end |
| NameCodec.FatToPetscii | src/fatops.c:175-223 | the loop ends on every input, and decoding in place gives the same as decoding into another array |
| CopyLoop.Source.Refill | src/doscmd.c:1114-1117 | the next block is in the buffer |
| CopyLoop.Destination.Take | src/doscmd.c:1102-1108 | bytes are appended, with position and last index wrapping to 8 bits |
| CopyLoop.Destination.Refill | src/doscmd.c:1119-1121 | a full buffer goes to the medium |
| CopyLoop.ToCopy | src/doscmd.c:1088-1100 | the 8-bit count is at most what is left on either side, and 0 only for a full destination or a used-up block |
| CopyLoop.MoveBytes | src/doscmd.c:1088-1108 | one step moves bytes from source to destination and loses none |
| CopyLoop.CopyFile | src/doscmd.c:1088-1122 | the loop ends and appends exactly the source, however blocks lie, also when the destination is full at the start |
| CopyLoop.CopyAll | src/doscmd.c:1042-1133 | the destination is the concatenation of all sources |
| Calendar.AdvancesByOne | src/doscmd.c:2182-2187 | from each valid date to the next the computed day advances by one, modulo 7 |
| Calendar.IsNthDay | src/doscmd.c:2182-2187 | counting days from 1 January 1900 by month and year lengths is stepping day by day |
| Calendar.IsWeekday | src/doscmd.c:2182-2187 | for every valid date from 1900 on the result is the Gregorian day of the week |
| Bitfire.RankInjective | src/fl-bitfire.c:267-278 | different sectors are visited at different times |
| Bitfire.IterateRank | src/fl-bitfire.c:267-278 | each call goes to the sector with the next rank, and from the last one to the next track |
| Bitfire.VisitsEveryOnce | src/fl-bitfire.c:267-278 | the walk visits every sector of a track exactly once, then is at sector 0 of the next track, never the directory track |
| Bitfire.LoadedIsFurther | src/fl-bitfire.c:380-486 | loading block by block moves on by the length of the file |
| Bitfire.WrapMoves | src/fl-bitfire.c:267-278 | 256 sectors further is another track |
| Bitfire.SkippedIff | src/fl-bitfire.c:308-316 | skipping an entry leads to the position that loading its file leads to exactly when the 16-bit sum does not wrap |
| Bitfire.SeekIsSequential | src/fl-bitfire.c:284-317 | seeking to a file and to all files before it ends at the track, sector and byte where loading the files before ends, if and only if no sum wraps |
| Bitfire.Session.IterateSector | src/fl-bitfire.c:267-278 | the loop of subtractions is the step of the walk |
| Bitfire.Session.IterateFile | src/fl-bitfire.c:284-317 | the loops end at the position of the specification |
| Bitfire.Session.LoadFile | src/fl-bitfire.c:360-486 | the position after loading is that of the specification, for every 16-bit length |
| Sparkle.IterateSound | src/fl-sparkle.c:258-271 | sectors left and sectors used are together all sectors, and the next one is unused while there is one |
| Sparkle.SkipEnds | src/fl-sparkle.c:265-268 | the loop that skips used sectors ends at an unused one |
| Sparkle.StepFitsIff | src/fl-sparkle.c:243-252 | the steps that lead from every sector of a track to a sector of the track: up to its length, and one more on tracks 1 to 17 |
| Sparkle.VisitsEveryOnce | src/fl-sparkle.c:243-291 | from any sector and with any interleave that fits the track, all sectors are visited exactly once |
| Sparkle.SeekMeetsSequential | src/fl-sparkle.c:474-491 | seeking by start sector and sectors left leads to the state of a reader that walked there |
| Sparkle.Session.AdvanceSector | src/fl-sparkle.c:243-252 | the 8-bit step with its special case for the first zone, for every step |
| Sparkle.Session.IterateSector | src/fl-sparkle.c:258-271 | packed bitmap, counter and sector become those of the specification |
| Sparkle.Session.SkipUsed | src/fl-sparkle.c:265-268 | the unbounded loop ends |
| Sparkle.Session.TrackChanged | src/fl-sparkle.c:274-291 | a fresh track with the parameters of its zone, on which a walk can begin exactly if sector and interleave fit |
| Sparkle.Session.FindDirEntry | src/fl-sparkle.c:474-491 | the state after the seek of the specification |
| ErrorInfo.WithTrackErrors | src/d64ops.c:1301-1319 | writing the codes of a track changes those codes and no others |
| ErrorInfo.WithErrorAt | src/d64ops.c:2120-2160 | changing a code changes that of one sector only |
| ErrorInfo.ExtendedErrors | src/d64ops.c:2174-2212 | extending leaves old sectors good and marks exactly the new ones NO SYNC |
| ErrorInfo.Cache.Commit | src/d64ops.c:1301-1319 | afterwards the images hold what every reader sees |
| ErrorInfo.Cache.Load | src/d64ops.c:1248-1290 | the cache holds the codes of the track as every reader sees them, and no other image loses one |
| ErrorInfo.Cache.Check | src/d64ops.c:298-322 | the decision is on the latest code of the sector, cached or written |
| ErrorInfo.Cache.SetError | src/d64ops.c:2120-2160 | the sector has the new code, all others of all images theirs; sectors outside are refused |
| ErrorInfo.Cache.AddInfo | src/d64ops.c:2070-2090 | added error info is good for every sector, and no code a reader sees changes |
| ErrorInfo.Cache.ExtendImage | src/d64ops.c:2174-2212 | only a D41 image without error info is extended, to 42 tracks at most |
| ErrorInfo.Cache.Mount | src/d64ops.c:1448-1450 | codes of other images survive exactly when nothing different was waiting for them in the cache |
| ErrorInfo.Cache.Unmount | src/d64ops.c:2064-2067 | codes waiting for the image are written first |
| Buffers.CounterUnpacks | src/buffers.c:50-51 | with at most 15 buffers the packed counter gives users' and dirty buffers exactly |
| Buffers.StoredIsRead | src/fileops.c:715-731 | bytes stored around a ring are read back from the same offset |
| Buffers.WroteFollows | src/iec.c:356-374 | bytes that arrive are stored one behind the other around the ring, from where the first one goes, across all members |
| Buffers.RedFollows | src/iec.c:421-498 | bytes are sent one behind the other around the ring, from the current position on |
| Buffers.OnlyFromTheSamePlace | src/fileops.c:715-731 | bytes stored from one place of the ring on are read from another one, whatever they and the ring are, if and only if the places are the same |
| Buffers.ComesBackIff | src/doscmd.c:955-978 | bytes written after B-P go to its position, and come back after B-P to the same one, if and only if the buffer has several members, or mustflush was clear, or the position is the first; otherwise they go to the first position and on |
| Buffers.Pool.TalkLarge | src/iec.c:421-498 | across all refills, the bytes sent are those of the ring of count * 256 bytes from the current position on |
| Buffers.Pool.ListenLarge | src/iec.c:356-374 | in every state of the buffer, the bytes that arrive go around the ring from where the next one is stored: from the current position, or from the next member if mustflush is set; no other buffer changes |
| Buffers.Pool.WriteThenRead | src/doscmd.c:955-978 | B-P, writing, B-P and reading gives the bytes back, for a large buffer always, and for one of a single member if mustflush was clear or the position is the first; otherwise it gives what lies at the position after the bytes were stored from the first one on |
| DirectRuns.AsTapeIff | src/doscmd.c:955-978 | every byte of a run of B-P, LISTEN and TALK is read and stored where a tape with one cursor has it if and only if no large buffer is read, and no single one written off its first position, while mustflush is set |
| DirectRuns.CarefulRunIsTape | src/doscmd.c:955-978 | such a run sends the same bytes as the tape and leaves the same ones |
| DirectRuns.SeekBeforeReading | src/iec.c:356-374 | in a large buffer every run is such a run that starts with mustflush clear and in which no read comes right behind a write |
| DirectRuns.WithoutFilling | src/iec.c:356-374 | in any buffer every run is such a run that starts with mustflush clear and in which no write reaches the last byte of a member |
| DirectRuns.MisplacedByte | src/doscmd.c:964-977 | a run of six commands on "#1" whose second byte is stored at the wrong position, for every position but the first |
| DirectRuns.ReadAgain | src/iec.c:356-374 | a run of two commands on "#2" that reads the first byte again |
| DirectRuns.Obey | src/doscmd.c:955-978 | one command on the buffer pool is the step specified, and changes no other buffer |
| DirectRuns.Serve | src/doscmd.c:955-978 | any sequence of commands, one after the other, sends what is specified, and what the tape sends if none of them misses |
| Buffers.PositionModulo | src/doscmd.c:955-978 | B-P selects the 16-bit position modulo the size of the large buffer |
| Buffers.Pool.AllocSystem | src/buffers.c:104-116 | the first free buffer, which the counter ignores, or none |
| Buffers.Pool.AllocUser | src/buffers.c:125-133 | the first free buffer, counted |
| Buffers.Pool.Free | src/buffers.c:208-221 | the buffer is free and the counter exact, also when it was dirty or free before |
| Buffers.Pool.MarkDirty | src/buffers.c:280-302 | marking twice counts once; the counter goes wrong exactly if the mark of a buffer changes that is not in use |
| Buffers.Pool.Find | src/buffers.c:263-271 | the first buffer in use with the secondary address, the error channel's one behind all others |
| Buffers.Pool.FindRun | src/buffers.c:145-166 | the lowest run of so many free neighbours, or there is none |
| Buffers.Pool.OpenDirect | src/fileops.c:794-811 | the first free buffer becomes a ring of one member at position 1, or nothing changes |
| Buffers.Pool.OpenLarge | src/fileops.c:755-792 | a ring of neighbouring buffers with exactly one active member, or no change when there is no such run |
| Buffers.Pool.Refill | src/fileops.c:715-731 | the next member around the ring is the only active one, at its first byte |
| Buffers.Pool.SetPosition | src/doscmd.c:955-978 | the walk ends at the selected member, the only active one, without mustflush; a buffer of one member keeps its mustflush |
| Buffers.Pool.FreeLarge | src/fileops.c:743-750 | every member is free, and no other buffer changed |

## Left out

- Bus timing and handshakes, fast loader transfer protocols, IEEE-488, LCD, LEDs, clocks, UART and configuration: hardware
  timing and user interface, not state that the code could get wrong here.
- FatFs and everything on FAT media but names: its implementation is not part of this model.
- REL files: their records are kept by code on top of FatFs.
- I/O errors of the medium: reading and writing an image or the EEPROM always succeeds.
- Searching and extending a Dxx directory, DNP subdirectories, and the labels a format writes: the place of a directory
  entry is a parameter.
- Read-only images; which sectors have a bad error code is a parameter when files are read (`ErrorInfo.Cache.Check` decides it).
- Raw sector writes to BAM sectors: they bypass the buffers, so the view is not defined for them.
- An image as one byte array: sectors are addressed by track and sector; `Geometry` shows that this is one-to-one.
- BamCache.BamBuffer.Take: the data of a buffer is one sequence value that is replaced, not an array that is written byte by byte.
- DxxFile.Writer.Refill: after a DNP image has filled up without an error, further bytes go to track 0; that state is not followed.
- DxxSession.Save: searches that never end are excluded by `DxxRoom.SaveEnds`; they are those of a full D82 image and of a DNP
  image of two tracks that fills up while the file is on its last track.
- DxxSession.AppendBytes: likewise for a file on the last track of a DNP image that fills up; and a last sector whose
  length byte is 0, which no code here writes: the first byte appended would go over the link.
- DxxSession.FreeNext: no sector of the chain is on an extra track of a D41 image; those have no BAM entry, and what freeing
  them does to the label is said by `Bam.ExtraTrackHitsLabel`.
- DxxSession.Delete: the same.
- DxxFile.Writer.Create: the writer reads and updates the image itself and notes what it does; `DxxCached` does the same
  through the BAM buffers. What the writer reads there is what `BamCache.Cache.IsSectorFree` and `SectorsFree` read.
- EefsAppend.AppendReadableIff: the file must have been closed and must not be empty; for an empty one the source looks at a
  bit behind its bitmap, which `EefsAppend.EmptyAppendBreaks` takes as a parameter.
- EefsAppend.EmptyAppendBreaks: a search that never ends (`EefsAppend.SearchFromBehindEnds`) is excluded. Reading at a sector
  that does not exist counts as a failed read; what the EEPROM delivers there is not part of this model.
- EefsRuns.StepRefines: what a channel without a file does to the contents of other files, when it stores in their sectors, is
  not followed in the catalogue; `EefsSafety.SameDataIff` says when it does. Appending is not one of the operations of a run.
- EefsSafety.RunSoundIff: it is about the structure of the file system; sector data is not part of it.
- EefsDevice.Device.Mount: directories are those of a file system with the invariant; one with a sector listed twice or out
  of range fails an assertion of the source.
- EefsDevice.Device.OpenForAppending: the same; the links of such a directory need not come to an end.
- EefsDevice.Device.DeleteFile: the same.
- EefsDevice.Device.AllocateSector: the sector of the handle is one of the device; for the one case in which it is not, see
  `EefsAppend.EmptyAppendBreaks`.
- EefsDevice.Device.WriteFile: the same.
- EefsDevice.Device.Reformat: how often bytes are written is not counted, as it is for directory entries.
- NameCodec.FatToPetscii: the option to cut an extension off, which no caller uses.
- CopyLoop.CopyFile: source blocks start at position 1 or later, as file data does; for a block that starts at 0 a full
  destination would make the 8-bit position wrap.
- Bitfire.Session.LoadFile: the sum of offset and remaining length is taken in an int of more than 16 bits.
- Sparkle.VisitsEveryOnce: the walk starts inside its track; the sector comes from the disk, the source does not check it, and
  beyond sector 23 it would address memory behind the bitmap.
- Sparkle.Session.FindDirEntry: the same.
- Calendar.IsWeekday: over unbounded integers; parsing of the time string is not part of it.
- Buffers.Pool.OpenLarge: the sticky and write flags, which nothing here depends on.
- Buffers.Pool.TalkLarge: B-R and U1 into a direct-access buffer, which change its length and position.
- DirectRuns.Serve: the bytes come and go over the bus; when a command may arrive is not part of it.
