# u9_vector: the floppy firmware's file system, and the library code under it

A Dafny model of the storage stack of the Vector-06C replica's firmware and of four
pieces of its C library, with proofs. `dafny verify dfyconfig.toml` checks all of it.

**The FAT12/FAT16 engine** (`tff.c`). The firmware reaches the card through a single
512-byte window that is written back when it moves. Everything else goes through it:
packed cluster tables, a next-fit allocator, a file cursor that walks a linked chain,
directories, paths. The model keeps that form: `Disk`, `FATFS`, `FIL`, `DIR` and
`FDDImage` are classes with the source's fields, and their methods have its branches and
loops. The specification is much simpler. The table is a sequence of numbers (`Fat`), the
rest of the volume a sequence of sectors (`Store`), a file a sequence of bytes (`Data`), a
directory a list of entries (`Entries`), a floppy a map from addresses to blocks (`Image`).
Every method says what it does to these, for every well-formed volume, on success and
after disk errors, which may come at any call.

| file | what is in it |
|---|---|
| Bytes, Arith, Layout | bytes and words; products and quotients by variable sizes; where things are on a volume |
| DiskIo | the card: an array of sectors whose calls may fail |
| FatTable, Chains | the packed table; chains in it, allocation and removal as functions on tables |
| FileSystem | the window, get_cluster to create_chain, f_getfree |
| Allocation | sequences of create_chain and remove_chain |
| FileData, Transfer | the bytes of a file; what partial transfers leave |
| FileObject, Sessions | f_read, f_write_inplace, f_write, f_lseek, f_sync; sequences of them |
| Names, Directory, Paths | 8.3 names; the directory walk; trace_path, f_opendir, f_open |
| Truncation | f_open of an existing file to write it anew |
| Calls, Remount | any mix of calls on one file; what a fresh mount finds after f_sync |
| Bypass | transfers past a window that stands in their way |
| ExampleVolume | a full volume with two files that meets the assumptions, and what goes wrong on it |
| Floppy | the disk image on top of a file |
| QuickSort | qsort and bsearch |
| Calendar | mktime and localtime against a calendar that counts days year by year |
| Scanf | the scanf engine against a description of each directive |

**How the proofs are built.** Methods are proved against functions and predicates on
values (tables, stores, byte sequences, instants), and what those mean is proved as lemmas.
A method's contract that mentions a disk error does so through `Faults`, the number of
calls that have failed: a result is exact when that number has not risen.

**Where the code does less than its name promises.** These are stated exactly:

- `f_write_inplace` replaces bytes only on sector boundaries; the rest it reads instead
  (`Transfer.InPlaceExactly`).
- `f_write` and `f_lseek` report no error when the clusters run out, and leave a wrong cursor:
  `sect_clust` 0 and a wrong sector number. Both say before the call when that happens
  (`FileObject.FIL.Write`, `FileObject.FIL.Seek`, `Transfer.SeekMisses`;
  `ExampleVolume.WriteWhenFull`, `ExampleVolume.SeekWhenFull`).
- Whole sectors are written past the window. A window that holds one of them goes on
  showing the old bytes (`Bypass.WritePast`, `ExampleVolume.StaleWindow`).
- Whole sectors are read past the window. One that is dirty there is read as it was before:
  `f_read` says before the call when that happens (`FileObject.FIL.Read`, `Bypass.ReadPast`,
  `ExampleVolume.StaleRead`).
- `remove_chain` counts one cluster too many when the chain leads to a free cluster or into
  a cycle (`Chains.StepsCount`, `Chains.ReachesFreeIs`).
- `f_readdir` passes over entries whose name is blank (`Directory.VisibleExactly`).
- `make_dirfile` accepts repeated dots and stores a leading 0xE5 as it is, which marks the
  entry as deleted (`Names.TwoDots`, `Names.StoredAsDeleted`).
- `f_getfree` counts entries 0 and 1 of a FAT16 table (`Chains.FreeFromStart`).
- `mktime` leaves negative seconds negative and a day of 0 alone. Its result is right exactly
  when the seconds are not negative (or whole minutes), the year is 1970 to 2100, and the
  date is not day 0 of January 1970 (`Calendar.Tm.MkTime`, `Calendar.NewYear2101`,
  `Calendar.NegativeSecond`, `Calendar.DayZero`).
- `_scanf` takes a number of 256 digits for none (`Scanf.Scanner.ReadInt`), reads widths
  modulo 2^16 (`Scanf.WidthExactly`, `Scanf.Width65536`), and counts 127 among the white
  space (`Scanf.DeleteIsSkipped`).
- The floppy serves addresses outside its geometry, as other names of blocks inside it
  (`Floppy.AnotherName`, `Floppy.SectorSix`), and its track count multiplies where it should
  divide (`Floppy.TrackCount`, `Floppy.OneTrack`).

**Assumptions.** A volume is consistent: its regions follow one another, the table has
room for all clusters, a cluster is a power of two sectors, the root directory fills whole
sectors. A failed single-sector read leaves the buffer as it was (`mmc.c`, line 209). The
copies of the table agree only as long as no write has failed, since `move_window` ignores
failures on the later copies. A transfer of whole sectors goes past the window, so
for writing the window must hold none of them (`ClearOf`; `Bypass` says what happens
otherwise); the sequences in Sessions, Truncation, Paths, Floppy, Calls and Remount establish
this themselves from what holds at their start and from the calls. `ExampleVolume` shows a
volume with files and a sub-directory that meets the assumptions.

## Model

| member | source | states |
|---|---|---|
| `Layout.ClusterOfSector` | u9_vector/firmware/floppysrc/tff.c:325-335 | clust2sect and the cluster of a sector are inverse on the data area; clusters occupy disjoint sector ranges inside it |
| `Layout.MirrorInjective` | u9_vector/firmware/floppysrc/tff.c:80-85 | the copies of the table that a write-back addresses do not overlap |
| `DiskIo.Disk.Read` | u9_vector/firmware/floppysrc/mmc.c:460-489 | a read either delivers the sectors asked for or fails; a failed single-sector read leaves the buffer alone, a failed longer one touches only the range asked for |
| `DiskIo.Disk.Write` | u9_vector/firmware/floppysrc/mmc.c:498-530 | a write puts the bytes in exactly the sectors asked for; after a failure nothing is known about those, and all others are unchanged |
| `FatTable.PutBoth12` | u9_vector/firmware/floppysrc/tff.c:197-207 | the two byte stores of put_cluster set one 12-bit entry to the value modulo 4096 and no other, although neighbours share a byte |
| `FatTable.HalfPut12` | u9_vector/firmware/floppysrc/tff.c:197-204 | between the two byte stores, where put_cluster may give up, all other entries are already and still right |
| `FatTable.WholePut12` | u9_vector/firmware/floppysrc/tff.c:197-207 | the same as PutBoth12 when write-backs to the later copies of the table happen in between |
| `FatTable.Put16` | u9_vector/firmware/floppysrc/tff.c:209-212 | the 16-bit store sets that entry modulo 65536 and no other |
| `FileSystem.FATFS.MoveWindow` | u9_vector/firmware/floppysrc/tff.c:63-95 | whether it succeeds or fails, the disk overlaid with the dirty window stands for the same table and the same sectors; on success the window holds the sector asked for; move to 0 leaves the disk equal to the overlay; the copies of the table stay in agreement while no write fails |
| `FileSystem.FATFS.Move` | u9_vector/firmware/floppysrc/tff.c:63-95 | the same code with a window that need not agree with the disk: a window already on the sector is kept as it is, a dirty one is written to its own sector and to nothing else but copies of the table |
| `FileSystem.FATFS.WriteMirrors` | u9_vector/firmware/floppysrc/tff.c:80-85 | after a sector of the first copy is written, the loop brings all other copies into agreement with it and touches nothing but copies |
| `FileSystem.AnyCopy` | u9_vector/firmware/floppysrc/tff.c:76-95 | with a clean window and no failed write, byte i of every copy of the table is byte i of the table the volume stands for |
| `FileSystem.FATFS.GetCluster` | u9_vector/firmware/floppysrc/tff.c:141-173 | returns the entry of the table the volume stands for, 1 for a number that is no cluster or after a disk error; changes neither table nor data |
| `FileSystem.FATFS.GetCluster12` | u9_vector/firmware/floppysrc/tff.c:153-159 | the FAT12 case of the same |
| `FileSystem.FATFS.GetCluster16` | u9_vector/firmware/floppysrc/tff.c:161-163 | the FAT16 case of the same |
| `FileSystem.FATFS.PutCluster` | u9_vector/firmware/floppysrc/tff.c:184-224 | the table becomes the old table with that one entry replaced (modulo its size); even when it fails half-way, no other entry and no data changes |
| `FileSystem.FATFS.PutCluster12` | u9_vector/firmware/floppysrc/tff.c:197-207 | the FAT12 case, including entries that straddle two sectors |
| `FileSystem.FATFS.PutCluster16` | u9_vector/firmware/floppysrc/tff.c:209-212 | the FAT16 case |
| `Chains.ChainDistinct` | u9_vector/firmware/floppysrc/tff.c:236-257 | an end-marked chain visits no cluster twice |
| `Chains.ChainUnique` | u9_vector/firmware/floppysrc/tff.c:1190-1205 | following links from a cluster gives one chain, determined by the table |
| `Chains.HeadsDisjoint` | u9_vector/firmware/floppysrc/tff.c:269-314 | chains with different heads share no cluster |
| `Chains.StepsCount` | u9_vector/firmware/floppysrc/tff.c:244-255 | on any table, cyclic or cross-linked, the number of clusters remove_chain counts is what the free clusters rise by, and one more exactly if the walk comes to a cluster that is free by then |
| `Chains.ReachesFreeIs` | u9_vector/firmware/floppysrc/tff.c:236-257 | in terms of the table before the call: the count is one too high if and only if the links lead from the start to a free cluster or into a cycle |
| `Chains.CountedTwice` | u9_vector/firmware/floppysrc/tff.c:244-255 | a table on which two clusters are counted and one is freed |
| `Chains.RemovedChain` | u9_vector/firmware/floppysrc/tff.c:244-256 | on an end-marked chain, removal frees exactly its clusters, gets to the end, and counts as many as the chain has |
| `Chains.RemovedOthers` | u9_vector/firmware/floppysrc/tff.c:244-256 | chains that share no cluster with the removed one stay complete |
| `Chains.RemovedWellFormed` | u9_vector/firmware/floppysrc/tff.c:244-256 | removing a whole chain leaves all allocated clusters in disjoint, end-marked chains |
| `Chains.StartedWellFormed` | u9_vector/firmware/floppysrc/tff.c:302-313 | marking a free cluster as a new chain keeps all chains disjoint and end-marked |
| `Chains.StretchedWellFormed` | u9_vector/firmware/floppysrc/tff.c:302-313 | linking a free cluster to the end of a chain keeps all chains disjoint and end-marked |
| `Chains.StretchedChains` | u9_vector/firmware/floppysrc/tff.c:302-313 | the stretched chain is the old one and the new cluster; every other chain is as it was |
| `Chains.ExtendOne` | u9_vector/firmware/floppysrc/tff.c:1033-1045 | a file that gets one more cluster: its chain grows at the end by a free cluster, the table stays well formed, and nothing else in it changes |
| `Chains.OthersKept` | u9_vector/firmware/floppysrc/tff.c:1033-1045 | while one file grows, chains of other files stay complete and disjoint from it |
| `Chains.FreeFromStart` | u9_vector/firmware/floppysrc/tff.c:1378-1393 | counting from entry 0, as the FAT16 scan does, exceeds the number of free clusters by one for each of the entries 0 and 1 that is zero |
| `FileSystem.FATFS.RemoveChain` | u9_vector/firmware/floppysrc/tff.c:236-257 | ends on every table; on success the table is what Removed says and the free count has risen by the clusters freed; fails only at an entry holding 1 or on a disk error |
| `FileSystem.FATFS.CreateChain` | u9_vector/firmware/floppysrc/tff.c:269-314 | returns the existing next link and changes nothing, or takes the next-fit free cluster and extends exactly that chain; 0 only if no cluster is free; 1 only for a cluster not in use, an entry holding 1, or a disk error |
| `FileSystem.FATFS.FindFree` | u9_vector/firmware/floppysrc/tff.c:289-300 | the search finds the first free cluster after the start, going round once, and reports 0 exactly after all have been seen in use; no entry is looked at twice |
| `FileSystem.NeverRefused` | u9_vector/firmware/floppysrc/tff.c:283-298 | on a well-formed table create_chain never refuses a cluster in use |
| `FileSystem.FATFS.GetFree` | u9_vector/firmware/floppysrc/tff.c:1345-1402 | a known count is returned unchanged; otherwise the count is the number of free clusters (FAT12), or of zero entries from entry 0 on (FAT16) |
| `FileSystem.FATFS.CountFree12` | u9_vector/firmware/floppysrc/tff.c:1372-1376 | without disk errors, the number of free clusters |
| `FileSystem.FATFS.CountFree16` | u9_vector/firmware/floppysrc/tff.c:1377-1393 | the sector-wise scan with its wrapping byte counter visits every entry of the table once |
| `FileSystem.RaisedSum` | u9_vector/firmware/floppysrc/tff.c:248-249 | increments of a known free count add up without wrapping |
| `Allocation.BooksDisjoint` | u9_vector/firmware/floppysrc/tff.c:236-314 | chains handed out share no cluster |
| `Allocation.AfterStretch` | u9_vector/firmware/floppysrc/tff.c:283-313 | one create_chain on a chain that has been handed out: this chain grows by one, the others are intact, free count and free clusters fall together |
| `Allocation.AfterStart` | u9_vector/firmware/floppysrc/tff.c:278-313 | the same for a new chain |
| `Allocation.AfterRemove` | u9_vector/firmware/floppysrc/tff.c:236-257 | one remove_chain: the other chains are intact, free count and free clusters rise by the length of the chain |
| `Allocation.ServeAll` | u9_vector/firmware/floppysrc/tff.c:236-314 | over every sequence of create_chain and remove_chain without disk errors each request does what it should: the lengths of the chains and the number of free clusters are those of the ledger (one cluster more for a start or a stretch if one is free, all of a chain back for a removal); a known free count is the number of free clusters, all chains stay disjoint and end-marked, and clusters are conserved |
| `Allocation.Take` | u9_vector/firmware/floppysrc/tff.c:269-314 | a free cluster becomes the end of the chain or a chain of its own, and nothing else changes in the table; nothing happens when none is free |
| `Allocation.GiveBack` | u9_vector/firmware/floppysrc/tff.c:236-257 | exactly the clusters of the chain become free, and the other chains stay |
| `FileData.SectorInjective` | u9_vector/firmware/floppysrc/tff.c:325-335 | different sectors of a file are different sectors of the volume |
| `FileData.ContentIsConcatenation` | u9_vector/firmware/floppysrc/tff.c:904-963 | the bytes of a file, looked up sector by sector, are the leading bytes of the concatenation of the clusters of its chain |
| `FileObject.FIL.constructor` | u9_vector/firmware/floppysrc/tff.c:882-896 | the end of f_open establishes the cursor invariant at the top of the file |
| `FileObject.FIL.StepRead` | u9_vector/firmware/floppysrc/tff.c:930-942 | on a sector boundary the cursor moves to the next sector of the chain, through the table at the end of a cluster |
| `FileObject.FIL.ReadOrWrite` | u9_vector/firmware/floppysrc/tff.c:904-970 | what the shared read/write loop leaves in the buffer, in the file, in the cursor and in the window, for both modes |
| `FileObject.FIL.Read` | u9_vector/firmware/floppysrc/tff.c:988-996 | f_read delivers the bytes from the pointer to the end of the request or of the file, says how many, keeps the cursor invariant and changes neither table nor data; the bytes are those of the file if and only if the window does not hold, with other bytes than the disk, a sector that the first disk_read takes (which sectors these are follows from the cursor before the call) |
| `FileObject.FIL.SeenRight` | u9_vector/firmware/floppysrc/tff.c:944-951 | the bytes of the file as read past the window are the bytes of the file if and only if that is so |
| `FileObject.FIL.Fresh` | u9_vector/firmware/floppysrc/tff.c:944-951 | it is so when the window is clean or holds none of the whole sectors of the transfer |
| `FileObject.FIL.WriteInPlace` | u9_vector/firmware/floppysrc/tff.c:978-986 | f_write_inplace changes only sectors of the file; on sector boundaries the bytes asked for, and no others, are replaced; in general InPlace says which (with no whole sector of the transfer in the window; for that case see Bypass.WritePast) |
| `Bypass.WritePast` | u9_vector/firmware/floppysrc/tff.c:944-956 | whole sectors written past the window, then the window moved to one of them, straight away or by way of another sector: it shows the bytes written if and only if it was not on that sector (or was clean and went elsewhere in between), or held these very bytes |
| `Bypass.ReadPast` | u9_vector/firmware/floppysrc/tff.c:944-951 | whole sectors read past the window: for each of them what is read is what the volume holds if and only if it is not dirty in the window with other bytes |
| `Transfer.InPlaceExactly` | u9_vector/firmware/floppysrc/tff.c:928-963 | f_write_inplace does what its name says for all contents if and only if position and length are multiples of 512 or the length is 0 |
| `Transfer.InPlaceAligned` | u9_vector/firmware/floppysrc/tff.c:943-956 | on sector boundaries what is written is the replacement of that range |
| `ExampleVolume.StaleWindow` | u9_vector/firmware/floppysrc/tff.c:1049-1056 | a sector in the window after a partial read, then overwritten as a whole: the disk has the new bytes and the window still shows the old ones |
| `ExampleVolume.StaleRead` | u9_vector/firmware/floppysrc/tff.c:944-951 | f_write of one byte at the top of a file, f_lseek back and f_read of the whole sector: without an error, what is read is not what the file holds |
| `FileObject.FIL.NextCluster` | u9_vector/firmware/floppysrc/tff.c:1034-1042 | the next cluster of a file being written is the next of its chain or a newly allocated one at its end |
| `FileObject.FIL.Write` | u9_vector/firmware/floppysrc/tff.c:1006-1078 | f_write replaces and extends the file from the pointer on; its chain grows by free clusters; nothing outside the file changes; everything is written, and the cursor invariant holds afterwards, if and only if before the call chain and free clusters were enough for the new end; otherwise no cluster is left, sect_clust is 0 and the pointer is past the chain |
| `Transfer.WriteFits` | u9_vector/firmware/floppysrc/tff.c:1034-1042 | a loop that takes free clusters as it goes gets to the end exactly if chain and free clusters were enough at its start |
| `ExampleVolume.WriteWhenFull` | u9_vector/firmware/floppysrc/tff.c:1034-1042 | on a full volume f_write at the end of a file reports no error, writes nothing and leaves a wrong cursor |
| `Transfer.OverwrittenIsSplice` | u9_vector/firmware/floppysrc/tff.c:1028-1071 | what f_write makes of the bytes is the old prefix, the new bytes and the old rest |
| `Transfer.GrowFile` | u9_vector/firmware/floppysrc/tff.c:1034-1045 | a file with one more cluster is still a file, of the same size, on a well-formed table |
| `FileObject.FIL.Seek` | u9_vector/firmware/floppysrc/tff.c:1154-1224 | f_lseek: without write access the pointer is the target cut to the size and nothing else changes; with it, chain and size grow as needed; the target is reached if and only if chain and free clusters were enough for it before the call, and the cursor invariant holds if and only if they were or the file had no cluster and none was free |
| `ExampleVolume.SeekWhenFull` | u9_vector/firmware/floppysrc/tff.c:1199-1208 | on a full volume f_lseek past the end reports no error, stops short and leaves a wrong cursor |
| `FileObject.FIL.SkipClusters` | u9_vector/firmware/floppysrc/tff.c:1189-1205 | the loop of f_lseek skips whole clusters, stretching the chain in write mode |
| `Transfer.SeekMisses` | u9_vector/firmware/floppysrc/tff.c:1199-1208 | after a seek cut short in a file with clusters, the sector number of the cursor is not the sector of the pointer |
| `FileObject.FIL.Sync` | u9_vector/firmware/floppysrc/tff.c:1087-1117 | f_sync of a written file stamps exactly its directory entry and leaves nothing dirty; the contents of the file and the table stay |
| `FileObject.StampedReads` | u9_vector/firmware/floppysrc/tff.c:1103-1111 | a later f_open finds the size and start cluster that f_sync stored; name and other entries are untouched |
| `Sessions.BystanderKept` | u9_vector/firmware/floppysrc/tff.c:1006-1078 | growing and writing one file leaves the chain and the bytes of every other file alone |
| `Sessions.AppendAll` | u9_vector/firmware/floppysrc/tff.c:1006-1078 | any number of f_write calls of any sizes append the pieces one after the other; without disk errors they all succeed if and only if there is room for all pieces before the first |
| `Sessions.WriteThenRead` | u9_vector/firmware/floppysrc/tff.c:1006-1224 | pieces written by any number of calls, f_sync, f_lseek and f_read: the bytes read are those of the old contents followed by all pieces, and every other file keeps its chain and bytes; without disk errors this happens if and only if there is room |
| `Truncation.RenewedReads` | u9_vector/firmware/floppysrc/tff.c:852-868 | a later f_open finds an empty plain file of the same name; the other entries of the sector are untouched |
| `Truncation.DirectoryApart` | u9_vector/firmware/floppysrc/tff.c:847-861 | freeing a file takes no cluster from a directory |
| `Truncation.Truncate` | u9_vector/firmware/floppysrc/tff.c:847-868 | the file's clusters, and no others, become free, the free count rises by their number, and outside the table only the entry changes |
| `Truncation.OpenCreating` | u9_vector/firmware/floppysrc/tff.c:842-896 | f_open with a creating flag of an object that exists: FR_EXIST with FA_CREATE_NEW; an empty file whose clusters are free and whose entry is renewed with FA_CREATE_ALWAYS; the file as it is otherwise; read-only entries, directories and the root are denied |
| `Truncation.RewriteThenRead` | u9_vector/firmware/floppysrc/tff.c:842-1224 | f_open anew, any number of f_write calls, f_sync, f_lseek, f_read: the bytes read are exactly the pieces joined together, and every other file keeps its chain and bytes; without disk errors this happens if and only if the file is there, may be written, and its clusters and the free ones are enough |
| `ExampleVolume.RewriteA` | u9_vector/firmware/floppysrc/tff.c:842-1224 | all of it on a volume with two files and no free cluster |
| `Calls.Do` | u9_vector/firmware/floppysrc/tff.c:904-1224 | each of f_read, f_write, f_lseek and f_sync is one step of a byte sequence with a pointer, as long as it moves no whole sector past a window that holds it; without disk errors it works if and only if there is room for the size it reaches; which sector of the file the window may hold afterwards is what HeldAfter says |
| `Calls.Perform` | u9_vector/firmware/floppysrc/tff.c:904-1224 | any mix of f_read, f_write, f_lseek and f_sync on one file, with transfers of any size that pass the window by a condition on the calls alone: the file goes through the states of a byte sequence with a pointer, the reads deliver its bytes, every other file keeps its chain and bytes; without disk errors all calls work if and only if the clusters before the first are enough for the largest size reached |
| `Calls.SmallCallsPass` | u9_vector/firmware/floppysrc/tff.c:957-962 | calls with transfers below a sector always meet that condition |
| `Calls.HeldAfterTransfer` | u9_vector/firmware/floppysrc/tff.c:928-963 | after a transfer the window holds at most the sector of the file that was moved in part last |
| `Calls.SomethingHeld` | u9_vector/firmware/floppysrc/tff.c:63-95 | for every window there is a first value of what it holds, so the condition can always be asked |
| `Remount.AppendKeepsTree` | u9_vector/firmware/floppysrc/tff.c:1006-1078 | growing and writing a file that shares no cluster with a directory leaves the directory tree as it is |
| `Remount.StampKeepsTree` | u9_vector/firmware/floppysrc/tff.c:1103-1111 | stamping a file's entry leaves the directory tree as it is |
| `Remount.FoundAgain` | u9_vector/firmware/floppysrc/tff.c:489-545 | on a volume whose directories hold the same kinds of entries a path leads to the same place |
| `Remount.AppendAtPath` | u9_vector/firmware/floppysrc/tff.c:872-1117 | f_open by path, any number of f_write calls, f_sync: the path still leads to the file, whose entry now has the new size and start; without disk errors this happens if and only if the file is there, may be written, and the clusters are enough |
| `Remount.AppendAndRemount` | u9_vector/firmware/floppysrc/tff.c:872-1224 | and after the volume has been mounted anew from nothing but the disk, f_open, f_lseek and f_read by the same path deliver the old bytes followed by the pieces |
| `Names.MakeDirFile` | u9_vector/firmware/floppysrc/tff.c:426-480 | a segment is accepted exactly when it is a name (one to eight allowed characters, then dots and up to three more); the buffer then holds the padded upper-case name and the result is the character that ended the segment |
| `Names.NameRoundTrip` | u9_vector/firmware/floppysrc/tff.c:382-480 | for every accepted segment, printing the 11 bytes and parsing the text gives the same 11 bytes |
| `Names.CanonicalNames` | u9_vector/firmware/floppysrc/tff.c:382-480 | printing after parsing gives the segment back if and only if it has no lower-case letters and either no dot or a single one before an extension |
| `Names.TextOfName` | u9_vector/firmware/floppysrc/tff.c:391-409 | the printed form of a parsed name: both parts in upper case, with a dot if there is an extension |
| `Names.RejectedForGood` | u9_vector/firmware/floppysrc/tff.c:437-479 | a character at which the parser gives up makes the whole segment no name, whatever follows it |
| `Names.TwoDots` | u9_vector/firmware/floppysrc/tff.c:445-449 | repeated dots are accepted: A..B is A.B |
| `Names.StoredAsDeleted` | u9_vector/firmware/floppysrc/tff.c:451-457 | with the S-JIS branch off, a name is stored under the mark of a deleted entry if and only if it begins with 0xE5 |
| `Names.LostName` | u9_vector/firmware/floppysrc/tff.c:451-457 | such a name |
| `Directory.AndIsRem` | u9_vector/firmware/floppysrc/tff.c:360 | the mask with the cluster size less one is the remainder by it, for powers of two |
| `Directory.IndexStep` | u9_vector/firmware/floppysrc/tff.c:354-360 | the 16-bit index, wrap-around included, meets sector and cluster borders where the true position does |
| `Directory.FileInfo.Fill` | u9_vector/firmware/floppysrc/tff.c:382-415 | the file information is that of the entry: printed name, attribute, size, date and time |
| `Directory.ChainStep` | u9_vector/firmware/floppysrc/tff.c:359-367 | from the last sector of a cluster the walk goes on in the next cluster of the chain, and ends at the end of the chain |
| `Directory.DIR.NextEntry` | u9_vector/firmware/floppysrc/tff.c:345-371 | moves to the next entry of the table; fails only at its end or on a disk error; changes neither table nor data |
| `Directory.DIR.ReadDir` | u9_vector/firmware/floppysrc/tff.c:1275-1302 | returns the next listed entry and leaves the rest to be listed, or an empty name at the end, where it stays; a disk error may cut the listing short but never makes up, repeats or skips an entry |
| `Directory.ListedAre` | u9_vector/firmware/floppysrc/tff.c:1289-1299 | exactly the visible entries with no end mark before them are listed |
| `Directory.ListedInOrder` | u9_vector/firmware/floppysrc/tff.c:1289-1299 | in table order, each once |
| `Directory.VisibleExactly` | u9_vector/firmware/floppysrc/tff.c:1295-1298 | an entry is shown if and only if it is neither deleted nor a volume label and does not have both name and extension blank |
| `Directory.BlankEntry` | u9_vector/firmware/floppysrc/tff.c:1295-1298 | a plain, undeleted entry that f_readdir passes over: one whose name is all spaces |
| `Directory.ListAll` | u9_vector/firmware/floppysrc/tff.c:1275-1302 | f_readdir until it returns an empty name yields the listed names in order; without disk errors it succeeds unless the object is refused |
| `Paths.FindIsFirst` | u9_vector/firmware/floppysrc/tff.c:523-533 | the search finds the first live entry of that name before the end mark |
| `Paths.SearchName` | u9_vector/firmware/floppysrc/tff.c:523-533 | the search loop stops at that entry with its sector in the window, or reports that there is none |
| `Paths.TracePath` | u9_vector/firmware/floppysrc/tff.c:489-545 | without disk errors the result is the entry the path means in the directory tree, or the reason why it means none; an entry that is returned is right in any case |
| `Paths.ResolvedInTree` | u9_vector/firmware/floppysrc/tff.c:534-543 | what a path leads to is an entry of a directory of the tree |
| `Paths.OpenDir` | u9_vector/firmware/floppysrc/tff.c:1234-1266 | the directory object stands at the first entry to be listed of the directory the path names; without disk errors failure means that it names none |
| `Paths.ListPath` | u9_vector/firmware/floppysrc/tff.c:1234-1302 | f_opendir and repeated f_readdir: the names of the visible entries of the directory up to its end mark, in order, without the dot entries of a sub-directory; without disk errors and with a ready disk it succeeds if and only if the path names a directory |
| `Paths.Open` | u9_vector/firmware/floppysrc/tff.c:872-896 | f_open of an existing file yields a file object for the entry the path names, with the cursor invariant; without disk errors it fails only if there is no such file or it is read-only and to be written |
| `Paths.ReadFile` | u9_vector/firmware/floppysrc/tff.c:872-1224 | f_open, f_lseek and f_read deliver bytes min(ofs,size) to min(ofs+n,size) of the file the path names; without disk errors and with a ready disk this happens if and only if it names one |
| `Floppy.OffsetValue` | u9_vector/firmware/floppysrc/fddimage.c:76-83 | within the geometry the 32-bit arithmetic does not wrap |
| `Floppy.BlocksApart` | u9_vector/firmware/floppysrc/fddimage.c:76-83 | different addresses have disjoint blocks |
| `Floppy.AnotherName` | u9_vector/firmware/floppysrc/fddimage.c:76-83 | an address outside the geometry means the block of one inside it, as long as its linear number is in the range of those |
| `Floppy.SectorSix` | u9_vector/firmware/floppysrc/fddimage.c:76-83 | sector 6 of side 1 is sector 1 of side 0 |
| `Floppy.TrackCount` | u9_vector/firmware/floppysrc/fddimage.c:51 | the track count of fdd_load is the number of tracks of the image if and only if that is a multiple of 32 below 256 and less than a fifth of a track is left over |
| `Floppy.OneTrack` | u9_vector/firmware/floppysrc/fddimage.c:51 | an image of one track gets 25 |
| `Floppy.ImageUpdate` | u9_vector/firmware/floppysrc/fddimage.c:103-113 | replacing a block of the file changes the map at that address and nowhere else |
| `Floppy.FDDImage.ReadSector` | u9_vector/firmware/floppysrc/fddimage.c:85-101 | delivers the block at the current address, or what the image has of it, and changes nothing |
| `Floppy.FDDImage.WriteSector` | u9_vector/firmware/floppysrc/fddimage.c:103-113 | replaces the block at the current address in the map; at the end of the image, what f_write_inplace makes of the part there is; no sector outside the image changes |
| `Floppy.Serve` | u9_vector/firmware/floppysrc/slave.c:108-193 | over every sequence of seeks, reads and writes, and any fragmentation of the image, image and buffer go through the states Served describes, whether the addresses are valid or not; when they all lie in the image the floppy is a map: replies are what the map says, writes update it; nothing outside the image changes |
| `Floppy.ServesAsMap` | u9_vector/firmware/floppysrc/slave.c:108-193 | the block-wise description of a run inside the image and the map agree |
| `QuickSort.Partition` | u9_vector/firmware/cc65libsrc/libsrc/common/qsort.c:26-43 | after one round everything before the pivot is at most it and everything after it at least, and the range is rearranged within itself |
| `QuickSort.Sort` | u9_vector/firmware/cc65libsrc/libsrc/common/qsort.c:13-52 | the range is sorted and a rearrangement of itself, nothing outside changes, and the nesting of calls is at most log2 of its length plus one |
| `QuickSort.QSort` | u9_vector/firmware/cc65libsrc/libsrc/common/qsort.c:56-63 | for every total preorder: sorted, the same elements, and logarithmic depth |
| `QuickSort.BSearch` | u9_vector/firmware/cc65libsrc/libsrc/common/bsearch.c:13-46 | the first index whose element equals the key; none if and only if no element does |
| `QuickSort.SortThenSearch` | u9_vector/firmware/cc65libsrc/libsrc/common/bsearch.c:13-46 | after sorting, a key is found if and only if an equal element was there before |
| `Calendar.FieldsUnique` | u9_vector/firmware/cc65libsrc/libsrc/common/mktime.c:94-162 | in-range fields are determined by the instant they denote |
| `Calendar.ExcessBounds` | u9_vector/firmware/cc65libsrc/libsrc/common/mktime.c:164-171 | one leap day per year divisible by 4 equals the sum of the true year lengths from 1901 to the start of 2101, and from then on never again |
| `Calendar.CarryKeeps` | u9_vector/firmware/cc65libsrc/libsrc/common/mktime.c:94-118 | the carries of seconds, minutes and hours keep the instant and put minutes and hours in range; seconds come out negative exactly for a negative number that is no multiple of 60 |
| `Calendar.Tm.CarryMonths` | u9_vector/firmware/cc65libsrc/libsrc/common/mktime.c:123-154 | the month loop ends, keeps the day denoted and puts month and day in range, save for a day of 0 |
| `Calendar.Tm.MkTime` | u9_vector/firmware/cc65libsrc/libsrc/common/mktime.c:78-188 | fields are brought into range without moving their instant, exactly if the seconds are not negative (or a multiple of 60) and the carried day is at least 1; normal fields stay as they are; error returns exactly for minutes, hours, days or a year below zero after the carry; for every call not refused whose year comes out in 16 bits, the result is the instant modulo 2^32 if and only if the seconds given are not negative (or a multiple of 60) and the day given, after the carry of the clock, is one of 1970 to 2100 |
| `Calendar.CoveredIs` | u9_vector/firmware/cc65libsrc/libsrc/common/mktime.c:123-171 | that condition on the fields given is the one on the year and date that result |
| `Calendar.SecondsRight` | u9_vector/firmware/cc65libsrc/libsrc/common/mktime.c:164-183 | the arithmetic on carried fields, in range or not, yields the instant modulo 2^32 if and only if no second is negative, the year is one of 1970 to 2100, and the date is not day 0 of January 1970 |
| `Calendar.DayCountOff` | u9_vector/firmware/cc65libsrc/libsrc/common/mktime.c:164-171 | the 16-bit day count is right exactly for those years and dates, and by how much it is off otherwise |
| `Calendar.NewYear2101` | u9_vector/firmware/cc65libsrc/libsrc/common/mktime.c:164-171 | the first day it gets wrong |
| `Calendar.NegativeSecond` | u9_vector/firmware/cc65libsrc/libsrc/common/mktime.c:180-183 | five seconds before 00:01 on 1 January 2000 come out 65536 seconds too late, since tm_sec is cast to unsigned |
| `Calendar.NegativeSecondAccepted` | u9_vector/firmware/cc65libsrc/libsrc/common/mktime.c:83-118 | and no check refuses them |
| `Calendar.DayZero` | u9_vector/firmware/cc65libsrc/libsrc/common/mktime.c:164-171 | day 0 of March 2000 is taken for the last of February, day 0 of January 1970 comes out wrong |
| `Calendar.LocalTime` | u9_vector/firmware/cc65libsrc/libsrc/common/localtime.c:46-73 | for 0 <= t < 2^31 the one in-range Gregorian date and time of t, with its day of the year and weekday; null otherwise |
| `Calendar.RoundTrip` | u9_vector/firmware/cc65libsrc/libsrc/common/localtime.c:46-73 | mktime of what localtime returns is t |
| `Scanf.Scanner.ReadChar` | u9_vector/firmware/cc65libsrc/libsrc/common/_scanf.c:222-265 | the stream and the 16-bit count move together, except at the end of input |
| `Scanf.Scanner.PushBack` | u9_vector/firmware/cc65libsrc/libsrc/common/_scanf.c:175-218 | the character read ahead goes back into the stream and out of the count, unless it is EOF |
| `Scanf.Scanner.SkipWhite` | u9_vector/firmware/cc65libsrc/libsrc/common/_scanf.c:299-305 | goes to the first character that is no white space |
| `Scanf.Scanner.ReadSign` | u9_vector/firmware/cc65libsrc/libsrc/common/_scanf.c:311-339 | takes one sign, if there is one |
| `Scanf.LongestIsRunEnd` | u9_vector/firmware/cc65libsrc/libsrc/common/_scanf.c:362-367 | what the reading loops stop at is the end of the longest sequence of such characters within the width |
| `Scanf.Scanner.ReadInt` | u9_vector/firmware/cc65libsrc/libsrc/common/_scanf.c:355-376 | takes the longest sequence of digits within the width; the value is theirs modulo 2^32; a failure if and only if their number is a multiple of 256 |
| `Scanf.Scanner.ScanInt` | u9_vector/firmware/cc65libsrc/libsrc/common/_scanf.c:416-462 | white space, sign, base prefix and digits become one signed integer in the object, cut to its size |
| `Scanf.ManyZeros` | u9_vector/firmware/cc65libsrc/libsrc/common/_scanf.c:358-372 | the eight-bit counter: 256 zeros are taken for no number |
| `Scanf.PrintedNumberScans` | u9_vector/firmware/cc65libsrc/libsrc/common/_scanf.c:355-462 | a number below 2^32 in decimal, with a sign or without, scans back to itself and nothing behind it is consumed |
| `Scanf.Scanner.ScanText` | u9_vector/firmware/cc65libsrc/libsrc/common/_scanf.c:644-665 | %s stores the next word, cut at the width; a failure at the end of input |
| `Scanf.Scanner.ScanChars` | u9_vector/firmware/cc65libsrc/libsrc/common/_scanf.c:667-694 | %c stores exactly as many characters as the width says, or fails and leaves the fragment there is |
| `Scanf.Scanner.AddRange` | u9_vector/firmware/cc65libsrc/libsrc/common/_scanf.c:729-735 | a range adds the characters from the first up to the last, going round at 255 |
| `Scanf.Scanner.ReadSet` | u9_vector/firmware/cc65libsrc/libsrc/common/_scanf.c:698-755 | the set and the end of a bracket expression are those of SetAt, also for one that is not closed |
| `Scanf.PlainSet` | u9_vector/firmware/cc65libsrc/libsrc/common/_scanf.c:713-745 | without ranges, the set consists of the characters that stand there |
| `Scanf.Scanner.ScanSet` | u9_vector/firmware/cc65libsrc/libsrc/common/_scanf.c:696-780 | %[ stores the longest sequence of members of the set; a failure when it is empty |
| `Scanf.Scanner.ScanPointer` | u9_vector/firmware/cc65libsrc/libsrc/common/_scanf.c:782-804 | %p takes 0x and hexadecimal digits |
| `Scanf.Scanner.StoreCount` | u9_vector/firmware/cc65libsrc/libsrc/common/_scanf.c:806-816 | %n stores the number of characters consumed before the one read ahead, and is not counted |
| `Scanf.Scanner.ReadSpec` | u9_vector/firmware/cc65libsrc/libsrc/common/_scanf.c:555-615 | suppression mark, width (modulo 2^16) and length modifier are those of the specification |
| `Scanf.WidthExactly` | u9_vector/firmware/cc65libsrc/libsrc/common/_scanf.c:561-569 | the width that counts is the number written if and only if that is below 65536 |
| `Scanf.Width65536` | u9_vector/firmware/cc65libsrc/libsrc/common/_scanf.c:561-580 | %65536d is refused as an invalid format |
| `Scanf.DeleteIsSkipped` | u9_vector/firmware/cc65libsrc/libsrc/common/_scanf.c:299-305 | character 127 is skipped as white space |
| `Scanf.Scanner.Convert` | u9_vector/firmware/cc65libsrc/libsrc/common/_scanf.c:555-845 | each conversion does what its specification says; a width of zero, unknown and unimplemented conversions leave the input alone |
| `Scanf.Scanner.Walk` | u9_vector/firmware/cc65libsrc/libsrc/common/_scanf.c:509-847 | the walk is a sequence of directives, each from where the last one ended, up to the end of the format or the first one that fails |
| `Scanf.Scanner.Scanf` | u9_vector/firmware/cc65libsrc/libsrc/common/_scanf.c:482-864 | on every return, failures included, the stream has moved by the characters counted (modulo 2^16) and consumed, with the one read ahead given back; what is stored is read off disjoint parts of the input from left to right; the result is the number of assignments, or EOF exactly for an invalid format or a failure at the end of input before any conversion |

## Left out

- FAT32, FSInfo, S-JIS and NT-flag branches: switched off in tff.h.
- auto_mount, check_fs and f_mount: a consistent volume is assumed instead; a path comes without the leading spaces and slash that auto_mount strips.
- Creating an entry (reserve_direntry and that part of f_open), f_unlink, f_mkdir, f_chmod, f_rename, f_stat and f_close.
- get_fattime: the time is a parameter.
- mmc.c: replaced by an array of sectors; commands, timeouts, busy waits and write protection are not modelled.
- File flags are booleans, the directory pointer `dir_ptr` an offset in the window, `FatFs` the receiver.
- Sector numbers, file positions and sizes are mathematical integers below 2^32 where the contracts say so; 16-bit fields and wrap-arounds of the source are modelled where they occur (index, free count, byte counters, calc_offset).
- fdd_readadr and the status registers of slave.c: not used for addressing.
- qsort and bsearch work on array elements, so the multiplication of indices by the element size, and its 16-bit overflow, is not modelled; nor is the overflow of `last + first`.
- The fields of struct tm are mathematical integers; the 16-bit overflow of a carry is not modelled.
- Calendar.Tm.MkTime: says nothing about clock fields that an error return leaves half carried; a negative month that is no multiple of 12 indexes outside the month table and is excluded unless the call is refused first.
- Scanf: `setjmp`/`longjmp` are result values, the character set is a set instead of a bit array, and the objects written through the pointer arguments form a list; the number of assignments does not wrap.
- Directory.DIR.ReadDir: a disk error while following a chain ends the listing with FR_OK, as in the source; the contract is exact only when no error occurred.
- Paths.TracePath: a disk error while following a directory's chain is reported as a missing file, as in the source.
- FileObject.FIL.WriteInPlace: excludes calls whose whole sectors include the one in the window; Bypass.WritePast says for any such sector what is found there afterwards.
- FileObject.FIL.Write: the same for f_write.
- Calls.Do: calls that move past the window a whole sector it holds are excluded, to write it or to read it dirty; FileObject.FIL.Read and Bypass.WritePast say what they do.
- Calls.Perform: the same for a sequence of calls.
- FileObject.FIL.ReadOrWrite: the same as WriteInPlace when writing; reading is not restricted.
- Floppy.Serve: an image whose size is no multiple of 512 takes addresses inside it only; a request past its end would leave its last, partial sector in the window, where later whole-sector writes pass it by.
- Truncation.OpenCreating: does not go on to create an entry when the path leads to none.
- strftime, locale, timezone, realloc and the stdio wrappers; menu, OSD and serial code; NesDbg; the hardware descriptions.
