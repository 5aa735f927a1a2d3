# A verified model of the storage, decoding, locking and I/O cores

This project models seven parts of the library and proves what each of them is for.

**The FAT file system (`Library/Fatfs/ff.c`).** The layers are those of the source.
`FatVolume.dfy` is the packed entry codec. `FatWindow.dfy` is the volume object with its one-sector write-back
window, over a medium whose reads and writes may fail at any time. Its abstract state is the list of FAT entries
(`fat`) and the logical contents of all other sectors (`rest`); the second FAT copy is an invariant.
`FatChains.dfy` and `FatAlloc.dfy` are chains, the allocator and the free-cluster count; `FatRuns.dfy` is any sequence
of creating, stretching, cutting and removing files. `FileMap.dfy`,
`FatFile.dfy` and `FileSession.dfy` are the data path of an open file with its private sector cache, against a plain
byte array. `ExFatBitmap.dfy`, `ExFatChain.dfy` and `ExFatObject.dfy` are the exFAT bitmap and the chains that are
written to the FAT only when it is needed. `FormatLayout.dfy` and `FormatVbr.dfy` are the geometry `f_mkfs` chooses,
the boot record it writes and what `check_fs` and `mount_volume` make of it; `FormatUse.dfy` leads from there to the
volume, the allocator and the first file. `LongName.dfy` is the round trip of a
long name through directory slots. `LinkMap.dfy` is the fast-seek link map.

**The inner loop of the deflate decoder (`Library/zlib/inffast.c`).** `InflateSpec.dfy` defines decoding one symbol at
a time on bit strings, as sections 3.2.3 and 3.2.5 of RFC 1951 describe it. `InflateFast.dfy` is the loop with its
bit accumulator, circular window and overlapping copies, proved to compute exactly that.

**Adler-32 (`Library/zlib/adler32.c`).** `Adler32.dfy`: deferred reduction, with and without division, and combining,
against the byte-at-a-time definition of section 8.2 of RFC 1950.

**Shared-memory locks (`Library/sqlite/sqlite3_xin_vfs.c`).** `ShmLocks.dfy`: the registry of lock groups and the
slot locks of any number of open files.

**Serial port operations (`Drive/windows/XSerialPortWin32.c`).** `SerialIo.dfy`: contexts that outlive their port, and
the order of the bytes on their way to the device; slots may call the port and let the event loop run, to any depth.

**io_uring rings (`Drive/Posix/XNetIoRingPosix.c`).** `IoRing.dfy`: the two rings as queues, with the kernel as the
other party.

**Windows command lines (`Drive/windows/XProcess_win32.c`).** `CommandLine.dfy`: quoting, against the splitting rules
of the Microsoft C runtime.

Two idioms recur. A predicate written `forall i {:trigger Unlock(i)} :: Unlock(i) ==> P` (or with `Open` or `Why`) is `P`, seen
by the verifier only where `Unlock(...)` is asserted; it keeps the inside of one layer out of the proofs of the next.
Ghost fields hold the abstract state of an object, and its invariant ties them to the real fields.

Where the code and what is said about it differ, the model follows the code:

- `f_mkfs` accepts layouts without a single cluster, because the check for room precedes the alignment of the data
  area; `mount_volume` rejects those and only those. An accepted layout is one of them exactly when aligning the data area leaves less than
  a cluster (`FatLayout.ChooseLayout`, `FatLayout.AcceptsEmptyVolume`, `FatVbr.FormatAndMount`).
- The FSINFO record written by `f_mkfs` has no trailing signature where `mount_volume` looks for it (offset 498), so its
  free-cluster count is never used; the one written by `sync_fs` is (`FatVbr.WriteInfo`).
- `sync_window` ignores a failed write to the second FAT copy. Copies that agreed, apart from the sector in the window,
  agree after every successful `sync_window` in which that write has not failed (`FatWindow.Volume.SyncWindow`);
  `FatWindow.MirrorLost` is a successful one after which they differ. Which calls of the medium fail, and what a failed
  write leaves, is fixed by functions of the number of the call, about which nothing is assumed. An error is tied to a
  failed call since the mark, a ghost position among the calls that `Mark` moves up to the present; sessions and runs
  set it before every call, and so tie an error to a call of the medium within.
- A slot that closes the serial port from inside `readyRead` or `bytesWritten` frees the operation context the event
  handler goes on with. With slots that only call the port, the handler uses a freed context exactly when one of them
  closes it before a use (`SerialIo.SerialPort.OnEvent`, `SerialIo.FailingRun`). With slots that let further events be
  dispatched there is one more way: the device refuses an operation that is submitted under the handler
  (`SerialIo.NestedFailingRun`). Every other run is safe (`SerialIo.Run`).
- Bytes that a closed port has left in its write ring are in order with later ones only if the next write cannot
  overtake them: the port remembers a write under way, or the ring is empty when it is opened again
  (`ordered` in `SerialIo.SerialPort.Open`).
- A command line cannot be built when a text that needs quotes holds a non-ASCII character, because the bytes inside
  quotes are appended one by one and a single lead byte is refused; nor when the program or a given argument is empty,
  because an empty `XString` has no C string. Otherwise it is built (`CommandLine.Command.Build`,
  `CommandLine.AccentedBlank`, `CommandLine.EmptyGiven`). `XString_toUtf8` ends at the first NUL, so what the child gets
  back are the arguments cut there; they are the ones given if and only if no text holds a NUL
  (`CommandLine.SeenAsMeant`).
- A link map cannot be built when the end mark of a chain equals the number after its last cluster
  (`LinkMap.Build`, in both directions; `LinkMap.MarkCanFollow` is such a table).
- `get_fat` on exFAT takes a cluster inside a chain for the last one while the links of the last fragment are not yet
  written (`LazyChain.LookupAgrees`); `f_lseek` and `f_sync` write them first.

## Model

| member | source | states |
|---|---|---|
| FatCodec.PutThenGet | Library/Fatfs/ff.c:1199-1216 | A stored FAT12/16/32/exFAT entry is loaded back as the value cut to the entry width. |
| FatCodec.PutLeavesOthers | Library/Fatfs/ff.c:1273-1305 | Storing an entry changes no other one, including FAT12 neighbours that share a byte. |
| FatCodec.PutKeepsReservedBits | Library/Fatfs/ff.c:1300-1302 | The upper four bits of every FAT32 entry survive all stores. |
| FatCodec.FirstByteOnly | Library/Fatfs/ff.c:1278-1283 | A FAT12 store that fails between its two sectors is a store of some other value to the same entry. |
| FatWindow.Volume.SyncWindow | Library/Fatfs/ff.c:1063-1081 | It fails exactly when the window is dirty and the first write fails. Success leaves the window clean and the medium with the window in its sector and, for a FAT sector of two copies, what the second write left in the other; copies that agreed apart from the window agree afterwards unless that write failed. The logical volume does not change. |
| FatWindow.MirrorLost | Library/Fatfs/ff.c:1075 | A successful `sync_window` after which the two copies differ. |
| FatWindow.Volume.MoveWindow | Library/Fatfs/ff.c:1085-1106 | Success shows the logical contents of the sector; the logical volume does not change even on a disk error. |
| FatWindow.Volume.GetFat | Library/Fatfs/ff.c:1192-1216 | Returns the entry of the abstract FAT through the window, 1 out of range, or 0xFFFFFFFF, and that only after a failed call of the medium. |
| FatWindow.Volume.PutFat | Library/Fatfs/ff.c:1271-1308 | Success changes exactly the one entry of the abstract FAT; failure changes no other entry. |
| FatWindow.Volume.PutFat12 | Library/Fatfs/ff.c:1273-1285 | The two-byte store, possibly across two sectors, encodes the value in the FAT image. |
| FatWindow.Volume.DataWrite | Library/Fatfs/ff.c:4084 | A sector write changes that sector only, also when it fails. |
| FatTable.ChainDistinct | Library/Fatfs/ff.c:1475-1507 | No cluster occurs twice in a chain that ends. |
| FatTable.FreedChain | Library/Fatfs/ff.c:1475-1507 | Following and freeing a chain zeroes exactly its members. |
| FatTable.PartitionExtend | Library/Fatfs/ff.c:1621-1624 | Stretching one chain by a free cluster keeps the FAT a set of disjoint chains. |
| FatTable.PartitionRemove | Library/Fatfs/ff.c:1475-1507 | Removing a chain keeps the FAT a set of disjoint chains. |
| FatTable.PartitionTruncate | Library/Fatfs/ff.c:1469-1507 | Cutting a chain and freeing its tail keeps the FAT a set of disjoint chains. |
| FatAlloc.RemoveChain | Library/Fatfs/ff.c:1450-1507 | Ends on every FAT content, cyclic or cross-linked; the FAT is what freeing along the links makes of it; a known free count stays known and exact, an unknown one unknown; errors are a bad cluster number, an entry 1 or a failed call of the medium. |
| FatAlloc.FindFree | Library/Fatfs/ff.c:1607-1620 | The wrap-around search ends, returns only a free cluster, and 0 only when there is none. |
| FatAlloc.CreateChain | Library/Fatfs/ff.c:1555-1637 | Takes one free cluster and links it behind the given one, or returns the existing successor; 0 only on a full volume when the count is exact; a known free count stays known and exact; other used entries stay, also on a disk error. |
| FatAlloc.GetFree | Library/Fatfs/ff.c:4839-4904 | A known count is returned as it is; otherwise the scan counts the zero entries, which is the free count when the two reserved entries are not zero. |
| FatAlloc.ScanFatWords | Library/Fatfs/ff.c:4879-4897 | The sector-wise FAT16/32 scan counts all zero entries. |
| FatRuns.Allocator.CreateFile | Library/Fatfs/ff.c:1555-1637 | A new file is one more chain of one cluster that was free, or the volume is full. |
| FatRuns.Allocator.StretchAt | Library/Fatfs/ff.c:1555-1637 | For any cluster number: refused exactly when it is no used cluster, 0 only at the end of a chain with no cluster free, answered by its successor, or the chain that ends there grows by one; 0xFFFFFFFF only after a failed call of the medium. |
| FatRuns.Allocator.CutAfter | Library/Fatfs/ff.c:4934-4942 | For any cluster number: exactly what follows it in its chain is removed, if anything does. |
| FatRuns.Allocator.RemoveFile | Library/Fatfs/ff.c:4931-4933 | Exactly the chain that starts at the given cluster is gone. |
| FatRuns.Allocator.Run | Library/Fatfs/ff.c:1450-1638 | Over every sequence of these, up to a failed call of the medium within it, the FAT is a set of disjoint chains that end, one for each file, and a known free count stays known and exact. |
| FileMap.SectorsDistinct | Library/Fatfs/ff.c:1165-1176 | No sector belongs to a file twice. |
| FileMap.BytesAfterPatch | Library/Fatfs/ff.c:4115-4124 | Patching the cached sector is overwriting the file at the file pointer. |
| FileMap.RunBytes | Library/Fatfs/ff.c:4079-4099 | Writing whole sectors directly is overwriting the file at the file pointer. |
| FileMap.RunDataOk | Library/Fatfs/ff.c:4092-4095 | After a direct write the cached sector and the medium still agree with the file. |
| FileMap.OverwriteTwice | Library/Fatfs/ff.c:4043-4125 | Two writes in a row are one write of both pieces. |
| FileMap.ClusterOfByte | Library/Fatfs/ff.c:4526-4531 | The cluster arithmetic of a seek finds the cluster of the byte before the target. |
| FileMap.OthersApart | Library/Fatfs/ff.c:1555-1624 | A file and all free clusters share no sector with another chain. |
| FatFile.File.FRead | Library/Fatfs/ff.c:3936-4007 | Returns the bytes of the file at the file pointer, clipped at its end, whatever is in the caches; it fails only after a failed call of the medium. |
| FatFile.File.ReadDirect | Library/Fatfs/ff.c:3964-3983 | A direct read of several sectors sees a dirty cached one. |
| FatFile.File.FWrite | Library/Fatfs/ff.c:4034-4129 | The file becomes the old one overwritten at the file pointer; fewer bytes are written only when no free cluster is known or at 4 GiB; errors are a failed call of the medium or a FAT entry 1. |
| FatFile.File.WriteDirect | Library/Fatfs/ff.c:4079-4099 | A direct write of several sectors replaces them and refreshes a cached one among them. |
| FatFile.File.Extend | Library/Fatfs/ff.c:4046-4067 | The file's chain is followed, stretched by one cluster, or started; its contents so far stay. |
| FatFile.File.FLseek | Library/Fatfs/ff.c:4515-4592 | Seeking inside the file moves the pointer only; behind its end the file grows as far as there is room, or the seek is clipped when it is not writable; errors as for f_write. |
| FatFile.File.FollowLoop | Library/Fatfs/ff.c:4545-4565 | The cluster following loop ends at the cluster of the target or on a full volume. |
| FileSession.Session | Library/Fatfs/ff.c:3918-4593 | Every sequence of reads, writes and seeks on one open file behaves as on a plain byte array, until a call of the medium fails within it or the FAT holds an entry 1; if a cluster is free at the end, no write below 4 GiB was short and no seek stopped early. |
| FileSession.SessionKeepsOthers | Library/Fatfs/ff.c:3918-4593 | No such sequence changes a sector or a link of another chain, whatever fails on the way: it is the same chain with the same contents afterwards. |
| FileSession.TraceIsReplay | Library/Fatfs/ff.c:3918-4593 | What reads return is determined by the earlier calls alone. |
| ExFatBitmap.Bitmap.FindFree | Library/Fatfs/ff.c:1336-1357 | For one cluster: ends, returns only a free cluster, 0 only when there is none, and 0xFFFFFFFF only after a failed call of the medium. |
| ExFatBitmap.Bitmap.Change | Library/Fatfs/ff.c:1377-1388 | For one cluster: flips exactly its bit, or reports an internal error exactly when it already had the value; a disk error only after a failed call of the medium, and then nothing has changed. |
| ExFatBitmap.BitsAfterFlip | Library/Fatfs/ff.c:1386 | Flipping a bit of the bitmap changes the state of one cluster only. |
| LazyChain.GrowKeepsLazy | Library/Fatfs/ff.c:1575-1591 | Each status case of create_chain keeps the object and the FAT standing for the chain with the new cluster; entries outside the chain stay. |
| LazyChain.FlushGivesChain | Library/Fatfs/ff.c:1401-1439 | After both fragments are filled the file is contiguous, or its FAT chain is exactly the allocated clusters. |
| LazyChain.LookupAgrees | Library/Fatfs/ff.c:1219-1240 | get_fat finds the successor of a member if and only if the link is known from the status or is on the FAT. |
| LazyChain.GrowthIsExplicit | Library/Fatfs/ff.c:1568-1591 | Any sequence of growing steps followed by the fills gives the explicit chain, and changes no entry outside it. |
| ExFatObject.Object.FillFirstFrag | Library/Fatfs/ff.c:1409-1416 | Writes the links of the contiguous first fragment; fails only with a disk error, after a failed call of the medium. |
| ExFatObject.Object.FillLastFrag | Library/Fatfs/ff.c:1433-1438 | Writes the links of the last fragment and its end; fails only with a disk error, after a failed call of the medium. |
| ExFatObject.Object.CreateChain | Library/Fatfs/ff.c:1555-1637 | Behind the last cluster: takes a cluster that was free in the bitmap and is not in the chain, and moves status and FAT as the growing step says. Behind another member whose link is known: returns its successor and changes nothing. 0 only when no cluster is known to be free, 1 never, and 0xFFFFFFFF only after a failed call of the medium. |
| ExFatObject.Object.Sync | Library/Fatfs/ff.c:4161-4166 | After the fills the chain is contiguous with status 2, or is on the FAT with status 0; other entries stay; fails only with a disk error, after a failed call of the medium. |
| FatLayout.SoundLayout | Library/Fatfs/ff.c:6200-6255 | A layout that passes the final checks fits its fields and the volume, has a FAT for all its clusters, the right sub-type and an aligned data area, in 32-bit arithmetic. |
| FatLayout.PadAligns | Library/Fatfs/ff.c:6231 | The padding is less than an erase block and reaches one, also when addresses wrap around. |
| FatLayout.AutoSelect | Library/Fatfs/ff.c:6199-6212 | The cluster size is doubled once for every table boundary the volume size reaches. |
| FatLayout.Check | Library/Fatfs/ff.c:6244-6273 | Accepts exactly the cluster counts of the sub-type; every retry fixes the cluster size or gives up FAT16. |
| FatLayout.ChooseLayout | Library/Fatfs/ff.c:5941-6273 | The retry loop ends; what it accepts is sound and honours the options; without a given cluster size a FAT12 volume gets the size of the table, or twice that after FAT16 was tried; it has no cluster exactly when aligning the data area leaves less than one; a small volume with a given cluster size is accepted exactly when the system area leaves room before it is aligned. |
| FatLayout.AcceptsEmptyVolume | Library/Fatfs/ff.c:6241-6270 | 128 sectors with erase blocks of 128 sectors are accepted with no cluster at all, through the whole choice. |
| FatVbr.WriteVbr | Library/Fatfs/ff.c:6280-6306 | The boot record holds every field of the layout, untruncated. |
| FatVbr.CheckFs | Library/Fatfs/ff.c:3303-3327 | Says exactly which sectors are taken for FAT and exFAT boot records. |
| FatVbr.FileSystem.MountVolume | Library/Fatfs/ff.c:3518-3567 | Accepts exactly the consistent boot records, and sets the geometry they describe. |
| FatVbr.FormatThenMount | Library/Fatfs/ff.c:6200-6306 | The boot record of an accepted layout is recognised, and mounted if and only if it has a cluster, with the same sub-type, cluster count, FAT base, data base and root. |
| FatVbr.FormatAndMount | Library/Fatfs/ff.c:3518-3567 | Formatting and mounting in a row, over the real bytes: mounted with the promised geometry exactly when aligning the data area leaves a cluster. |
| FatVbr.WriteInfo | Library/Fatfs/ff.c:6308-6319 | The FSINFO record is trusted by a later mount only when it comes from sync_fs. |
| FormatUse.SoundIsUsable | Library/Fatfs/ff.c:6200-6255 | With room for the volume on the medium, what an accepted layout with a cluster promises is all a volume needs: FAT entries within the FAT, both copies before the data area, the last cluster on the medium, nothing wrapped around. |
| FormatUse.Medium.Fill | Library/Fatfs/ff.c:6333-6340 | Writing in pieces of the buffer leaves its first sector and then only zeros, and touches nothing else; it stops exactly when a write fails. |
| FormatUse.Medium.WriteFats | Library/Fatfs/ff.c:6324-6341 | Every copy starts with the reserved entries, and on FAT32 the root directory, and is zero behind them. |
| FormatUse.Medium.WriteVolume | Library/Fatfs/ff.c:6280-6349 | Boot record, FATs and an empty root directory are on the medium, one behind the other and within the volume, exactly if no write fails. |
| FormatUse.Format | Library/Fatfs/ff.c:5941-6349 | The choice of a layout and all writes in a row: what is refused leaves the medium alone, what is accepted is on it exactly if no write fails, and a small volume with a given cluster size is accepted under the exact condition. |
| FormatUse.FreshVolume | Library/Fatfs/ff.c:6324-6341 | A volume over what was written finds every cluster free but the FAT32 root directory, and reserved entries that are not zero, as counting free clusters needs it. |
| FormatUse.FreshPartition | Library/Fatfs/ff.c:6324-6341 | Its FAT is a set of disjoint chains, none or that of the root directory, and the number of free clusters is that of all clusters less it. |
| FormatUse.FormatAndStart | Library/Fatfs/ff.c:6200-6349 | `f_mkfs`, a mount of the boot record it left on the medium, and a first empty file: allocator and file exist, with all their invariants and two equal FAT copies, exactly when a layout is accepted, every write succeeds and aligning the data area leaves a cluster; nothing outside the volume changes. |
| LongName.PutLfn | Library/Fatfs/ff.c:1982-2007 | Writes one part of the name, terminator and filler, and marks the last part. |
| LongName.PickLfn | Library/Fatfs/ff.c:1944-1972 | Never stores past the buffer; stores exactly the part of the name and, with the last one, the terminator. |
| LongName.DirRegister | Library/Fatfs/ff.c:2551-2580 | The slots hold all parts, last first, and the short entry with the checksum of the parts. |
| LongName.DirRead | Library/Fatfs/ff.c:2348-2386 | A registered entry set behind deleted slots is found with its long name in the buffer. |
| LongName.RegisterAndRead | Library/Fatfs/ff.c:2367-2386 | Every name of 1 to 255 units comes back exactly, also at multiples of 13. |
| LinkMap.Build | Library/Fatfs/ff.c:4465-4489 | The table maps the chain, or the size it would need is reported; it fails exactly when the end mark follows the last cluster, or after a failed call of the medium. |
| LinkMap.MarkCanFollow | Library/Fatfs/ff.c:4472-4478 | A table in which the map cannot be built. |
| LinkMap.ClmtClust | Library/Fatfs/ff.c:1650-1669 | Returns the cluster of the chain in whose bytes the offset lies, or 0 past the end. |
| LinkMap.LookupFinds | Library/Fatfs/ff.c:1662-1668 | Walking the pairs is indexing the expanded chain. |
| LinkMap.ExpandAppend | Library/Fatfs/ff.c:4481-4483 | Storing one more fragment appends its clusters. |
| Deflate.CopyAt | Library/zlib/inffast.c:252-258 | Every byte of a match equals the one a distance before it, overlapping or not. |
| Deflate.CopyShort | Library/zlib/inffast.c:199-238 | The first bytes of a match are the last ones before it. |
| InflateFast.Inflater.LoadByte | Library/zlib/inffast.c:105-106 | Taking a byte into the accumulator does not change the unread bit stream. |
| InflateFast.Inflater.HoldBound | Library/zlib/inffast.c:103-168 | The accumulator never exceeds 32 bits. |
| InflateFast.Inflater.DecodeSymbol | Library/zlib/inffast.c:110-115 | One or two table levels give the code the symbol-wise definition gives. |
| InflateFast.Inflater.CopyMatch | Library/zlib/inffast.c:169-264 | In every window case, and for every overlap, the match is appended byte for byte, and nothing else in the output changes. |
| InflateFast.Inflater.CopyWrapped | Library/zlib/inffast.c:210-228 | The case of a window that wraps around. |
| InflateFast.Inflater.OneSymbol | Library/zlib/inffast.c:104-289 | One pass is one symbol of the definition. |
| InflateFast.GivenBack | Library/zlib/inffast.c:292-296 | Whole bytes still held are the last ones taken, so returning them keeps the bit stream. |
| InflateFast.Inflater.Run | Library/zlib/inffast.c:80-307 | The result is that of a number of symbols; only the output bytes it reports as written have changed; the input is not overrun; fewer than 8 bits are held and the rest is the unread stream. |
| Adler32.NmaxIsTight | Library/zlib/adler32.c:12-14 | 5552 is exactly the number of bytes that cannot overflow 32 bits. |
| Adler32.DeferredReduction | Library/zlib/adler32.c:99-110 | Reducing at the end equals reducing after every byte. |
| Adler32.ChopKeeps | Library/zlib/adler32.c:29-34 | Folding the upper half keeps the remainder. |
| Adler32.Mod63 | Library/zlib/adler32.c:45-56 | The remainder of every non-negative 64-bit number, with and without division. |
| Adler32.Adler32Z | Library/zlib/adler32.c:63-131 | Equals the byte-at-a-time checksum for every length and start value; no sum overflows 32 bits. |
| Adler32.Combined | Library/zlib/adler32.c:154-168 | The formula that combines two checksums is correct. |
| Adler32.Combine | Library/zlib/adler32.c:143-169 | Computes that formula by subtractions only; a negative length gives 0xFFFFFFFF. |
| Adler32.CombineChecksums | Library/zlib/adler32.c:143-169 | Combining the checksums of two strings gives that of their concatenation. |
| ShmState.Exclusion | Library/sqlite/sqlite3_xin_vfs.c:435-452 | An exclusive holder keeps every other file of its group out of the slot. |
| ShmState.WriteHeld | Library/sqlite/sqlite3_xin_vfs.c:435-452 | A slot is write-held if and only if one file of the group has it exclusively and all others have nothing. |
| ShmState.SlotChanged | Library/sqlite/sqlite3_xin_vfs.c:435-463 | Locks and file states that move together keep the invariant. |
| ShmState.FreedUnheld | Library/sqlite/sqlite3_xin_vfs.c:184-191 | When the last file leaves a group no lock of it is held. |
| ShmState.OpenedIn | Library/sqlite/sqlite3_xin_vfs.c:127-167 | Joining or setting up a group keeps the invariant, distinct paths included. |
| ShmState.Closed | Library/sqlite/sqlite3_xin_vfs.c:170-192 | Leaving a group keeps the invariant; it is freed with its last file. |
| ShmLocks.Vfs.LockSlots | Library/sqlite/sqlite3_xin_vfs.c:423-453 | All slots or none: BUSY exactly when one of them cannot be had, and then nothing changes. |
| ShmLocks.Vfs.ShmLock | Library/sqlite/sqlite3_xin_vfs.c:413-467 | The effect of every request, and that it keeps the invariant. |
| ShmLocks.Vfs.ShmUnmap | Library/sqlite/sqlite3_xin_vfs.c:480-489 | Everything the file holds is given up, nothing else. |
| ShmLocks.Vfs.Acquire | Library/sqlite/sqlite3_xin_vfs.c:125-168 | One more reference to the group of the path, or a new group in a free place; failure changes nothing. |
| ShmLocks.Vfs.Open | Library/sqlite/sqlite3_xin_vfs.c:541-585 | Opening keeps the invariant; failure changes nothing. |
| ShmLocks.Vfs.Close | Library/sqlite/sqlite3_xin_vfs.c:194-219 | Closing gives up the locks first and then the reference; other groups stay as they are. |
| SerialIo.Io.Submit | Drive/windows/XSerialPortWin32.c:120-145 | Success makes the operation pending, and for a write gives the device exactly the first bytes of the buffer; failure leaves it idle. |
| SerialIo.Io.Cancel | Drive/windows/XSerialPortWin32.c:147-158 | An idle context is freed, a pending one is left without owner to its completion. |
| SerialIo.SerialPort.Completion | Drive/windows/XSerialPortWin32.c:86-98 | A completion frees exactly the contexts that are no longer the port's. |
| SerialIo.SerialPort.Open | Drive/windows/XSerialPortWin32.c:394-416 | Succeeds exactly when the device opens, the contexts can be had and the first read is taken; a failed open leaves no context that is neither freed nor pending; bytes left from before are in order with new ones exactly under the condition said above. |
| SerialIo.SerialPort.OpenReader | Drive/windows/XSerialPortWin32.c:396-406 | A first read that cannot be submitted frees its context once. |
| SerialIo.SerialPort.Close | Drive/windows/XSerialPortWin32.c:419-436 | Afterwards every context is freed or pending, and none is the port's. |
| SerialIo.SerialPort.Destroy | Drive/windows/XSerialPortWin32.c:69-84 | The same for the destruction of the port. |
| SerialIo.SerialPort.Write | Drive/windows/XSerialPortWin32.c:462-484 | Fails exactly on no data, without a write context, or when the device refuses a direct write; else accepts as much as buffer and ring take; the bytes the device was given, then the ring, stay the accepted bytes in order. |
| SerialIo.SerialPort.OnRead | Drive/windows/XSerialPortWin32.c:254-283 | Moves the bytes that arrived to the read buffer, runs the slots, and submits the next read or frees the context; with slots that only call the port a freed context is used exactly when one of them has closed it. |
| SerialIo.SerialPort.OnWrite | Drive/windows/XSerialPortWin32.c:284-320 | Hands the front of the ring to the device; bytes are lost only when a submission fails, and nothing is accepted after that; with slots that only call the port a freed context is used exactly when one closes it in the first signal, or in the second with a write ring to go on with. |
| SerialIo.SerialPort.OnEvent | Drive/windows/XSerialPortWin32.c:245-322 | With slots that only call the port, a freed context is used if and only if one closes it before a use; with slots that dispatch events, only if one closes it or the device refuses an operation under the handler; otherwise any event at any time keeps all of this. |
| SerialIo.Run | Drive/windows/XSerialPortWin32.c:69-484 | Over every sequence of calls, completions and events, nested to any depth, no context is freed twice, freed while the device may use it, or used afterwards, unless a slot closes the port under the handler or has events dispatched under which the device refuses an operation. |
| SerialIo.FailingRun | Drive/windows/XSerialPortWin32.c:270-280 | Such a run: open, one byte arrives, the slot closes the port. |
| SerialIo.NestedFailingRun | Drive/windows/XSerialPortWin32.c:270-280 | The other way: the slot has the next read event dispatched, and the device refuses the read. |
| IoRing.SlotOfWrapped | Drive/Posix/XNetIoRingPosix.c:125 | The slot of a counter does not depend on wrap-around. |
| IoRing.SlotsDiffer | Drive/Posix/XNetIoRingPosix.c:121-126 | Counters less than the ring size apart have different slots. |
| IoRing.WrappedDistance | Drive/Posix/XNetIoRingPosix.c:119-122 | The distance of two counters is right across wrap-around. |
| IoRing.Ring.GetSqe | Drive/Posix/XNetIoRingPosix.c:114-127 | Never returns a slot that is not yet consumed; none exactly when the ring is full. |
| IoRing.Ring.SubmitSqe | Drive/Posix/XNetIoRingPosix.c:130-145 | Appends the filled entry to the queue of pending ones. |
| IoRing.Ring.Submit | Drive/Posix/XNetIoRingPosix.c:113-145 | With the kernel running in between, entries are consumed once and in order; it is refused exactly when the ring is full, and then nothing is queued. |
| IoRing.Ring.PeekCqe | Drive/Posix/XNetIoRingPosix.c:148-156 | The oldest unread completion, or none exactly when there is none. |
| IoRing.Ring.AdvanceCq | Drive/Posix/XNetIoRingPosix.c:159-162 | Takes the oldest completion off the queue. |
| IoRing.AllReported | Drive/Posix/XNetIoRingPosix.c:196-219 | Every completion of a known I/O operation is reported by one event, in order, with its descriptor and its result; a failed one has an event mask. |
| IoRing.NothingInvented | Drive/Posix/XNetIoRingPosix.c:170-219 | A completion event comes only from a known I/O operation, and carries its result. |
| IoRing.Ring.PollPlatform | Drive/Posix/XNetIoRingPosix.c:227-244 | Delivers the oldest completions once and in order, at most 64, fewer only when there are no more. |
| CommandLine.ScanInside | Drive/windows/XProcess_win32.c:115-139 | A quoted argument is read back up to its closing quote. |
| CommandLine.ScanPlain | Drive/windows/XProcess_win32.c:108-114 | An argument left unquoted is read back as it is. |
| CommandLine.SplitArgumentPart | Drive/windows/XProcess_win32.c:154-161 | Splitting the argument part gives back the arguments, whatever follows it. |
| CommandLine.RoundTrip | Drive/windows/XProcess_win32.c:154-161 | Splitting gives back every argument list, with empty arguments and trailing backslashes. |
| CommandLine.Command.AppendQuoted | Drive/windows/XProcess_win32.c:101-140 | For a C string, which ends at its first NUL: appends the quoted form; it fails exactly on a missing text and on one that needs quotes and is not ASCII. |
| CommandLine.Command.Build | Drive/windows/XProcess_win32.c:142-161 | Builds a line if and only if the program and every argument can be quoted, as far as their first NUL; its argument part splits into the arguments cut there, and into the arguments given if and only if none holds a NUL. |
| CommandLine.AccentedBlank | Src/XContainer/XString/XString.c:1105-1106 | A whole text of four bytes that cannot be quoted. |
| CommandLine.EmptyGiven | Src/XContainer/XString/XString.c:829-838 | A given argument that is empty or starts with NUL cannot be quoted. |
| CommandLine.SeenAsMeant | Src/XData/XChar/XChar.c:160-171 | The texts cut at the first NUL are the texts given if and only if none holds a NUL. |
| CommandLine.CanQuoteEach | Drive/windows/XProcess_win32.c:154-161 | What can be built, argument by argument. |

## Left out

- FatFile.File.FLseek: does not say what a file contains between its old end and a seek target behind it, because the clusters are not cleared.
- FatFile.File.FWrite: does not model the directory entry, time stamps, `validate` and the volume mutex.
- FatAlloc.RemoveChain: is the FAT12/16/32 part; the exFAT part of `remove_chain` and TRIM are not modelled.
- ExFatBitmap.Bitmap.FindFree: is for one cluster only, and the nested bit, byte and sector loops are flattened to two.
- ExFatBitmap.Bitmap.Change: is for one cluster only.
- ExFatObject.Object.CreateChain: says nothing about the chain after a disk error in the middle of it.
- InflateFast.Inflater.Run: takes the decoding tables to be well formed, as the table builder makes them, and distances that reach too far back to be errors (`sane` is set).
- LongName.DirRegister: leaves out finding free slots, numbered short names and the sector window under the slots.
- FormatUse.FormatAndStart: leaves out the backup boot record and FSINFO sectors of FAT32, whose writes `f_mkfs` does not check, the partition table, and a read that fails during the mount; the boot record has a buffer of its own.
- LinkMap.Build: is for chains that end; on a cyclic chain the source does not terminate.
- ShmLocks.Vfs.ShmLock: treats a call as one step and the sum of offset and count as exact (SQLite asks for slots 0 to 7 only); shared-memory regions, the `-shm` file and the per-handle lock level are not modelled.
- SerialIo.SerialPort.OnEvent: slots may close, open and write the port and have events dispatched and operations completed, but not destroy the port from inside a signal; with nested events the condition for a freed context is one way only, because which operations the device refuses is not known before the call.
- SerialIo.SerialPort.Write: the memory for the write ring is there.
- SerialIo.SerialPort.Open: does not model opening a port that is open already.
- IoRing.Ring.SubmitSqe: submits one entry, as every caller does.
- `&` with the cluster size minus one is modelled as the remainder, and shifts by a cluster size as the quotient.
- The FSINFO flag (`fsi_flag`), `sync_fs` write-back of the counters, directories other than the slots of one entry set, `f_open`, `f_truncate` beyond its chain, `f_forward`, labels, string functions, GPT and exFAT formatting.
- `f_expand` and runs of several clusters in `find_bitmap`.
- CommandLine.Command.Append: takes the UTF-16 in between as the same text, which it is for whole sequences as `XString_toUtf8` makes them; allocation and the conversion to wide characters succeed.
- UTF-8 conversion of names, and code pages.
- `inflate` outside its fast loop, the table builder, and deflate.
- The wait functions of the ring, its set-up and its mapping.
- The scheduler in `assets/XDispatcher.c`, and platform code that only passes calls on.
