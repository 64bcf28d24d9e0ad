# A verified model of the kernel's storage, network, memory, scheduling and screen code

This project models the hardest parts of a small i386 kernel in Dafny 4.11 and proves what
those parts are for. `dafny verify dfyconfig.toml` checks everything. Most components come
as two layers: specification functions on plain values, about which the laws over whole runs
are proved, and a class or a method with the source's own fields, buffers and loops, whose
`ensures` tie its new state to those functions.

- **Storage** — `Words`, `BlockDevice`, `SfsLayout`, `SfsData`, `SfsPath`, `SfsTree`,
  `SfsOps`, `SfsNaming`, `SfsRuns`, `SimpleFs`, `Vfs`, `CopyFile`. SimpleFS on a device of
  65536 sectors: 64 packed entries, a bump allocator of extents, relocation of growing files,
  path walking, and the sector-by-sector loops. Over every run, failed writes and remounts
  included, the files in use and the files a reboot would find are what two plain maps from id
  to bytes would hold, the entry table is a tree in which every entry is found under its
  absolute path, and the disk agrees with memory after every success. Each operation succeeds
  exactly under a stated condition. On top of it the descriptor table and the shell's file copy.
- **Network** — `Checksum`, `HttpParse`, `TcpReceive`, `HttpSession`, `Dns`. The Internet
  checksum of RFC 1071; the incremental HTTP parse (RFC 9112, section 2.1), independent of how
  the stream is cut; in-order TCP reception (RFC 9293, sections 3.1, 3.4 and 3.10.7.4), safe
  under loss, duplication, reordering and resegmentation and complete when nothing is lost;
  DNS names and replies (RFC 1035, sections 3.1 and 4.1.4).
- **Memory** — `Pmm`, `PageTables`, `Paging`, `HeapBlocks`, `Heap`. The frame bitmap and its
  counters, two-level page tables written word by word in frames from the bitmap and read by
  the hardware walk (Intel SDM volume 3A, section 4.3), and the first-fit heap whose headers
  live in the bytes of the arena, with what a run of requests costs.
- **Tasks** — `RoundRobin`, `ContextSwitch`, `Scheduler`. Round-robin picking with bounded
  waiting, and the push and pop sequence that saves and restores a task.
- **Screen** — `Screen`, `Framebuffer`. The dirty rectangle of the double-buffered
  framebuffer against copying the whole screen and against drawing directly.
- **Programs** — `ElfImage`, `Exec`. The image built from an ELF file against the meaning of
  its program headers (System V gABI, chapter 5, "Program Header").

Integers that the source keeps in 32 bits are `int` with the wrap-around written out
(`% TWO_32`) where the source wraps, and a precondition where the source relies on not
wrapping. A kernel panic is a result the caller sees (`None`, `false`, `panicked`). Whether
the heap can serve a request is a parameter where the caller only needs the answer.

Where code and comments disagree the model follows the code: path lookup does handle "." and
".." (include/fs/simplefs.h says it does not); truncation keeps the file's sectors; used heap
bytes leave the headers out (include/mem/heap.h says they are included); task ids are indices
from 0 and a failed creation gives no id (include/task/scheduler.h speaks of ids above 0 and
of 0 for failure); running out of frames panics (include/mem/pmm.h promises 0).

Properties that do not hold of the code on all inputs are stated with their exact condition,
and with a concrete input on the failing side:

- A path just created gives the new id exactly when its last component is plain and has no
  trailing slash (`SfsOps.CreateThenLookup`; fails for `SfsOps.CreatedDotIsNotFound`).
- A write without overflow leaves every file on the device exactly when it is not an empty one
  past the end that claims sectors beyond it (`SfsData.EmptyWritePastEnd`; fails for
  `SfsOps.EmptyWriteOffDevice`).
- A heap request served covers the one made exactly when rounding up does not wrap
  (`HeapBlocks.AlignUpCovers`, with the size that fails).
- Giving a frame back keeps both counters exact exactly when a frame in use came from a region
  (`Pmm.FrameAllocator.FreeFrame`; fails for `Pmm.GivenReserved`).
- A memory region contributes exactly the frames inside it when its base is page-aligned or no
  page fits, and only then (`Pmm.RegionsAligned`); the kernel's range and the identity limit
  are covered exactly when rounding them up does not wrap (`Pmm.CoversWhatItTouches`,
  `Paging.PagesCover`); each lemma names an input that fails.
- A FIN seen means a complete stream exactly when one of three sequence numbers fits
  (`TcpReceive.FinSeenMeansComplete`; fails for `TcpReceive.FinSeenTooEarly`).
- Filling clips to the screen exactly when the far edges stay below 2^32 (`Screen.FillClips`).
- An accepted program header table is in the file, and accepted segments are inside file and
  image, exactly when their ends do not wrap (`ElfImage.HeaderAccepts` and
  `ElfImage.InsideIffSumsFit`; fail for `ElfImage.WrappedTableAccepted` and
  `ElfImage.WrappedEndAccepted`).

## Model

| member | source | states |
|---|---|---|
| `Words.ByteOrder` | src/drivers/net.c:219-233 | An i386 word has its low byte first, a word on the network its high byte. |
| `BlockDevice.Device.Read` | src/drivers/blockdev.c:20-25 | A sector of the device is read whole; past sector 65535 the read fails and the buffer keeps its bytes. |
| `BlockDevice.Device.Write` | src/drivers/blockdev.c:27-32 | Exactly the addressed sector takes the buffer; past the end the write fails and no sector changes. |
| `SfsLayout.SuperRoundTrip` | src/fs/simplefs.c:16-24 | The packed superblock sector gives back every field of the superblock. |
| `SfsLayout.EntryRoundTrip` | src/fs/simplefs.c:26-37 | The 64-byte packed image of an entry gives back all its fields, the name and the reserved bytes included. |
| `SfsLayout.FlushThenLoad` | src/fs/simplefs.c:82-116 | Loading from a disk that was flushed gives back the same superblock and all 64 entries, for every table. |
| `SfsLayout.FlushSteps` | src/fs/simplefs.c:82-98 | Writing the superblock and then the eight table sectors one by one ends in the flushed disk; no other sector changes on the way. |
| `SfsLayout.SuperImage` | src/fs/simplefs.c:16-24 | Byte for byte: the packed superblock is magic, version, sector count, entry count, bump pointer and root id, each low byte first, then the reserved bytes. |
| `SfsLayout.EntryImage` | src/fs/simplefs.c:26-37 | Byte for byte: use, type, permissions, a reserved byte, then parent, start, size and capacity, then name and reserved bytes. |
| `SfsLayout.DiskImage` | src/fs/simplefs.c:82-98 | On a flushed disk the superblock is sector 128 and entry i stands in sector 129 + i/8 at byte 64*(i mod 8); sectors below 128 and from 137 on are as before. |
| `SfsData.PlaceKeepsExtents` | src/fs/simplefs.c:405-428 | First allocation and relocation keep all extents pairwise disjoint and below the bump pointer, and afterwards the file has the sectors it needs. |
| `SfsData.PlaceKeepsBytes` | src/fs/simplefs.c:405-428 | Moving a file to its new extent changes no byte of any file, the moved one included. |
| `SfsData.WriteKeepsExtents` | src/fs/simplefs.c:386-466 | After every sound write, also one that fails because the device is full, extents are disjoint, between the data area and the bump pointer, and large enough for their files. |
| `SfsData.EmptyWritePastEnd` | src/fs/simplefs.c:404-455 | The one side condition on writes is exact: an empty write past the end of a file leaves the table in order if and only if the sectors it claims exist. |
| `SfsData.WriteKeepsOthers` | src/fs/simplefs.c:386-466 | A write, successful or not, leaves every other entry and its bytes as they were. |
| `SfsData.WriteBytes` | src/fs/simplefs.c:430-455 | Byte by byte: data in the written range as far as the file goes once the extent is in place, also when the device then ends; old sector bytes in a gap past the old end; no other byte changes; the size changes only on success. |
| `SfsData.WriteSplices` | src/fs/simplefs.c:430-466 | What any write makes of its file: a splice, a splice behind a gap of old sector bytes, a splice cut at the old end when the device ends under it, or nothing when no extent can be had. |
| `SfsData.FailedWriteMeansFull` | src/fs/simplefs.c:408-455 | A write to a writable file fails only when the sectors it needs do not fit on the device any more. |
| `SfsData.WritePersists` | src/fs/simplefs.c:457-459 | What a reboot would load after a successful write is the state in memory. |
| `SfsData.PlacedWriteBytes` | src/fs/simplefs.c:430-451 | With the extent in place every byte of the file is data in the written range and the old sector byte elsewhere. |
| `SfsData.WriteClaims` | src/fs/simplefs.c:404-428 | A successful write claims no sector while the file still fits its extent, and otherwise exactly the fewest sectors that hold it, at the bump pointer. |
| `SfsPath.PathNext` | src/fs/simplefs.c:138-160 | The iterator yields the next component of the path (cut to 31 characters, runs of slashes skipped), and reports the end exactly when none is left. |
| `SfsPath.AtEnd` | src/fs/simplefs.c:268-270 | The scan stands at the end of the string exactly when no component follows and the path has no trailing slash. |
| `SfsPath.OneName` | src/fs/simplefs.c:138-160 | A path without a slash is one component, its first 31 characters. |
| `SfsPath.JoinedPaths` | src/fs/simplefs.c:138-160 | The components of p, a slash and q are those of p followed by those of q. |
| `SfsTree.AddKeepsTree` | src/fs/simplefs.c:283-299 | Adding an entry under a live directory where its name is free keeps the table a tree: parent chains reach the root through live directories, and names are unique per directory. |
| `SfsTree.AddKeepsPaths` | src/fs/simplefs.c:200-235 | Every path that resolved before an entry was added resolves to the same entry after. |
| `SfsTree.CreateThenResolve` | src/fs/simplefs.c:237-310 | Right after a creation its path resolves to the new entry if and only if the last component is a plain name without a trailing slash. |
| `SfsTree.RemoveKeepsTree` | src/fs/simplefs.c:320-333 | Clearing a childless entry other than the root keeps the tree. |
| `SfsTree.RemoveKeepsPaths` | src/fs/simplefs.c:312-334 | After a removal exactly the paths that lead over the removed entry stop resolving; every other path gives what it gave. |
| `SfsTree.RemoveFindChild` | src/fs/simplefs.c:128-136 | Clearing an entry changes a child search only where it found that entry. |
| `SfsOps.FormattedInv` | src/fs/simplefs.c:162-194 | A freshly formatted disk satisfies the whole invariant and agrees with the tables in memory. |
| `SfsOps.MountedSynced` | src/fs/simplefs.c:162-194 | Mounting a disk that agrees with memory gives back exactly the state in memory. |
| `SfsOps.CreateKeepsInv` | src/fs/simplefs.c:237-310 | Create keeps extents and tree in every case, and when it succeeds disk and memory agree. |
| `SfsOps.CreateThenLookup` | src/fs/simplefs.c:237-310 | Looking up the path just created gives the new id exactly when its last component is plain. |
| `SfsOps.CreateKeepsLookups` | src/fs/simplefs.c:200-235 | After a create every path that resolved before, from any live directory, still gives its old id. |
| `SfsOps.RemoveKeepsInv` | src/fs/simplefs.c:312-334 | Remove keeps extents and tree in every case, and when it succeeds disk and memory agree. |
| `SfsOps.RemoveThenLookup` | src/fs/simplefs.c:312-334 | After a remove a lookup fails if and only if it failed before or leads over the removed entry; otherwise the id is the old one. |
| `SfsOps.TruncateKeepsInv` | src/fs/simplefs.c:468-482 | Truncate keeps extents and tree, and when it succeeds disk and memory agree. |
| `SfsOps.TruncateKeepsExtents` | src/fs/simplefs.c:468-482 | A truncated file is empty; every other file keeps its bytes. |
| `SfsOps.WriteKeepsInv` | src/fs/simplefs.c:386-466 | Writes, failed ones included, keep extents and tree; a successful one leaves disk and memory in agreement. |
| `SfsOps.FailedWriteKeepsMetadata` | src/fs/simplefs.c:404-455 | A failed write never reaches a superblock or table sector: a reboot finds the metadata of before. |
| `SfsOps.InsertKeeps` | src/fs/simplefs.c:283-309 | The new entry has the given place, name, type and permissions and no extent; every other file keeps its bytes. |
| `SfsOps.CreatedDotIsNotFound` | src/fs/simplefs.c:237-310 | A concrete create of "." succeeds with a new id that its path does not give. |
| `SfsOps.EmptyWriteOffDevice` | src/fs/simplefs.c:404-459 | A concrete empty write far past the end of a new file succeeds and leaves a size the device cannot hold. |
| `SfsOps.FormattedIsEmpty` | src/fs/simplefs.c:162-194 | A formatted disk has one entry in use, the root directory, found under "/", and no data sector claimed. |
| `SfsOps.MountedMeans` | src/fs/simplefs.c:165-166 | A disk is taken as it is if and only if sector 128 begins with "SFS1" and the word 1; any other is formatted. |
| `SfsOps.ReadSucceeds` | src/fs/simplefs.c:336-384 | A read succeeds if and only if the entry is a readable file, and delivers the bytes from the offset on, as many as asked for or as there are. |
| `SfsOps.WriteThenRead` | src/fs/simplefs.c:336-466 | Reading back the range just written to a readable file gives the data written. |
| `SfsNaming.ResolveConcat` | src/fs/simplefs.c:200-235 | Walking along two lists of names one after the other is walking along their concatenation. |
| `SfsNaming.AbsolutePath` | src/fs/simplefs.c:207-213 | A path that begins with a slash gives the same entry from every current directory, and "/" gives the root. |
| `SfsNaming.OneStep` | src/fs/simplefs.c:215-231 | A single name is looked up in the current directory: "." is that directory, ".." its parent, any other name the child so called. |
| `SfsNaming.PathGoesOn` | src/fs/simplefs.c:200-235 | Looking up p/q is looking up q from where p leads, and from the root when p is empty. |
| `SfsNaming.EntryFound` | src/fs/simplefs.c:200-235 | Every entry is found, from every current directory, under the absolute path made of the names on its parent chain. |
| `SfsNaming.CreateDirIs` | src/fs/simplefs.c:244-281 | The directory for a new entry is there exactly when every component before the last (all of them with a trailing slash) leads to a directory in turn, and it is the one they lead to. |
| `SfsNaming.CreateSucceeds` | src/fs/simplefs.c:237-310 | Create succeeds if and only if the directory is there, the last component is not taken in it and an entry is free; the new entry is the lowest free one, a child of that directory with that name, type and permissions; otherwise nothing changes. |
| `SfsNaming.CreatedUnder` | src/fs/simplefs.c:237-310 | Creating p/name puts the entry into the directory that p leads to, the root when p is empty, from any current directory, and the path then gives the new id. |
| `SfsNaming.RemoveSucceeds` | src/fs/simplefs.c:312-334 | Remove succeeds if and only if the path leads to an entry other than the root that has no children; exactly that entry is cleared. |
| `SfsNaming.TruncateSucceeds` | src/fs/simplefs.c:468-482 | Truncate succeeds if and only if the entry is a writable file; its size becomes 0 and it keeps its sectors. |
| `SfsRuns.StepIsSafe` | src/fs/simplefs.c:82-482 | Each operation, failing or not, leaves both the tables in memory and those a reboot would load in order; after a success the two agree. |
| `SfsRuns.RunFromFormatIsSafe` | src/fs/simplefs.c:162-482 | In every state reachable from a format by creates, removes, writes, truncates and remounts the invariant holds in memory and on disk, and memory is ahead of the disk only by extents moved since the last flush. |
| `SfsRuns.CreateRefines` | src/fs/simplefs.c:237-310 | A create adds at most one empty file to the map from ids to bytes. |
| `SfsRuns.RemoveRefines` | src/fs/simplefs.c:312-334 | A remove takes exactly the named file out of the map. |
| `SfsRuns.TruncateRefines` | src/fs/simplefs.c:468-482 | A truncate empties exactly that file. |
| `SfsRuns.WriteRefines` | src/fs/simplefs.c:386-466 | Every write, past the end, failing or not, is one update of the map from ids to bytes; no other file changes. |
| `SfsRuns.StepRefines` | src/fs/simplefs.c:237-482 | Every operation updates two plain maps from id to bytes: the files of the running system and those a reboot would find. |
| `SfsRuns.RunRefines` | src/fs/simplefs.c:237-482 | Over every run, through relocations, failed writes and remounts, the files in use and the files on the disk are what replaying the updates on two plain maps gives. |
| `SfsRuns.WriteStepKeepsOthers` | src/fs/simplefs.c:386-466 | In a safe state a write never touches another file of the map, even if it fails half way. |
| `SfsRuns.AppendRefines` | src/fs/simplefs.c:386-466 | An append goes through whole or changes no file at all. |
| `SfsRuns.FailedWriteDrifts` | src/fs/simplefs.c:404-455 | A failed write leaves memory ahead of the disk by at most one more extent, beyond all flushed ones. |
| `SfsRuns.FailedWriteDurable` | src/fs/simplefs.c:404-455 | A failed write changes what a reboot finds only in its own file, and only while that file has not moved since the last flush. |
| `SfsRuns.StepIsConsistent` | src/fs/simplefs.c:82-482 | No operation lets memory and disk drift apart in any other way. |
| `SfsRuns.RunFromFormatRefines` | src/fs/simplefs.c:162-482 | From a format on both maps start empty and every run refines them. |
| `SimpleFs.StringsEqual` | src/fs/simplefs.c:54-63 | Two character arrays compare equal exactly when the strings before their NULs are the same. |
| `SimpleFs.FileSystem.Flush` | src/fs/simplefs.c:82-98 | All nine metadata sectors receive the tables; data sectors stay. |
| `SimpleFs.FileSystem.Load` | src/fs/simplefs.c:100-116 | Superblock and all 64 entries come from the disk. |
| `SimpleFs.FileSystem.Init` | src/fs/simplefs.c:162-194 | Mounts the disk, or formats it when magic or version is not there. |
| `SimpleFs.FileSystem.FindChildEntry` | src/fs/simplefs.c:128-136 | The first live child of that name under that parent, or none. |
| `SimpleFs.FileSystem.Resolve` | src/fs/simplefs.c:200-235 | The loop over components finds what the recursive lookup finds, starting at the root for a path that begins with a slash and at the current directory otherwise. |
| `SimpleFs.FileSystem.WalkToParent` | src/fs/simplefs.c:244-281 | The directory a new entry goes into and its name, from one pass over the path. |
| `SimpleFs.FileSystem.StoreName` | src/fs/simplefs.c:42-52 | The bounded copy stores the name and its NUL and leaves the rest of the field. |
| `SimpleFs.FileSystem.Create` | src/fs/simplefs.c:237-310 | The table, the disk and the id are those of the specification of create, and the invariant holds. |
| `SimpleFs.FileSystem.Remove` | src/fs/simplefs.c:312-334 | The table, the disk and the verdict are those of the specification of remove, and the invariant holds. |
| `SimpleFs.FileSystem.Truncate` | src/fs/simplefs.c:468-482 | The table, the disk and the verdict are those of the specification of truncate, and the invariant holds. |
| `SimpleFs.FileSystem.ReadRun` | src/fs/simplefs.c:362-377 | The sector loop collects exactly the bytes at the given file positions, and fails exactly when they run off the device. |
| `SimpleFs.FileSystem.Read` | src/fs/simplefs.c:336-384 | A read delivers contents[offset..min(offset+len, size)], nothing past the end, and fails exactly for a missing, unreadable or non-file node; it changes no state. |
| `SimpleFs.FileSystem.CopySectors` | src/fs/simplefs.c:416-423 | Relocation copies the old extent sector by sector and stops exactly at the end of the device. |
| `SimpleFs.FileSystem.PatchSector` | src/fs/simplefs.c:436-450 | One read-modify-write replaces the given bytes of one sector and nothing else. |
| `SimpleFs.FileSystem.WriteRun` | src/fs/simplefs.c:430-451 | The read-modify-write loop lays the data over the extent, with no other byte changed, and fails exactly when the data runs off the device. |
| `SimpleFs.FileSystem.Reserve` | src/fs/simplefs.c:405-428 | Allocation and relocation give the state the specification describes. |
| `SimpleFs.FileSystem.Write` | src/fs/simplefs.c:386-466 | The state after a write is that of the specification, bytes written included, and the invariant holds. |
| `SimpleFs.MemCopy` | src/fs/simplefs.c:73-80 | The copied range holds the source bytes and no other byte of the buffer changes. |
| `SimpleFs.FileSystem.TableSector` | src/fs/simplefs.c:89-95 | One table sector packs its eight entries in order. |
| `SimpleFs.FileSystem.LoadRow` | src/fs/simplefs.c:107-113 | One table sector unpacks into its eight entries; the others stay. |
| `SimpleFs.FileSystem.FindFreeEntry` | src/fs/simplefs.c:118-126 | The lowest entry not in use, or none when all 64 are. |
| `SimpleFs.FileSystem.Insert` | src/fs/simplefs.c:283-309 | A name already taken or a full table changes nothing; otherwise the lowest free entry becomes the new child and is flushed. |
| `SimpleFs.FileSystem.WriteEntry` | src/fs/simplefs.c:404-459 | Placement, data, size and flush together give the state the specification describes. |
| `Vfs.OpenNodeFiles` | src/fs/vfs.c:128-146 | Opening for a fresh write makes or empties at most the opened file; all others keep their bytes. |
| `Vfs.FdTable.Open` | src/fs/vfs.c:128-160 | The lowest free descriptor gets, at offset 0, the node that the path names from the current directory, or -1 is returned and no descriptor changes; creation and truncation happen as asked. |
| `Vfs.FdTable.AllocateFd` | src/fs/vfs.c:148-159 | The lowest free descriptor is taken, none when all are in use. |
| `Vfs.FdTable.Read` | src/fs/vfs.c:162-178 | A readable descriptor delivers the bytes at its offset and moves on by what it delivered; all else stays. |
| `Vfs.FdTable.Write` | src/fs/vfs.c:180-196 | A writable descriptor writes at its offset and moves on by the bytes written; all else stays. |
| `Vfs.FdTable.Close` | src/fs/vfs.c:198-203 | Exactly that descriptor becomes free. |
| `Vfs.FdTable.LocateEntry` | src/fs/vfs.c:133-140 | A missing file is made only when creation was asked for. |
| `Vfs.FdTable.OpenEntry` | src/fs/vfs.c:133-146 | As before, and emptied when truncation was asked for. |
| `Vfs.LocateKeeps` | src/fs/vfs.c:133-140 | Locating keeps every node in use and at most adds one empty file. |
| `Vfs.OpenNames` | src/fs/vfs.c:128-160 | Opening gives the entry the path names from the current directory or, if it names none, one that was free, which the path names afterwards when its last component is plain; it succeeds if and only if that is possible; only that entry changes. |
| `Vfs.CreateNames` | src/fs/vfs.c:133-140 | An entry made by opening is found under the path it was opened by. |
| `CopyFile.Copy` | src/core/commands.c:214-245 | The copy terminates; the destination is the entry its path names from the current directory, made if there was none. Success means it holds exactly the source bytes and every other file is unchanged, failure at most a prefix, and only when a path cannot be opened, descriptors run out or the device is full; open descriptors are as before. |
| `CopyFile.CopyPieces` | src/core/commands.c:229-240 | The 128-byte loop delivers the whole source, though each append may move the destination. |
| `CopyFile.CopyPiece` | src/core/commands.c:229-240 | One round extends the copy by the next 128 bytes or fewer, or stops with the copy as it was because the device is full. |
| `CopyFile.OpenPair` | src/core/commands.c:214-228 | Both descriptors are open, or neither. |
| `CopyFile.AppendsPiece` | src/core/commands.c:234-240 | Appending the next piece of the source extends the copied prefix by it, or fails on a full device and leaves the prefix. |
| `CopyFile.ReadsSource` | src/core/commands.c:229-233 | While the copy is under way, reading the source still delivers its original bytes. |
| `CopyFile.OpenedOutcome` | src/core/commands.c:214-228 | After both opens the destination is the entry the second path names, empty, and every other file keeps its bytes. |
| `Checksum.FoldResidue` | src/drivers/net.c:273-277 | Folding carries terminates in the residue modulo 65535, never 0 for a sum that is not 0. |
| `Checksum.WordSumConcat` | src/drivers/net.c:282-292 | Summing two even-aligned pieces one after the other is summing the concatenation. |
| `Checksum.ChecksumVerifies` | src/drivers/net.c:262-280 | Stored in its zeroed field, the checksum makes the checksum of the whole 0, for any data. |
| `Checksum.ChecksumUnique` | src/drivers/net.c:262-280 | Only that value does, up to the two representations of zero. |
| `Checksum.TcpChecksumVerifies` | src/drivers/net.c:294-318 | A receiver summing pseudo-header and segment with the checksum in place finds 0. |
| `Checksum.FoldCarries` | src/drivers/net.c:273-277 | The fold loop terminates with the folded sum. |
| `Checksum.Checksum16` | src/drivers/net.c:262-280 | The byte loop computes the RFC 1071 checksum for anything up to 64 KiB, odd lengths included. |
| `Checksum.TcpChecksum` | src/drivers/net.c:294-318 | Three partial sums equal the checksum of pseudo-header followed by segment. |
| `Checksum.WordSumOdd` | src/drivers/net.c:287-290 | An odd last byte counts as if a zero byte followed it. |
| `Checksum.PseudoHeaderSum` | src/drivers/net.c:294-318 | The pseudo-header adds the halves of both addresses, the protocol number 6 and the segment length to the sum. |
| `Checksum.Rfc1071Example` | src/drivers/net.c:262-280 | The worked example of RFC 1071, section 3. |
| `HttpParse.FeedChunks` | src/drivers/net.c:745-787 | Feeding a then b is feeding a+b: the parse does not depend on how the stream was cut. |
| `HttpParse.FeedSplit` | src/drivers/net.c:723-787 | With the first CRLFCRLF within 1023 bytes, header, status and body are those of the stream cut there; the body is the sanitised, truncated rest, and truncation is flagged exactly when bytes were dropped. |
| `HttpParse.FeedUnsplit` | src/drivers/net.c:745-787 | While no header end has come, or past 1023 bytes without one, nothing is taken for body. |
| `HttpParse.FeedMeaning` | src/drivers/net.c:723-787 | Every stream falls under exactly these two cases. |
| `HttpParse.StatusRead` | src/drivers/net.c:702-721 | A line of version, spaces and a three-digit code gives that code, whatever follows. |
| `HttpParse.StatusOfIs` | src/drivers/net.c:702-721 | A status is found if and only if the header begins with such a line, and it is the number its decimal digits spell. |
| `HttpParse.StatusArrives` | src/drivers/net.c:702-787 | A whole stream that begins with such a line and has its header end within 1023 bytes parses to that status. |
| `HttpParse.BodyArrives` | src/drivers/net.c:723-787 | For a header that ends at its first CRLFCRLF the session holds that header and the body up to the buffer less one byte, control characters other than tab, CR and LF shown as dots, and tells exactly when bytes were dropped. |
| `TcpReceive.HandleTracks` | src/drivers/net.c:789-884 | One arriving packet, from anyone, keeps the accepted bytes a prefix of the stream, the next sequence number and the last acknowledgement in step with it, and the parse the parse of that prefix. |
| `TcpReceive.RunTracks` | src/drivers/net.c:789-884 | The same over any sequence of deliveries: loss, duplication, reordering, resegmentation. |
| `TcpReceive.ReceivedIsPrefix` | src/drivers/net.c:789-884 | From a fresh connection to a server with a stream below 2^32-1 bytes, every run ends with a prefix of that stream accepted and parsed. |
| `TcpReceive.FinSeenMeansComplete` | src/drivers/net.c:869-883 | The FIN flag is set by any FIN; the whole stream has been accepted exactly when the receiver was waiting for that segment, for its FIN or for nothing more, which can be read off the two sequence numbers beforehand. |
| `TcpReceive.FinSeenTooEarly` | src/drivers/net.c:869-883 | A concrete out-of-order FIN sets the flag with nothing of the stream accepted, so the flag alone is no proof of completeness. |
| `TcpReceive.CompletesMeans` | src/drivers/net.c:851-872 | The comparison of sequence numbers before a final segment tells whether it completes the stream. |
| `TcpReceive.SegmentDecoded` | src/drivers/net.c:789-831 | Ports, sequence number, flags and data of a segment laid out field by field (RFC 9293, section 3.1), with any options, are read back as they were. |
| `TcpReceive.SegmentOfIs` | src/drivers/net.c:802-831 | Decoding succeeds exactly for payloads made of a well-formed header and data, gives those, and fails exactly when the header is short or its length field impossible. |
| `TcpReceive.ForeignIgnored` | src/drivers/net.c:816-824 | A packet under other addresses or ports, or while no connection is active, changes nothing. |
| `TcpReceive.MalformedIgnored` | src/drivers/net.c:802-811 | A payload too short for its header changes nothing. |
| `TcpReceive.ResetFails` | src/drivers/net.c:826-831 | A reset fails the session and nothing else. |
| `TcpReceive.HandshakeEstablishes` | src/drivers/net.c:833-849 | While connecting, SYN with ACK establishes the connection, expecting and acknowledging the byte behind the SYN; any other packet is ignored. |
| `TcpReceive.PiecesAccepted` | src/drivers/net.c:851-867 | Pieces that arrive in order are all accepted and parsed, however the stream was cut up. |
| `TcpReceive.SessionDelivers` | src/drivers/net.c:789-884 | When the network loses and reorders nothing, the session ends with the whole stream parsed, the FIN seen, and everything up to and including it acknowledged. |
| `HttpSession.Session.constructor` | src/drivers/net.c:698-700 | A session begins as a fresh connection attempt with nothing parsed. |
| `HttpSession.Session.ParseStatusLine` | src/drivers/net.c:702-721 | Three digits after the first run of spaces become the status, otherwise it stays. |
| `HttpSession.Session.AppendBody` | src/drivers/net.c:723-743 | The body bytes reach the caller's buffer as in the parse, NUL-terminated, never past its end. |
| `HttpSession.Session.FeedData` | src/drivers/net.c:745-787 | The byte loop over the header buffer and the block copy of the body do what the byte-by-byte parse does. |
| `HttpSession.Session.HandleSegment` | src/drivers/net.c:826-884 | The handler's updates are those of the protocol step, acknowledgements in order. |
| `HttpSession.Session.HandleTcp` | src/drivers/net.c:789-884 | A raw packet is decoded, filtered by address and ports, and handled as the protocol step says. |
| `HttpSession.PutAllAppends` | src/drivers/net.c:723-743 | Putting body bytes one at a time equals appending them at once, truncated and sanitised. |
| `HttpSession.Session.PutBodyByte` | src/drivers/net.c:727-739 | A byte is sanitised and stored while one place for the NUL remains, and otherwise the body is flagged as cut. |
| `HttpSession.Session.StoreHeaderByte` | src/drivers/net.c:754-773 | A header byte is stored, or the session fails because the buffer is full; a completed header has its status line parsed. |
| `HttpSession.Session.HeaderEnded` | src/drivers/net.c:762-767 | Exactly a header ending in CRLFCRLF has ended. |
| `HttpSession.Session.ReceiveData` | src/drivers/net.c:851-867 | Only data at the expected sequence number is taken, fed and acknowledged. |
| `HttpSession.Session.ReceiveFin` | src/drivers/net.c:869-883 | A FIN is consumed only in order, flagged and acknowledged in any case. |
| `HttpSession.Session.ReceiveSyn` | src/drivers/net.c:833-846 | The handshake sets the next sequence number behind the SYN and acknowledges it. |
| `Dns.EncodeName` | src/drivers/net.c:886-935 | Succeeds exactly for names with labels of 1 to 63 bytes that fit the buffer, and then writes the wire form. |
| `Dns.SkipName` | src/drivers/net.c:937-977 | Terminates on every message; succeeds exactly when the recursive reader finds a name there, and lands behind it. |
| `Dns.WireReadsFrom` | src/drivers/net.c:886-977 | From any label on, the encoded name reads back as the rest of the host and ends where the encoding ends. |
| `Dns.WireRoundTrip` | src/drivers/net.c:886-977 | Reading an encoded name gives labels that rejoin to the host and ends at offset + strlen + 2. |
| `Dns.FirstAddressIsFirst` | src/drivers/net.c:1022-1057 | The address taken is that of the first A/IN record with four bytes of data, in network order, none if there is none. |
| `Dns.RecordsRoundTrip` | src/drivers/net.c:1022-1057 | Answer records named by a pointer to the question are read back one by one as the server wrote them. |
| `Dns.ReplyDelivers` | src/drivers/net.c:979-1060 | A faithful reply to the pending query delivers the first address among its answers, if there is one. |
| `Dns.Resolver.SkipQuestions` | src/drivers/net.c:1008-1020 | The question loop lands behind the last question or gives up on the first bad name. |
| `Dns.Resolver.FindAddress` | src/drivers/net.c:1022-1057 | The record loop finds the address the recursive reference decoder finds. |
| `Dns.Resolver.HandleReply` | src/drivers/net.c:979-1060 | The resolver state after any message is that of the reference decoder. |
| `Dns.PutLabel` | src/drivers/net.c:886-935 | One more label of the name is coded behind the ones before. |
| `Dns.Resolver.ReadRecord` | src/drivers/net.c:1022-1044 | Bounds checks and fields of one record as the reference decoder reads them. |
| `Dns.WireOfDotted` | src/drivers/net.c:886-935 | The wire form label by label: a length byte, the label, then the wire form of the rest. |
| `Dns.WireOfLabel` | src/drivers/net.c:886-935 | The wire form of a single label: its length, the label, a zero byte. |
| `Dns.EncodableMeans` | src/drivers/net.c:886-935 | A host can be encoded if and only if each of its labels has 1 to 63 characters, all of them printable. |
| `Dns.ChainFollowed` | src/drivers/net.c:937-977 | A name behind up to 8 compression pointers in a row is read, one behind more is refused. |
| `Dns.OnlyReplies` | src/drivers/net.c:987-1006 | A message changes the resolver if and only if it is long enough, carries the pending id and is marked as a response; a response code other than zero only ends the wait. |
| `Dns.FirstReplyDecides` | src/drivers/net.c:979-1060 | Over any sequence of messages the first reply to the pending query decides the outcome, whatever arrives before or after. |
| `Pmm.FrameAllocator.BitmapSet` | src/mem/pmm.c:12-14 | Exactly that frame becomes used in the bitmap. |
| `Pmm.FrameAllocator.BitmapClear` | src/mem/pmm.c:16-18 | Exactly that frame becomes free in the bitmap. |
| `Pmm.FrameAllocator.ReserveRange` | src/mem/pmm.c:24-37 | Exactly the frames the byte range touches stop being free, none when rounding its end up wraps; both counters stay exact. |
| `Pmm.FrameAllocator.ReleaseRegion` | src/mem/pmm.c:54-78 | Exactly the frames the region contributes become free: one per page that fits in from its base up, below 256 MiB. |
| `Pmm.FrameAllocator.Init` | src/mem/pmm.c:39-88 | A frame is free exactly when a region contributes it and it is neither below 1 MiB nor reserved with the kernel; both counters are exact; no usable memory at all is the panic. |
| `Pmm.FrameAllocator.AllocFrame` | src/mem/pmm.c:90-103 | The lowest free frame is handed out and no other changes; it fails only when none is free. |
| `Pmm.FrameAllocator.FreeFrame` | src/mem/pmm.c:105-118 | The frame is free again; both counters stay exact if and only if a frame in use that is given back came from a region. |
| `Pmm.FrameAllocator.BitmapTest` | src/mem/pmm.c:20-22 | The bit is set exactly when the frame is in use. |
| `Pmm.FrameAllocator.ReserveFrame` | src/mem/pmm.c:31-35 | A frame is reserved once, and counted once. |
| `Pmm.FrameAllocator.ReleaseFrame` | src/mem/pmm.c:74-77 | A frame of a region becomes free and is counted once in the total, however regions overlap. |
| `Pmm.ExactMeans` | src/mem/pmm.c:105-130 | Total and used counter are exact together exactly when the bytes reported free are. |
| `Pmm.GivenExact` | src/mem/pmm.c:105-118 | Giving a frame back keeps the counters exact if and only if a frame in use came from a region. |
| `Pmm.GivenReserved` | src/mem/pmm.c:105-118 | A concrete start state in which giving back reserved frame 0 uncounts a frame that was never counted. |
| `Pmm.RegionsAligned` | src/mem/pmm.c:54-78 | A region contributes exactly the frames inside it if and only if its base is page-aligned or no page fits. |
| `Pmm.CoversWhatItTouches` | src/mem/pmm.c:24-37 | Every frame a range touches is reserved if and only if rounding its end up does not wrap or it begins past the last frame. |
| `Pmm.ReservedMeans` | src/mem/pmm.c:82-85 | Reserved are the first MiB and, unless its end wraps when rounded up, every frame that holds a byte of the kernel. |
| `PageTables.MapPageWalk` | src/mem/paging.c:17-35 | After mapping a page the two-level walk gives the new frame and flags there and the old answer for every other page; no table frame collides with another. |
| `PageTables.MapPageSpace` | src/mem/paging.c:17-35 | The address space as a map is updated at exactly that page. |
| `PageTables.MapAllSpace` | src/mem/paging.c:17-35 | For any sequence of mappings the hardware walk equals a plain map, the last mapping winning. |
| `PageTables.EmptyDirectory` | src/mem/paging.c:41-46 | A zeroed directory maps nothing. |
| `PageTables.IdentityGrows` | src/mem/paging.c:50-52 | Identity-mapping the next page extends the identity map by it. |
| `PageTables.FlagBitsMean` | src/mem/paging.c:33-34 | "Present" is set, the other eleven flag bits are the caller's, higher bits are dropped. |
| `PageTables.WalkInWords` | src/mem/paging.c:17-35 | The walk in memory words: word d of the directory, then word t of the table it names, for the page 1024 d + t. |
| `PageTables.MapPageFrames` | src/mem/paging.c:21-31 | Mapping fails if and only if a table is missing and no frame is free; a missing table takes the lowest free frame and is entered as present and writable; nothing else changes in the directory. |
| `Paging.AddressSpace.MapOne` | src/mem/paging.c:17-35 | The memory words written are those of the specification; it fails only when the PMM has no frame for a table. |
| `Paging.AddressSpace.Map` | src/mem/paging.c:17-35 | The walk afterwards is the old map with one page updated. |
| `Paging.AddressSpace.InitIdentity` | src/mem/paging.c:41-64 | The walk is the identity on the pages below the limit, rounded up in 32 bits, and undefined elsewhere. |
| `Paging.AddressSpace.MapHeap` | src/mem/heap.c:20-28 | Heap pages are backed by frames that were free, are distinct, belong to nobody else and hold no page table; every other page is as before. |
| `Paging.BackedMore` | src/mem/heap.c:25-28 | Each further heap page keeps that. |
| `Paging.AddressSpace.ZeroFrame` | src/mem/paging.c:10-15 | Exactly the words of that frame become zero. |
| `Paging.AddressSpace.TakeTable` | src/mem/paging.c:25-28 | A table takes the lowest free frame, zeroed; without one the kernel panics. |
| `Paging.AddressSpace.NewDirectory` | src/mem/paging.c:41-46 | The first frame taken becomes a directory that maps nothing. |
| `Paging.AddressSpace.MapFresh` | src/mem/heap.c:25-28 | One page is backed by a frame that was free, and no other page changes. |
| `Paging.PagesCover` | src/mem/paging.c:41-52 | The pages mapped cover all addresses below the limit if and only if rounding it up does not wrap. |
| `Paging.AddressSpace.EnsureTable` | src/mem/paging.c:21-31 | A directory slot without a table gets a cleared one; the walk does not change. |
| `Paging.AddressSpace.MapIdentityPages` | src/mem/paging.c:50-52 | The loop extends the identity page by page. |
| `HeapBlocks.AllocatedInOrder` | src/mem/heap.c:40-70 | An allocation keeps the blocks tiling the arena, aligned, with no two free neighbours. |
| `HeapBlocks.FreedInOrder` | src/mem/heap.c:72-91 | Freeing and the merging sweep do so too. |
| `HeapBlocks.AllocatedLive` | src/mem/heap.c:40-70 | An allocation adds exactly one live block, at least as large as asked, and keeps the others. |
| `HeapBlocks.MergedLive` | src/mem/heap.c:82-90 | The sweep neither loses, moves nor invents a live block. |
| `HeapBlocks.FailsOnlyWhenFull` | src/mem/heap.c:40-70 | kmalloc fails if and only if no run of free memory, headers between included, fits the aligned request. |
| `HeapBlocks.RunInOrder` | src/mem/heap.c:20-91 | Over every run of allocations and valid frees the block list tiles the arena without free neighbours. |
| `HeapBlocks.RunPayloads` | src/mem/heap.c:20-91 | After every run payloads are 4-byte aligned, pairwise disjoint and inside the arena. |
| `HeapBlocks.EmptyHeapIsOneBlock` | src/mem/heap.c:20-91 | Once everything is freed, in any order, the heap is again one block of the whole size less one header. |
| `HeapBlocks.BytesConserved` | src/mem/heap.c:97-109 | Used bytes, free bytes and headers always add up to the arena. |
| `HeapBlocks.AlignUpCovers` | src/mem/heap.c:16-18 | The request served covers the one made if and only if rounding up does not wrap; the largest size is served as 0. |
| `HeapBlocks.AlignUpIsTight` | src/mem/heap.c:16-18 | Without wrap-around the request is rounded up to a multiple of 8 by less than 8. |
| `HeapBlocks.TakenIsTight` | src/mem/heap.c:48-64 | The block handed out is at most 20 bytes larger than the request; what is cut off it is free, adjacent and larger than 8 bytes. |
| `HeapBlocks.AllocatedBytes` | src/mem/heap.c:40-70 | An allocation costs the free bytes at least the request and at most 20 bytes more, and the used bytes grow by the new block. |
| `HeapBlocks.FreedBytes` | src/mem/heap.c:72-91 | A free takes exactly the block from the used bytes and gives at least as many back to the free ones. |
| `HeapBlocks.FreedLive` | src/mem/heap.c:72-91 | After a free the live blocks are those before it without the one freed. |
| `HeapBlocks.RunCost` | src/mem/heap.c:40-91 | Over every run of requests and frees the free bytes shrink by no more than the rounded requests and 20 bytes for each. |
| `HeapBlocks.AllServed` | src/mem/heap.c:40-70 | Requests that fit a free tail are all served, side by side, each with just what it needs, and the rest stays one free block. |
| `HeapBlocks.FreshHeapServes` | src/mem/heap.c:28-70 | On a fresh heap requests that fit with 8 bytes to spare are all served, and a further one is served if and only if what is left holds it. |
| `Heap.Arena.Init` | src/mem/heap.c:28-37 | The header bytes written at the start spell one free block covering the arena. |
| `Heap.Arena.FindFit` | src/mem/heap.c:46-68 | The pointer walk over header bytes stops at the first fitting block of the list, or runs off its end. |
| `Heap.Arena.Malloc` | src/mem/heap.c:40-70 | For every size the bytes spell the list of the specification, the result points at the payload of the first fit, and no byte of a live payload changes. |
| `Heap.Arena.Split` | src/mem/heap.c:51-60 | The new header and the shortened one spell the split block; nothing else is written. |
| `Heap.Arena.MergeSweep` | src/mem/heap.c:81-90 | The sweep that rewrites headers in place ends in the fully merged list. |
| `Heap.Arena.Free` | src/mem/heap.c:72-91 | The bytes spell the freed and merged list, and no byte of a live payload changes. |
| `Heap.Arena.CountUsedBytes` | src/mem/heap.c:97-109 | The walk adds up the live payload sizes. |
| `Heap.Arena.Take` | src/mem/heap.c:50-65 | The chosen block is used, with the rest split off when it is large enough; live payload bytes stay. |
| `Heap.Arena.Join` | src/mem/heap.c:83-86 | One block swallows its right neighbour, by rewriting one header. |
| `Heap.HeadLayout` | src/mem/heap.c:7-11 | A block header lies in memory as size, flag, three bytes of padding and next. |
| `RoundRobin.PickKeepsInv` | src/task/scheduler.c:15-33 | A pick leaves at most one task running, the current one, and never revives a terminated one. |
| `RoundRobin.RunKeepsInv` | src/task/scheduler.c:15-98 | So does every run of picks, creations and exits. |
| `RoundRobin.TerminatedNotPicked` | src/task/scheduler.c:35-48 | A task once terminated is never picked again. |
| `RoundRobin.PickProgress` | src/task/scheduler.c:15-33 | Each pick either chooses a given ready task or brings it nearer by (t - current - 1) mod count. |
| `RoundRobin.ReadyIsPicked` | src/task/scheduler.c:15-33 | With a fixed task set a ready task is picked within count rounds, whichever tasks finish meanwhile. |
| `RoundRobin.PickIsFirst` | src/task/scheduler.c:15-33 | The first runnable task behind the current one is picked and alone runs, the current one being last in line; without a runnable task nothing changes. |
| `RoundRobin.AnotherTakesOver` | src/task/scheduler.c:15-33 | The current task changes at a pick if and only if another task is ready. |
| `RoundRobin.CreatedIsPicked` | src/task/scheduler.c:69-98 | A task just created is picked within as many rounds as there are tasks. |
| `ContextSwitch.SaveHolds` | boot/interrupts.asm:56-61 | The pushed frame holds the registers, return address and stack of the leaving task; other stacks are untouched. |
| `ContextSwitch.LoadRestores` | boot/interrupts.asm:62-69 | The popped frame gives the entering task back exactly what was held. |
| `ContextSwitch.SwitchKeeps` | boot/interrupts.asm:52-69 | One switch holds what the leaving task had and resumes the other as it was. |
| `ContextSwitch.FreshHeld` | src/task/scheduler.c:82-95 | A new stack holds a task that starts at task_bootstrap with zero registers. |
| `ContextSwitch.YieldBooked` | src/task/scheduler.c:113-131 | At a yield that changes tasks, the task taking over finds registers, return address and stack as it left them. |
| `ContextSwitch.RunRestores` | src/task/scheduler.c:69-131 | The same at every switch of any interleaving of work, yields, exits and creations. |
| `ContextSwitch.StartRestores` | src/task/scheduler.c:100-111 | Booting n tasks enters the first at task_bootstrap on an empty stack, and every run from there restores each task. |
| `ContextSwitch.YieldTargetMeans` | src/task/scheduler.c:113-131 | A yield switches stacks if and only if another task is ready, and then to a ready one. |
| `Scheduler.TaskTable.constructor` | src/task/scheduler.c:50-67 | The table starts with all slots unused and no current task. |
| `Scheduler.TaskTable.PickNext` | src/task/scheduler.c:15-33 | The scan with wrap-around picks what the specification picks. |
| `Scheduler.TaskTable.SaveRegisters` | boot/interrupts.asm:53-61 | Push by push, memory and saved stack pointer are those of the specification. |
| `Scheduler.TaskTable.PopRegisters` | boot/interrupts.asm:62-69 | Pop by pop, the registers are those of the specification; memory is only read. |
| `Scheduler.TaskTable.SwitchStacks` | boot/interrupts.asm:52-69 | The instruction sequence as a whole performs the specified switch. |
| `Scheduler.TaskTable.CreateTask` | src/task/scheduler.c:69-98 | The next slot and its initial stack, or nothing when the table is full or there is no entry function. |
| `Scheduler.TaskTable.Start` | src/task/scheduler.c:100-111 | Task 0 is entered; without tasks the kernel panics. |
| `Scheduler.TaskTable.Yield` | src/task/scheduler.c:113-131 | A yield stays put with fewer than two tasks or when no other can run, and otherwise switches stacks. |
| `Scheduler.TaskTable.OnTick` | src/task/scheduler.c:133-139 | A preemption falls due on every fourth tick and stays due until served. |
| `Scheduler.TaskTable.MaybePreempt` | src/task/scheduler.c:141-146 | A due preemption is served by exactly one yield. |
| `Scheduler.TaskTable.EntryReturned` | src/task/scheduler.c:43-47 | A task whose entry function has returned is terminated and nothing else changes. |
| `Screen.FillClips` | src/video/framebuffer.c:121-149 | The promised clipping to the screen holds if and only if x + w and y + h stay below 2^32; beyond that nothing is drawn. |
| `Screen.ApplyKeepsSync` | src/video/framebuffer.c:96-210 | Each operation keeps front and back equal at every visible pixel outside the dirty rectangle. |
| `Screen.RunKeepsSync` | src/video/framebuffer.c:96-210 | So does every run of draws, marks and flushes. |
| `Screen.FlushShowsAll` | src/video/framebuffer.c:185-210 | From a clear on, flushing the dirty rectangle shows what copying the whole screen would. |
| `Screen.BufferedShowsDirect` | src/video/framebuffer.c:96-210 | After a clear, any drawing and a flush, the buffered screen looks like one drawn on directly. |
| `Screen.ClearSyncs` | src/video/framebuffer.c:96-107 | A clear brings the buffers in step whatever they held before. |
| `Screen.PixelAfter` | src/video/framebuffer.c:96-169 | Each operation gives a pixel the colour it says, inside its rectangle, and leaves every other pixel. |
| `Screen.PixelAfterRun` | src/video/framebuffer.c:96-169 | After any run a pixel has the colour of the last operation that paints it. |
| `Screen.PixelFlushed` | src/video/framebuffer.c:185-210 | A flush shows drawn pixels inside the dirty rectangle and leaves the rest of the screen. |
| `Screen.ExpandedIsLeast` | src/video/framebuffer.c:19-37 | The new dirty rectangle is inside another one if and only if both the old one and the added one are. |
| `Screen.MarksWanted` | src/video/framebuffer.c:121-169 | Filling and marking make exactly the rectangle asked for dirty, clipped to the screen. |
| `Framebuffer.Canvas.constructor` | src/video/framebuffer.c:70-77 | An empty dirty rectangle and a zeroed back buffer, if there is one. |
| `Framebuffer.Canvas.ExpandDirtyRect` | src/video/framebuffer.c:19-37 | The dirty rectangle becomes the smallest one around both, empty ones ignored. |
| `Framebuffer.Canvas.PaintRect` | src/video/framebuffer.c:135-146 | The nested loops paint exactly the cells of the rectangle. |
| `Framebuffer.Canvas.Clear` | src/video/framebuffer.c:96-107 | Every visible pixel takes the colour and is marked dirty. |
| `Framebuffer.Canvas.PutPixel` | src/video/framebuffer.c:109-119 | One visible pixel, or nothing outside the screen. |
| `Framebuffer.Canvas.FillRect` | src/video/framebuffer.c:121-149 | The clipped rectangle, with far edges as 32-bit sums, is painted and marked. |
| `Framebuffer.Canvas.MarkDirtyRect` | src/video/framebuffer.c:151-169 | The clipped rectangle is marked; no pixel changes. |
| `Framebuffer.Canvas.Flush` | src/video/framebuffer.c:185-210 | Exactly the dirty rectangle is copied to the screen and is clean afterwards. |
| `Framebuffer.Canvas.PaintRow` | src/video/framebuffer.c:136-144 | One row of the rectangle is painted and no other byte. |
| `Framebuffer.Canvas.CopyRow` | src/video/framebuffer.c:199-206 | One row of the dirty rectangle is copied and no other byte. |
| `ElfImage.HeaderAccepts` | src/exec/exec.c:137-167 | An accepted header starts with the ELF magic, class, data and version bytes, and its table lies in the file exactly when the table's end does not wrap. |
| `ElfImage.LastWins` | src/exec/exec.c:211-221 | On overlap an address holds the file byte of the last segment that has one. |
| `ElfImage.ZeroElsewhere` | src/exec/exec.c:211-221 | Addresses no segment has a file byte for hold zero. |
| `ElfImage.SegmentInImage` | src/exec/exec.c:211-221 | A segment that shares no address appears as the ABI describes: its file bytes, then zeros up to its memory size. |
| `ElfImage.ScanMeaning` | src/exec/exec.c:169-190 | The bounds found are bounds of all loaded segments and attained; a segment is refused exactly when its check fails. |
| `ElfImage.InsideIffSumsFit` | src/exec/exec.c:169-190 | The checks put all data inside the file and all addresses inside the image if and only if the header sums do not wrap. |
| `ElfImage.RefusedMeans` | src/exec/exec.c:169-203 | With sums that fit, the two refusals mean a malformed segment and no loadable segment. |
| `ElfImage.WrappedEndAccepted` | src/exec/exec.c:183-196 | A concrete pair of segments whose wrapped end is accepted with bounds that do not contain it. |
| `ElfImage.WrappedTableAccepted` | src/exec/exec.c:163-167 | A concrete header is accepted though its program header table is not in the file. |
| `ElfImage.PhdrDecoded` | src/exec/exec.c:33-42 | A program header laid out field by field is read back, the fields the loader skips being arbitrary. |
| `ElfImage.SegmentsDecoded` | src/exec/exec.c:169-172 | So is the whole program header table. |
| `ElfImage.EhdrDecoded` | src/exec/exec.c:16-31 | The fields of a header laid out in the order of the specification are read back. |
| `ElfImage.AcceptedMeans` | src/exec/exec.c:137-167 | A file is accepted if and only if its header names an i386 executable, 32 bits, little-endian, version 1, with a table of 32-byte entries ending, modulo 2^32, inside the file. |
| `ElfImage.AcceptedLayout` | src/exec/exec.c:169-203 | With sums that fit, the segments are accepted if and only if there is one to load, all are well formed, and no two reach more than 1 MiB apart. |
| `Exec.ReadFileAll` | src/exec/exec.c:75-114 | Delivers the whole file exactly when it exists, is readable or empty, and descriptor and memory are to be had; descriptors are as before. |
| `Exec.ReadPieces` | src/exec/exec.c:96-102 | The loop ends with every byte of the file, or short of it exactly when the file may not be read. |
| `Exec.ScanSegments` | src/exec/exec.c:169-190 | The loop computes the specified bounds. |
| `Exec.BuildImage` | src/exec/exec.c:211-221 | Zeroing and copying in order build the image the program headers mean, with every copy inside it. |
| `Exec.LoadElf` | src/exec/exec.c:137-228 | Each refusal has the reason the checks name; acceptance gives the image and an entry point inside it. |
| `Exec.RunElf` | src/exec/exec.c:116-228 | What runs is the image of the named file's bytes; files and descriptors are untouched. |
| `Exec.ScanOne` | src/exec/exec.c:173-189 | One program header is ignored, refused or widens the bounds. |
| `Exec.PlaceSegment` | src/exec/exec.c:213-221 | One segment's file bytes go over what earlier segments left. |
## Left out

- SimpleFs.FileSystem.Create: the current directory must be a live directory, which the code takes on trust.
- SimpleFs.FileSystem.Write: offset + length + 511 and the bump pointer must stay below 2^32, as the code's arithmetic assumes.
- CopyFile.Copy: for a file copied onto itself or a source that may not be read the bytes delivered are none, as in the code.
- Heap.Arena.Free: takes null or a pointer handed out and not yet freed.
- Paging.AddressSpace.InitIdentity: loading CR3 and enabling paging are not modelled, tables are addressed physically.
- TcpReceive.SessionDelivers: delivery for a network that loses and reorders nothing; retransmission and timeouts are not modelled.
- ContextSwitch.RunRestores: stacks are arrays of words and each task writes only its own stack; interrupts in the middle of a switch are not modelled.
- RoundRobin.ReadyIsPicked: the task set is fixed while waiting; blocked tasks do not occur because the code has no blocking yet.
- Screen.FlushShowsAll: the pitch is at least the width; waiting for vertical retrace is left out.
- SfsRuns.RunRefines: what a gap past the end of a file holds is whatever its sectors held, so the updates carry those bytes.
- Paging.AddressSpace.MapHeap: start and size leave room below 2^32, as the heap's own set-up does.
- Exec.ReadPieces: each read goes through a buffer of its own and is then copied to its place, instead of into the middle of the file buffer.
- Exec.RunElf: the jump to the entry point and what the program does are not modelled; `Exec.LoadElf` requires header sums below 2^32, which is exactly when the checks bound the copies.
- The sector driver itself: the device is an array of sectors that fails only past its end.
- Crash atomicity of the metadata flush, reuse of freed sectors, descriptors or directories used after their node is removed: the code promises none of these.
- Directory listing, stat, changing directory, the environment table and per-terminal contexts: they read or copy what is modelled here.
- Sending packets, ARP, ICMP, DHCP, timeouts and the activity clock: an acknowledgement is modelled as the number it carries.
- Status flags kept in bytes are booleans, and the text name of a task and its argument are dropped.
- Display, windows, editor, command line, keyboard, mouse and boot information: pixel drawing and bounded buffers with easy properties.
