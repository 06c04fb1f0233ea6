# lab4 file system: model and proofs

A Dafny 4.11 model of the lab4 FUSE file system: a small file system with a superblock, two bitmaps, an inode table
of 32 inodes and a data area of 4096-byte clusters, of which the program keeps the four metadata clusters both in
memory and on the device. Directories are one-cluster tables of 32 slots, a file has at most one cluster.

Three layers:

- **State and operations.** `Layout`, `Paths`, `Namespace` and `FsSpec` give the state (both copies of the metadata,
  the derived `sbi` fields, data clusters, open files) and one function for each C function that changes it.
- **Theorems.** `Fsck.Consistent` is the invariant an fsck would check: geometry; bitmaps, inode table and hints
  agree; every directory or non-empty file owns one marked block and no block has two owners; free blocks are all
  zero; the device lags behind memory only by lost inodes; handles know their files; the directories form a tree
  rooted at inode 2 with dot entries in slots 0 and 1, no duplicate names, and every inode in it named by exactly one
  slot and reached from the root. `TreeSteps`, `Updates` and the `*Step` modules prove that every operation keeps it
  and refines one edit of `NameTree.NamesOf`, the map from paths to directories and file bytes. `Runs`, `Ledger`,
  `Lifetimes`, `Links`, `DotDots`, `Listings` and `Undo` lift this to whole runs. `Limits` states in plain numbers what
  a format writes, how many files can be open and what an open leaves. `AbstractFs` is a small deterministic file
  system on names, handles and three counts; `Abstraction` proves that every run is a run of it, reply by reply.
  `Examples` holds concrete runs in which the code departs from intent.
- **The program in place.** `BmapRaw`, `Bmap` and `IoManager` hold the buffers as arrays and the operations as loops
  and assignments on classes `Device` and `FileSystem`. Each method is proved to change `Model()` exactly as its
  function in `FsSpec` says, and the callbacks by path to be steps of `Runs`.

`ListHead` is separate: the circular doubly linked list, pointer surgery on shared nodes refining sequences.

## What the kernel guarantees

The operations are stated for what the layer above FUSE passes down: names of 1 to 115 bytes other than `.` and
`..`, paths whose two parts each fit a 116-byte buffer, directories as intermediate components, rmdir on directories,
unlink on files that are not open, one handle for each file, an existing parent for a rename's target. `Runs.Allowed`
spells this out. A rename in a run also meets the condition of `RenameStep.RenameConsistentIff`. malloc, pread and
pwrite succeed; a device is all zero when it is formatted and has 2 to 32768 data blocks of 8 sectors of 512 bytes.

## Where the code departs from the obvious intent

The model does what the code does; each departure has its exact condition.

- A rename across directories keeps the old base name (dir.c:495-496): `RenameReachesTargetIff`,
  `Examples.RenameMissesTarget`.
- A target that exists is never replaced: a file is an error, even when it is the source itself, and a directory, empty
  or not, gets the entry one level below (dir.c:466-468, 493-537): `RenameStatus`, `RenameReachesTargetIff`,
  `RenameOntoDirectory`, `Examples.RenameLandsBelow`.
- Rename looks up the new name but inserts the old one, and does not check for its own subtree (dir.c:499-523):
  `RenameConsistentIff`, `Examples.RenameTwiceNamed`, `Examples.RenameIntoItself`.
- A directory moved across directories updates neither dot-dot nor link counts: `Links.StepLinksIff`,
  `Examples.RenameStaleLinks`. The counts go on following the dot-dot entries until such a directory is removed:
  `DotDots.StepUpsIff`, `DotDots.LinkCountsWithMoves`. Its dot-dot goes on naming the directory it was made in, even when
  that one is gone: `Listings.DotDotIsBirthplace`, `Examples.DotDotDangles`.
- A mkdir that finds no block keeps the inode number in memory (dir.c:225-229): `Ledger.SyncedStepIff`,
  `Examples.MkdirLosesInode`. A remount before the superblock is next written hands the number out again:
  `Lifetimes.AllocatedIncreasingIff`, `Examples.NumberComesBack`.
- lab4_createfile charges an inode twice (file.c:159): `Ledger.InodesBalance`; the count slips when a lost inode's bit is
  forgotten and its charge is not, or the other way round: `Lifetimes.InodesBalanceIff`, `Examples.InodeCountSlips`.
- Format does not charge block 0 (fsformat.c:217, 408): `Ledger.BlocksBalance`.
- Inode numbers are not reused (inode.c:306-307): no two created inodes ever have the same number, so the file system
  runs out after 29 creations whatever is deleted: `Lifetimes.IssuedIncreasing`, `Lifetimes.AtMostTwentyNine`.
- do_read ignores its offset and stops at a NUL (file.c:518-520): `ReadExact`, `ReadIsRightIff`,
  `Examples.ReadIgnoresOffset`.
- do_write over a file from its start copies up to the first NUL, drops the old bytes past the buffer and returns 4096
  (file.c:455-468): `WriteIsRightIff`, `WriteCases`, `Examples.OverwriteCutsAtNul`, `Examples.OverwriteDropsTheRest`.
- An open that creates its file and then finds no free handle fails, but the file stays (file.c:197-218):
  `Abstraction.OpenAbs`.
- do_readdir at an offset counts from there but reads from the first slot (dir.c:158-171): `ReaddirEntries`,
  `ReaddirIsRightIff`.
- The missing check for a full directory (dir.c:286-292) is harmless: `NoOverflow`.

## Model

| member | source | states |
|---|---|---|
| BmapRaw.SetInAdds | bmap_raw.c:37-47 | Over every buffer and index: setting a bit makes the buffer stand for the old set of bit numbers plus exactly that one; the seven other bits of the byte and all other bytes keep their meaning |
| BmapRaw.BitsAre | bmap_raw.c:61-69 | Which bit a number means: bit nr % 8 of byte nr / 8, the lowest bit first |
| BmapRaw.ClearInRemoves | bmap_raw.c:49-59 | Clearing takes exactly that number out of the set |
| BmapRaw.TestAfterCalls | bmap_raw.c:37-69 | After any sequence of set and clear calls a bit tests as set iff the last call naming it was a set, or none named it and it was set at the start |
| BmapRaw.SetBit | bmap_raw.c:37-47 | In place: the buffer's set gains the number; the result says whether it was in |
| BmapRaw.ClearBit | bmap_raw.c:49-59 | In place: the buffer's set loses the number; the result says whether it was in |
| BmapRaw.TestBit | bmap_raw.c:61-69 | True iff the number is in the buffer's set |
| Bmap.VisitsEachOnce | bmap.c:59-65 | From any hint below n the cyclic scan visits each position of [0, n) exactly once |
| Bmap.ScanFailsIffFull | bmap.c:92-110 | From a hint below n the scan fails iff every position is taken |
| Bmap.Scan | bmap.c:59-73 | A position found is below n, clear, and every position visited before it is taken |
| Bmap.ScanTakesFirstClear | bmap.c:89-106 | In positions alone: the scan takes the first clear one from the hint on, or the first one from 0 on when there is none from the hint on |
| Bmap.ScanAllocate | bmap.c:46-116 | The loop of both scans: finds the position Scan specifies, sets that bit only, and leaves the set as it was on failure |
| Bmap.ScanAtClearHint | bmap.c:59-73 | A clear hint is itself the answer if it is in range, and otherwise the scan fails |
| Paths.SplitAgreesWithTokens | dir.c:102-143 | For every path with a slash, d + "/" + f is the path, f has no slash, and the tokens of the path are those of d followed by f when f is not empty |
| Paths.TokensOfName | inode.c:143-155 | A slash-free name is its own only token |
| Paths.GetNameFromPath | dir.c:102-143 | The strchr loop leaves the text after the last slash and the text before it |
| Paths.StrTok | inode.c:143-155 | Each call skips slashes and returns the next maximal slash-free run; what is left tokenises to the remaining tokens |
| StepFacts.WalkSplits | inode.c:127-168 | Resolving a path with a base name is resolving its directory part and looking the base name up there, for repeated slashes and an empty directory part too |
| Namespace.PathUnique | dir.c:41-100 | In a well-formed tree two legal paths to the same inode are equal |
| Namespace.NoOverflow | dir.c:286-292 | Every directory of a well-formed tree has a slot that is not USED past the dot entries: 29 nameable inodes, 30 slots |
| Namespace.Pigeonhole | dir.c:286-292 | Distinct numbers from a range are no more than the range is long |
| TreeSteps.AddResolves | dir.c:204-311 | Adding an entry makes exactly one path resolve to something else: parent path plus name now leads to the new inode |
| TreeSteps.AddKeepsTree | dir.c:204-311 | The tree stays a tree: shapes, one entry per inode, everything reached |
| TreeSteps.RemoveResolves | dir.c:363-420 | Removing a childless entry makes exactly its own path unresolvable |
| TreeSteps.RemoveKeepsTree | dir.c:363-420 | The tree stays a tree without the removed inode |
| TreeSteps.MoveResolves | dir.c:459-538 | After a move a path resolves to what its preimage resolved to before: below the destination the subtree of the source, below the source nothing, elsewhere the same |
| TreeSteps.Orphaned | dir.c:493-531 | When the destination lies below what is moved, no path at all leads afterwards to any inode from the moved one down to the destination |
| TreeSteps.MoveKeepsTreeIff | dir.c:493-531 | A move keeps the tree a tree iff its destination is not at or below what is moved |
| Fsck.AddressRoundTrip | dir.c:262 | For every device format accepts and every block of it: the address recorded at allocation is aligned, lies after the inode table and inside the device, and maps back to the block at deletion |
| Fsck.BlocksDisjoint | dir.c:301 | Byte ranges of different blocks never meet |
| Fsck.ClaimBlock | file.c:417-424 | Taking a free block for an inode without one keeps: owners' blocks marked, no block owned twice, free blocks all zero |
| Fsck.ReleaseBlock | inode.c:353-361 | Giving a block back zeroed keeps the same |
| StepFacts.AllocTakesHint | inode.c:287-312 | In every consistent state an inode allocation returns exactly the hint and fails iff the hint has reached 32: the cyclic part of the scan is never taken |
| StepFacts.AllocTakesFreeBlock | bmap.c:81-116 | A block allocation fails iff all blocks are taken, and else takes the first free one from the hint that lab4_fill_super cached on, or from block 0 on when there is none from the hint on |
| MkdirStep.MkdirStatus | dir.c:215-229 | Which status do_mkdir returns in which state, and that a failure changes nothing but what restore_ibmap and restore_dbmap leave: after a missing block the inode number stays taken in memory |
| MkdirStep.MkdirFailure | dir.c:219-229 | What each error leaves, field by field: without an inode the bitmap of the device, without a block the inode's bit, hint and charge |
| MkdirStep.MkdirSuccess | dir.c:231-311 | The whole state after a successful do_mkdir: bitmaps, counters, hints, both inodes, parent slot, dot entries, device copies; its block is the first free one from the cached hint on |
| MkdirStep.MkdirConsistent | dir.c:204-321 | Whatever do_mkdir returns, every invariant of Fsck.Consistent holds afterwards |
| MkdirStep.MkdirRefines | dir.c:204-321 | On the map from paths to nodes do_mkdir inserts one empty directory or does nothing; it reports existence iff the path was there |
| CreateStep.CreateCases | file.c:71-166 | Every status of lab4_createfile, too long a name included, and the whole new state; a success takes two off the free-inode count |
| CreateStep.CreateConsistent | file.c:71-176 | Whatever it returns the invariant holds afterwards |
| CreateStep.CreateRefines | file.c:71-166 | It inserts one empty file or does nothing; it reports existence iff the path was there |
| RemoveStep.RmdirCases | dir.c:363-420 | do_rmdir removes iff the name is there and the directory has no entry past the dots; the whole new state, with the freed cluster zeroed; otherwise nothing changes |
| RemoveStep.RmdirConsistent | dir.c:363-430 | Whatever do_rmdir returns the invariant holds afterwards |
| RemoveStep.RmdirRefines | dir.c:363-420 | It removes exactly one leaf or does nothing; it reports absence iff the path was not there |
| RemoveStep.FileFacts | file.c:354-355 | Every live file has link count 1, so do_unlink always frees |
| RemoveStep.UnlinkCases | file.c:333-386 | do_unlink succeeds iff the name is there; the whole new state, with the freed cluster zeroed |
| RemoveStep.UnlinkConsistent | file.c:333-392 | Whatever do_unlink returns the invariant holds afterwards |
| RemoveStep.UnlinkRefines | file.c:333-386 | It removes exactly one file or does nothing |
| RenameStep.RenameStatus | dir.c:450-538 | do_rename fails iff the source is missing, or the target is a file or a directory that already has the source's base name; a failure changes nothing |
| RenameStep.RenameMoves | dir.c:459-538 | A success turns one slot into another, and says which: in its own directory the same slot under the new name; else the first slot not USED of the target directory or of the target's parent, under the old name |
| RenameStep.RenameConsistentIff | dir.c:493-531 | A successful rename keeps the whole invariant iff the directory it lands in is not at or below the source and nothing is at the landing path; the code checks neither |
| RenameStep.RenameRefines | dir.c:459-538 | Under that condition the path map afterwards is the old one with the subtree at the source relocated to the landing path, bytes included |
| RenameStep.RenameReachesTargetIff | dir.c:466-531 | After any successful rename the target path leads to what was at the source path iff the target did not exist, and the entry stays in its directory or the base names agree |
| RenameStep.RenameNewTarget | dir.c:469-531 | A target that did not exist leads to the moved inode, or still nowhere |
| RenameStep.RenameOntoDirectory | dir.c:493-531 | A target that existed, a directory, keeps its own node, and the moved inode is one level below it under its old name |
| FileStep.WriteCases | file.c:399-486 | do_write fails iff the file is empty and no block is free; else the whole new state and the returned count, which is 4096 for an overwrite; an empty file gets the first free block from the cached hint on |
| FileStep.WriteConsistent | file.c:399-486 | The invariant holds after every write |
| FileStep.WriteRefines | file.c:399-486 | A write changes the bytes of one file only; byte by byte at its path: past the end the old bytes, zeros up to the offset and the buffer; over the file from its start the buffer up to its first NUL and NULs for the rest of its length |
| FileStep.WrittenBytes | file.c:437-468 | The same, of the bytes alone, without the string copy |
| FileStep.WriteIsRightIff | file.c:437-468 | A write leaves the buffer over the old bytes iff it is an append, or it reaches the end of the old bytes and holds nothing but NUL after a NUL: an overwrite drops what is past the buffer and copies a string |
| FileStep.OverwriteLeavesBufferIff | file.c:455-468 | An overwrite from the start leaves just the bytes written iff nothing but NUL follows a NUL in them |
| FileStep.ReadExact | file.c:488-536 | Whatever the offset, do_read returns the first `size` bytes of the file up to their first NUL |
| FileStep.ReadMovesHandle | file.c:516-533 | A read moves the handle's offset by `size`, at most to the end of the cluster, not at all in an empty file, and changes nothing else |
| FileStep.ReadIsRightIff | file.c:488-536 | A read at any offset returns the bytes there iff these are also the first bytes of the file, hold no NUL, and end where the string scan does |
| FileStep.ReadIsRightAtZero | file.c:515-520 | In particular, a read past the end of a NUL-free file is right iff its offset is 0 |
| FileStep.ReadChangesNothing | file.c:488-536 | A read keeps the invariant and every name and byte |
| FileStep.AppendsJoin | file.c:437-452 | Any sequence of appends through one handle leaves the old bytes followed by all buffers joined |
| FileStep.WriteReadRoundTrip | file.c:399-536 | After any NUL-free appends to an empty file, n bytes in all below a cluster, a read of S bytes at offset 0 returns the first min(n, S) |
| FileStep.OpenConsistent | file.c:179-236 | do_openfile keeps the invariant; the names change only by the file it creates |
| FileStep.CloseConsistent | file.c:263-276 | Closing keeps the invariant and the names |
| Limits.ThirteenHandles | file.c:40-56 | At most 13 files are open, under the ids 3 to 15; the scan for a free id fails iff 13 are, and else takes the least |
| Limits.OpenCases | file.c:179-236 | do_openfile in full: a directory is refused, a file fails iff 13 are open, else its new handle has the file's inode and size, the flags, and its offset at the end for an append and at 0 otherwise; a file just created stays when no handle is left |
| Limits.CloseClears | file.c:263-276 | Closing clears all five fields of that record and no other |
| Limits.CreateLimits | file.c:82-100 | A file name has 1 to 115 bytes; a new name fails only when the directory has 2147483647 links or all 32 inode numbers are handed out |
| NameTree.ListingIsNames | dir.c:146-196 | do_readdir from the start lists a legal name with an inode and a type iff the path below the directory leads to that inode and it is of that type |
| NameTree.ListingNames | dir.c:146-196 | do_readdir lists no name twice |
| NameTree.ReaddirEntries | dir.c:158-186 | Entry by entry, for every offset: of the first 32 - offset slots those in use, in slot order, each with its name, inode number and whether that inode is a directory; past 32 nothing |
| NameTree.ReaddirIsRightIff | dir.c:158-171 | do_readdir from an offset lists the entries from there on iff the offset is 0 or 32: it counts from the offset but reads from the first slot |
| Listings.DotsShown | dir.c:171-186 | The listing of any live directory d begins with (., d, directory), then .. with the number in slot 1, shown as a directory iff that inode is one now; legal names follow |
| Listings.ParentShown | dir.c:171-186 | Where dot-dot entries are exact the second entry is the directory at the path above, as a directory |
| Listings.StepKeepsUps | dir.c:493-531 | No operation rewrites the dot-dot entry of a directory that is there before and after |
| Listings.DotDotIsBirthplace | dir.c:236-301 | Over any run in which it exists, wherever it is moved, a directory shows as dot-dot the directory it was made in, as a directory iff that one still exists |
| Listings.RootShowsItself | fsformat.c:241-251 | After every run from a format the root shows itself as dot and as dot-dot |
| NameTree.NamesMovedTo | dir.c:493-531 | Moving an entry relocates the subtree in the map from paths to nodes |
| MountStep.FormatConsistent | fsformat.c:200-254 | A formatted zeroed device mounts as a consistent file system with just an empty root |
| MountStep.RemountConsistent | mount.c:93-202 | A remount of any consistent state, even after a mkdir that failed halfway, is consistent and shows the same names and bytes |
| MountStep.RemountTransparent | mount.c:158-202 | When memory and device agree, a remount changes only the cached block hint and the open-file table |
| Limits.MountImage | mount.c:158-202 | A mount in numbers: metadata, hints and derived fields from the device, 16 cleared file records |
| Limits.DataAreaFills | fsformat.c:405 | The data area takes every whole cluster after the first four: 8(n + 4) <= sectors < 8(n + 5) for n blocks; no further block fits the device |
| Limits.FormatImage | fsformat.c:200-413 | Every field of the superblock, both bitmaps and all 32 inodes of a fresh device, in numbers |
| Limits.FormatClusters | fsformat.c:237-251 | Its data area: the root's two dot entries in block 0, zeros elsewhere |
| Limits.FirstAllocations | fsformat.c:412-413 | After the first mount inode 3 and block 1 are allocated next |
| Runs.StepConsistent | fuse_main.c:185-299 | Every allowed operation keeps the invariant |
| Runs.ReachableConsistent | fsformat.c:309-501 | Every state reached from a format by any run of mkdir, rmdir, unlink, rename, open, close, write, read and remount is consistent |
| Abstraction.StepRefines | fuse_main.c:185-299 | Every allowed operation is the step of the abstract file system of AbstractFs, a function of the names, the open handles, the next inode number in memory and on the device, and the number of free blocks: the same new names, bytes, handles and counts, and the same reply, handle numbers, byte counts and bytes read included |
| Abstraction.ReachableRefines | fuse_main.c:185-372 | Every run from a format is the run of the abstract file system from an empty root directory, reply by reply |
| Abstraction.RenameNames | dir.c:432-550 | The status of do_rename and the relocation are read off the names alone |
| Abstraction.WriteNames | file.c:399-486 | A write through a handle changes the bytes of the one path that leads to the handle's inode; it fails iff that file is empty and no block is free |
| Abstraction.ReadAbs | file.c:488-541 | A read through a handle returns the first bytes of that path's file up to their first NUL and changes nothing the names, handles or counts show |
| Abstraction.OpenAbs | file.c:179-261 | An open fails iff the path is missing and not to be created or no inode is left, leads to a directory, or no handle is free; else it binds the first free handle from 3 on to the inode at the path |
| Abstraction.HandleData | file.c:410-414 | An open handle stands for exactly one path, and for the bytes there |
| Abstraction.FullIffNoneFree | bmap.c:92-110 | All blocks are taken iff the data area is as large as the set of data bits |
| Abstraction.EmptyIsChildless | dir.c:323-361 | check_dir_deletable's scan agrees with the abstract tree: no entries means no path below |
| Abstraction.EntryBelow | dir.c:323-361 | and an entry means a path below |
| Ledger.StepBooked | inode.c:287-384 | What every operation does to counters, hints, bitmaps, device copies and the set of live inodes, in one of ten ways |
| Ledger.BlocksStayBalanced | bmap.c:103-106 | Free blocks plus set data bits stay the size of the data area plus one |
| Ledger.SyncedStepIff | dir.c:219-229 | From equal memory and device, an operation makes them part iff it is a mkdir of a new name, in a directory that exists, with an inode left and all blocks taken |
| Ledger.InodesStayBalanced | file.c:159 | Free inodes plus set inode bits plus successful creates stay 32, and every bit stands for a live inode |
| Ledger.CountersConserved | fsformat.c:407-408 | Over every run from a format: the block count always; the inode count, no leaked bit, and equal memory and device when no mkdir runs out of blocks halfway |
| Lifetimes.InodesBalanceIff | inode.c:223-231 | Over every run from a format: free inodes, set bits and creates add up to 32 less the slips, counted from the mkdirs that lost an inode and the writes of superblock and bitmap since, at each remount and each time the bitmap is read back; so the balance holds iff they cancel out |
| Ledger.BitsAreNames | inode.c:367-384 | An inode bit past the reserved ones is set iff some USED non-dot slot names the inode |
| Limits.LinkSteps | inode.c:386-398 | The two link operations add and take one, around 2^32 |
| Lifetimes.IssuedIncreasing | inode.c:287-312 | Over any run, remounts and deletions included, the numbers of created inodes (those an operation succeeded with) strictly increase and stay below 32 |
| Lifetimes.AtMostTwentyNine | inode.c:287-312 | At most 29 inodes are created in the life of a device; after the 29th every allocation of every later state fails |
| Lifetimes.Exhausted | bmap.c:59-73 | Once the device's hint has reached 32 no number is ever handed out again |
| Lifetimes.AllocatedIncreasingIff | inode.c:287-312 | From a device that does not lag behind, the numbers alloc_new_inode hands out, to a mkdir that then fails for lack of a block as well, strictly increase over a run iff no remount while it lags is followed by an allocation |
| Lifetimes.LaggingStepIff | dir.c:219-229 | The device lags after an operation iff that was such a mkdir, or it lagged before and the operation did not write the superblock |
| Lifetimes.RemountAfterRunIff | mount.c:101-202 | After any run from a format memory and device agree, and equivalently a remount gives back the state but for the block hint and the open files, iff after every mkdir that lost an inode the superblock was written again and the inode bitmap was written or read back |
| Lifetimes.LinksStayNear | inode.c:386-398 | Whatever directories are moved, no link count drifts further from its start than inodes were created or removed |
| Lifetimes.NeverCrowded | file.c:90-94 | so the check of lab4_createfile against the largest link count never fails |
| Links.MoveKeepsLinksIff | dir.c:493-531 | A move keeps link counts and dot-dot entries exact iff it gives no directory another parent |
| Links.RenameLinksIff | dir.c:493-531 | The same for a successful do_rename, by its paths before the call |
| Links.StepLinksIff | dir.c:303 | Every operation keeps them exact iff it is not such a rename |
| Links.LinkCounts | inode.c:386-398 | Over runs without one: each directory's count is 2 plus its child directories, each file's is 1 |
| DotDots.StepUpsIff | dir.c:303 | From counts of 2 plus the dot-dot entries naming the directory, every operation keeps them, moves of directories included, except the rmdir of a directory whose dot-dot names another than the one it is in, which never does |
| DotDots.LinkCountsWithMoves | inode.c:386-398 | Over every run from a format without such an rmdir each directory's count is 2 plus the directories whose dot-dot names it, whatever was moved; link counts and dot-dot entries are both exact iff the dot-dot entries are |
| Undo.RmdirUndoesMkdir | dir.c:204-420 | mkdir then rmdir of the same name restores bitmaps, free counters, inode table and every cluster, except the two hints and one slot left deleted |
| Examples.RenameMissesTarget | dir.c:495-531 | A run: rename /f to /a/g succeeds and the file is at /a/f, nothing at /a/g |
| Examples.RenameLandsBelow | dir.c:466-531 | A run: rename /b to an existing /a succeeds and the directory is at /a/b |
| Examples.RenameIntoItself | dir.c:473-531 | A run: rename /a to /a/b succeeds and breaks the tree |
| Examples.RenameTwiceNamed | dir.c:495-531 | A run: rename /f to /a/g with /a/f present succeeds and leaves two entries f |
| Examples.RenameStaleLinks | dir.c:520-531 | A run: rename /a to /b/a succeeds and leaves link counts or dot-dot wrong |
| Examples.DotDotDangles | dir.c:493-531 | mkdir /a/b, rename /a/b to /b, rmdir /a: readdir of /b shows .. as inode 3, not a directory |
| Examples.MkdirLosesInode | dir.c:225-229 | A run: with both blocks taken mkdir /b fails, and memory and device part |
| Examples.NumberComesBack | inode.c:287-312 | A run: after that mkdir and a remount, creating /f gets the number the mkdir had got |
| Examples.ReadIgnoresOffset | file.c:515-520 | A run: a file holding 1, 2, 3 read at offset 1 gives 1, 2, 3 |
| Examples.OverwriteCutsAtNul | file.c:456-467 | A run: writing 1, 0, 3 over 1, 2, 3 reports 4096 bytes and leaves 1, 0, 0 |
| Examples.OverwriteDropsTheRest | file.c:456-468 | A run: writing 9 over 1, 2, 3 leaves 9 alone |
| Examples.InodeCountSlips | file.c:476-478 | A run: after a mkdir that lost its inode, an overwrite and a remount, one create is booked but free inodes and set bits add up to 30 |
| IoManager.Device.Format | fsformat.c:309-501 | The device a format leaves: superblock, bitmaps {0,1,2} and {0}, inode table, root directory in block 0, and as many data blocks as fit: one more would not |
| IoManager.Device.AllocRootInodeDirect | fsformat.c:200-254 | Its two loops over the reserved inodes |
| IoManager.FileSystem.Mount | mount.c:101-202 | All buffers and derived fields come from the device |
| IoManager.FileSystem.CheckFormatted | mount.c:57-156 | A file system is returned iff the signature matches |
| IoManager.FileSystem.Start | fsformat.c:309-501 | Format and first mount reach the initial state of the runs |
| IoManager.FileSystem.Reopen | mount.c:57-202 | A later mount reaches the remounted state with the same names |
| IoManager.FileSystem.AllocNewInode | inode.c:287-312 | In-place allocation does to the model what AllocInode says |
| IoManager.FileSystem.AllocBlockInBmap | bmap.c:81-116 | In place: takes the first free block from the cached hint on, or from 0 on, sets its bit and charges it; or fails and changes nothing |
| IoManager.FileSystem.DeleteInode | inode.c:367-384 | Bit, table entry and counter, as FreeInode says |
| IoManager.FileSystem.DeleteBlockInBmap | inode.c:353-361 | The bit recovered from the address, as FreeBlock says |
| IoManager.FileSystem.Lookup | dir.c:41-100 | The loop finds the first USED slot with the name, or none |
| IoManager.FileSystem.ScanFree | dir.c:286-291 | The loop finds the first slot that is not USED |
| IoManager.FileSystem.ReadInode | inode.c:127-168 | The strtok walk returns the inode that the path resolves to in the tree, or none iff there is none |
| IoManager.FileSystem.CheckDirDeletable | dir.c:323-361 | True iff no slot past the dots is USED |
| IoManager.FileSystem.Mkdir | dir.c:204-321 | In place; whole new state and status as specified, invariant kept |
| IoManager.FileSystem.CreateFile | file.c:71-176 | In place; whole new state and status as specified, invariant kept |
| IoManager.FileSystem.Rmdir | dir.c:363-430 | In place; whole new state and status as specified, invariant kept |
| IoManager.FileSystem.Unlink | file.c:333-392 | In place; whole new state and status as specified, invariant kept |
| IoManager.FileSystem.Rename | dir.c:432-550 | In place; whole new state and status as specified, only the data area written |
| IoManager.FileSystem.Readdir | dir.c:146-196 | From any offset it hands out the entries that NameTree.ReaddirEntries lists, the dot entries of Listings.DotsShown first |
| IoManager.FileSystem.FillEntries | dir.c:169-186 | The loop hands out, in slot order, the USED ones of the first 32 - offset slots with name, inode number and type, as NameTree.ReaddirEntries says |
| IoManager.FileSystem.AllocateOpenFileTable | file.c:40-56 | The first unused handle of 3 to 15, or none iff all 13 are in use |
| IoManager.FileSystem.OpenFile | file.c:179-236 | In place; whole new state and handle as Limits.OpenCases says, invariant kept |
| IoManager.FileSystem.Close | file.c:263-276 | In place; the handle's record is cleared |
| IoManager.FileSystem.Write | file.c:399-486 | In place with its loop; whole new state and byte count as FileStep.WriteCases says, the bytes as FileStep.WrittenBytes does; invariant kept |
| IoManager.FileSystem.Read | file.c:488-541 | In place with its loop; the handle's offset as FileStep.ReadMovesHandle says, the bytes handed out as FileStep.ReadExact does |
| IoManager.FileSystem.ParentOf | fuse_main.c:193-203 | The common start of the callbacks returns the base name and the inode of the directory part, or none iff it does not resolve |
| IoManager.FileSystem.MkdirAt | fuse_main.c:185-216 | One step of the runs, by path, with its reply; the invariant kept |
| IoManager.FileSystem.RmdirAt | fuse_main.c:246-275 | One step of the runs, by path, with its reply; the invariant kept |
| IoManager.FileSystem.UnlinkAt | fuse_main.c:218-244 | One step of the runs, by path, with its reply; the invariant kept |
| IoManager.FileSystem.OpenAt | file.c:239-261 | One step of the runs, by path, with its reply; the invariant kept |
| IoManager.FileSystem.RenameAt | fuse_main.c:282-299 | One step of the runs for any rename, with its reply; the invariant kept when the rename is allowed |
| IoManager.FileSystem.CloseAt | fuse_main.c:369-374 | One step of the runs, with its reply |
| IoManager.FileSystem.WriteAt | fuse_main.c:349-361 | One step of the runs, with its reply; the invariant kept |
| IoManager.FileSystem.ReadAt | fuse_main.c:334-347 | One step of the runs, with the bytes read as its reply; the invariant kept |
| ListHead.Node.constructor | include/lab4_list.h:35-39 | An initialised head is the empty list |
| ListHead.AddBetween | include/lab4_list.h:48-56 | Linking a node in between two neighbours of any ring gives the ring with it inserted there |
| ListHead.Add | include/lab4_list.h:72-75 | The entry comes first |
| ListHead.AddTail | include/lab4_list.h:86-89 | The entry comes last |
| ListHead.DelEntry | include/lab4_list.h:97-113 | The list without that entry, wherever it was |
| ListHead.Del | include/lab4_list.h:115-120 | The same, with the entry's own links set to the two poison addresses |
| ListHead.DelInit | include/lab4_list.h:153-157 | The same, and the entry is an empty list of its own |
| ListHead.Replace | include/lab4_list.h:133-140 | The ring with one node exchanged, heads and one-element rings included |
| ListHead.Move | include/lab4_list.h:164-168 | From its place in either list to the front of the target list; both lists are given |
| ListHead.MoveTail | include/lab4_list.h:175-180 | From its place in either list to the end of the target list; both lists are given |
| ListHead.IsEmpty | include/lab4_list.h:197-200 | True iff the list has no entry |
| ListHead.IsLast | include/lab4_list.h:187-191 | True iff the entry is the last |
| ListHead.IsSingular | include/lab4_list.h:239-242 | True iff the list has one entry |
| ListHead.RotateLeft | include/lab4_list.h:225-233 | The first entry becomes the last; an empty list stays |
| ListHead.CutAt | include/lab4_list.h:244-254 | The prefix through the entry and the rest, two rings |
| ListHead.CutPosition | include/lab4_list.h:270-282 | The same with the guards: at the head the cut part is empty; an empty list or a single entry that is not the given one stays, and so does the new head |
| ListHead.SplicedDistinct | include/lab4_list.h:284-296 | Inserting the entries of a list into a ring apart from it names no node twice |
| ListHead.SpliceBetween | include/lab4_list.h:284-296 | The entries of one list between two neighbours of any ring |
| ListHead.Splice | include/lab4_list.h:303-308 | The entries go to the front; an empty list changes nothing; the spliced head keeps its links |
| ListHead.SpliceTail | include/lab4_list.h:315-320 | The entries go to the end |
| ListHead.SpliceInit | include/lab4_list.h:329-336 | The entries go to the front and the spliced head is an empty list |
| ListHead.CutAndSpliceBack | include/lab4_list.h:244-308 | Cutting a list at any entry or at its head and splicing the part back restores it |

## Left out

- Byte layout of the structs: a cluster is a table of 32 slots or 4096 bytes, a directory address is a slot address; superblock and inode fields that no operation reads (student id, times, uid, gid, mode, unmount flag) are absent.
- Widths: addresses fit because a device has at most 32768 blocks; link counts wrap at 32 bits as in the source; the free-inode and free-block counters are integers that the device holds modulo 2^32.
- The `sbi` free counters (inode.c:257, 266, 274, 283): lab4_fill_super never initialises them and nothing reads them.
- Indirect blocks (file.c:278-309): nothing ever allocates one.
- malloc, pread and pwrite failures, leaks and buffer lifetimes, the freed bitmap buffer after a failed scan (bmap.c:77, 113) and the unterminated copy in get_name_from_path (dir.c:108-109): a failed scan leaves the bitmap as it was.
- The order of writes inside one operation: there is no journal, hence no crash-safety claim.
- `.` and `..` as path components, names or paths that do not fit the buffers, rmdir on a file, unlink on a directory or an open file, and rename with a missing target parent.
- Several handles on one file: `Runs.Allowed` opens a file only when no handle is on it.
- FileStep.WriteCases: covers non-empty writes inside the first cluster, at or past the end or over the file from its start; an empty write returns an uninitialised count (file.c:404, 481), multi-cluster and mid-file writes are marked unfinished in the source (file.c:394-398, 436).
- FileStep.WriteConsistent: the same writes as FileStep.WriteCases.
- FileStep.WriteRefines: the same writes as FileStep.WriteCases.
- Abstraction.WriteNames: the same writes as FileStep.WriteCases.
- IoManager.FileSystem.Write: the same writes as FileStep.WriteCases.
- IoManager.FileSystem.WriteAt: the same writes as FileStep.WriteCases.
- FileStep.ReadExact: excludes, for a file that is not empty, reads of size 0 or at or past the end, which return an uninitialised count (file.c:493, 536), reads past the 4096-byte buffer, and a full read of a full cluster, whose string scan has no terminator.
- FileStep.ReadIsRightIff: the same reads as FileStep.ReadExact.
- Abstraction.ReadAbs: the same reads as FileStep.ReadExact.
- IoManager.FileSystem.Read: the same reads as FileStep.ReadExact.
- IoManager.FileSystem.ReadAt: the same reads as FileStep.ReadExact.
- FileStep.ReadMovesHandle: the same reads as FileStep.ReadExact.
- FileStep.ReadChangesNothing: the same reads as FileStep.ReadExact.
- FileStep.OpenConsistent: for a file that has no handle yet; the flag tests of do_openfile are two booleans, `create` for O_RDWR or O_CREAT and `append` for O_APPEND.
- Limits.OpenCases: the same opens as FileStep.OpenConsistent.
- Abstraction.OpenAbs: the same opens as FileStep.OpenConsistent.
- IoManager.FileSystem.OpenFile: the same opens as FileStep.OpenConsistent.
- IoManager.FileSystem.OpenAt: the same opens as FileStep.OpenConsistent.
- Links.LinkCounts: for runs without a directory changing its parent, which is enough but not needed (one that moves back restores the counts); DotDots.LinkCountsWithMoves covers runs with moves.
- DotDots.LinkCountsWithMoves: for runs that remove no stray directory; each removal breaks the counts (DotDots.StepUpsIff), but two may cancel out.
- Ledger.CountersConserved: the inode count and the equality of memory and device are for runs without a mkdir that fails for lack of a block; Lifetimes.InodesBalanceIff and Lifetimes.RemountAfterRunIff have the exact conditions.
- The hlist half of include/lab4_list.h, list_replace_init, list_empty_careful, list_splice_tail_init, include/lab4_rbtree.h and include/lab4_timeval.h: accessors and easy variants.
- FUSE glue beyond the path split, formatting to FAT, device ioctls, printing, lab4_seek, do_utimens, getattr, statfs and the stubs that only return success.
