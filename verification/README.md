# Verified models of the user-space cores

These Dafny modules model the parts of the user-space code that carry state or an argument: the
allocator behind every program, the file-system formatter, recursive copy, remove and move, the
matcher and line filter of `grep`, the formatted printers, the DNS encoder and scanner, and three small
numeric and device loops. `dafny verify dfyconfig.toml` checks everything.

The code is imperative, and so are the models: each C function is a method (of a class where it works
on globals) with the same loops, branches, constants and error codes. A method is tied to a
specification in mathematical terms, and the lemmas are about that specification. What lies behind a
system call is a small class whose methods answer nondeterministically: `sbrk` may refuse or return
regions that are not contiguous, `read` and `write` may be short, `getdents` may list in any order and
in any batches, and every call may fail. Where that matters the class counts such failures, and "fails
only because a call failed" is stated as "no failure was counted, hence success".

| file | about |
|---|---|
| `FreeList.dfy`, `HeapModel.dfy`, `Umalloc.dfy` | the free list as a value; steps and runs of `malloc` and `free`; the code that relinks headers |
| `Ondisk.dfy`, `BlockMap.dfy`, `Mkfs.dfy`, `Format.dfy` | encoding of integers and inodes; direct and indirect block maps; the formatter with `iappend`; layout and final image |
| `Paths.dfy`, `FileTree.dfy`, `Remove.dfy` | path helpers; a file tree, where its links lead, and its system calls; remove |
| `Overlay.dfy`, `Copy.dfy`, `Move.dfy` | laying one subtree over another, in one step and child by child; copy; move |
| `Regex.dfy`, `ULib.dfy`, `Grep.dfy` | the matcher and its language; `memmove` and `strchr`; the sliding buffer |
| `Numbers.dfy`, `Printf.dfy`, `Formats.dfy` | digits, fields and reading them back; the two formatters; what each conversion means |
| `Dns.dfy` | names, queries and responses of RFC 1035 |
| `Rand.dfy`, `PcmFeed.dfy`, `Summary.dfy` | the Park-Miller generator; feeding a sound device; order statistics of latencies |
| `Wrappers.dfy` | an option type and a fact about sequences, for all of them |

## What was found

- A move between devices can lose a symbolic link. When a link cannot be copied as a link, for whatever
  reason, `fsutil_copy_path` copies what it leads to and reports success, and `fsutil_move_path` then removes
  the link. Onto a place that did not exist, a move that reports success has moved if and only if no link was
  followed; otherwise the whole source is at neither place (`Move.Outcome`, `Move.LinkLost`). `Move.MoveOfLink`
  is the case of one link and the file it names, and `Move.LinkCanBeLost` shows that losing it is one of the
  outcomes. A destination that takes links is safe, if every link target is at least two bytes shorter than
  the path buffer (`Copy.CopyPath`, `Overlay.Copyable`).
- A copy can empty its source, and a move between devices can lose a regular file, without any call failing.
  The test for "the same file" looks at the destination itself, with `lstat`; the file is then written where
  the destination leads. If that is a link to the source, `open` empties the source before it is read, and
  success is reported (`Copy.CopyRegular`, `Move.CopyOntoLink`); a move then removes the empty file
  (`Move.MoveOntoLink`, `Move.FileLostOntoItself`). A non-empty file is still whole after a copy that reports
  success exactly if the destination does not lead to it, which `stat` of the destination tells beforehand
  (`Overlay.WrittenKeeps`); and only then can a move lose it (`Move.FileIsLostOnlyOntoItself`).
- So a source without links is not yet safe to copy or move. It is if also no regular file of it has a link at
  its destination, or if there was nothing at the destination (`Move.Outcome`).
- Where `dst` names the file itself a regular file is not copied and the call fails, unless `lstat` of the
  destination fails just then: the file is emptied and success reported (`Copy.CopyRegular`). A link copied
  onto itself is removed first, and lost if making it again is refused (`Copy.CopySymlink`).
- On a device of 2^31 blocks or more `mkfs` can report success with a bitmap that is wrong: `b * BPB` leaves the
  range of an `int`, and taking it to wrap around, all blocks from 2^31 on are marked as used. The bitmap is
  right exactly below that size (`Format.BitmapIsRightIffSmall`, `Format.FreeBlockIsMarked`); the rest of the
  image is right at any size.
- The scan of `fsutil_remove_path` does not look at inode numbers, unlike that of the copy. An entry of a
  removed file is taken for a child; with `force` its removal counts as success and the directory is scanned
  again, for as long as such entries are shown, and without `force` the removal fails (`Remove.RemovePath`).
- `vprintf` drops `%n` while `vsnprintf` prints both of its characters; the two agree exactly on formats
  without `%n` (`Printf.AgreeIffNoN`). Both ignore a precision on numbers, print `0x0` for `%#x` of
  zero, and take a negative `*` width for no width; `vsnprintf` returns the number of characters stored,
  not the number that would have been needed.
- `grep` goes blind once a line does not fit its buffer: from the first line of more than 1023 bytes (or
  with a NUL) on, nothing is selected. For one pattern its output is that of a plain line splitter exactly
  when the pattern selects none of the hidden lines, and for every pattern exactly when every line fits
  (`Grep.OutputIsAllIffNoneHidden`, `Grep.OutputIsAllIffFits`); `Grep.LongLineIsLost` is an input and a
  pattern where it is not. It does not notice a short `write`: the bytes written are those of the selected
  lines exactly if none was short (`Grep.BytesWholeIffTakenWhole`). A last line without a newline is no line,
  to this splitter or to the code, and is never written (`Grep.UnterminatedIsDropped`); an input consists of
  its lines exactly if it is empty or ends with a newline (`Grep.LinesAreInputIffTerminated`).
- `put_qname` has no limit on the whole name. With a buffer of 512 bytes it accepts a host of 494
  characters, the longest there can be, whose name has 496 octets (`Dns.AcceptsOverlongName`); names stay
  within the 255 octets of section 2.3.4 of RFC 1035 exactly for hosts of up to 253 characters
  (`Dns.WithinNameLimit`).

## Model

| member | source | states |
|---|---|---|
| FreeList.InsertKeepsCanonical | lib/umalloc.c:31-40 | freeing a block that overlaps no free block keeps the list ascending, non-empty blocks, no two touching, sentinel first |
| FreeList.InsertAddsRegion | lib/umalloc.c:31-40 | whatever coalescing happens, the free units grow by exactly the units of the freed block |
| FreeList.CarveKeepsCanonical | lib/umalloc.c:70-76 | tail splitting and exact unlinking keep the list canonical |
| FreeList.CarveRemovesRegion | lib/umalloc.c:70-76 | allocation removes exactly the units handed out, all of which were free |
| FreeList.CanonicalFormIsUnique | lib/umalloc.c:31-40 | the set of free units alone determines the coalesced list |
| HeapModel.UnitsForCoversBytes | lib/umalloc.c:63 | for every 32-bit byte count the unit count fits 32 bits and covers the bytes behind one header with less than a unit to spare |
| HeapModel.FreeKeepsInv | lib/umalloc.c:24-42 | one `free` of a live block keeps the heap invariant and moves just its units to the free side |
| HeapModel.CarveKeepsInv | lib/umalloc.c:69-78 | serving a request keeps the invariant; the block was free and not live before |
| HeapModel.GrowKeepsInv | lib/umalloc.c:44-57 | adopting any fresh region keeps the invariant and leaves some block at least as large as the region |
| HeapModel.MallocKeepsInv | lib/umalloc.c:59-84 | every outcome of `malloc` keeps the invariant; 0 exactly if nothing fitted and `sbrk` refused, else one new live block |
| HeapModel.GrowthIsNeeded | lib/umalloc.c:68-83 | when a call grows the heap no run of free units would have done, and the block it returns reaches into the new region |
| HeapModel.RunKeepsInv | lib/umalloc.c:24-84 | the invariant holds in every heap of every run of `malloc` and `free` calls |
| HeapModel.RunConservesUnits | lib/umalloc.c:24-84 | after any run the free and the live units are disjoint and together are what `sbrk` granted |
| HeapModel.LiveDeterminesBlocks | lib/umalloc.c:31-40 | two reachable heaps with the same live blocks and the same memory have the same free list |
| HeapModel.FreeUndoesMalloc | lib/umalloc.c:24-84 | `free(malloc(n))` without growth restores exactly the earlier blocks, on every reachable heap |
| HeapModel.FreesInAnyOrder | lib/umalloc.c:24-42 | the order in which blocks are freed does not matter for the resulting list |
| Umalloc.System.Sbrk | lib/umalloc.c:50 | what the system may answer: refusal, or any region above the floor that overlaps nothing given before |
| Umalloc.Allocator.constructor | lib/umalloc.c:21-22 | the allocator before its first call is the initial abstract heap |
| Umalloc.Allocator.FindPlace | lib/umalloc.c:28-30 | from any cursor the search loop ends at the last block below the freed one, the wrap included |
| Umalloc.Allocator.Relink | lib/umalloc.c:31-40 | after both joins the headers link exactly the list with the block inserted |
| Umalloc.Allocator.Free | lib/umalloc.c:24-42 | relinking in place is the abstract `free` step, on one cycle through `base` |
| Umalloc.Allocator.MoreCore | lib/umalloc.c:44-57 | asks `sbrk` once; on success the region is part of a canonical list |
| Umalloc.Allocator.Take | lib/umalloc.c:70-76 | the headers after a split or an unlink link exactly the carved list |
| Umalloc.Allocator.Scan | lib/umalloc.c:68-83 | the scan ends with the first fit after the cursor or with no fit and a refusal, growing at most once |
| Umalloc.Allocator.Start | lib/umalloc.c:64-67 | the first call, and no other, makes the cycle of the sentinel alone |
| Umalloc.Allocator.Malloc | lib/umalloc.c:59-84 | `malloc` is the abstract step; a pointer it returns is one unit behind the header of a new block, and the requested bytes behind it belong to that block alone; it asks `sbrk` exactly once if nothing fitted and never otherwise, and fails exactly if nothing fitted and `sbrk` refused |
| Umalloc.Allocator.MallocThenFree | lib/umalloc.c:24-84 | a block given back at once leaves the live blocks as they were, and if nothing was obtained from `sbrk` the free blocks too |
| HeapModel.BlockIsGiven | lib/umalloc.c:59-84 | the pointer one unit behind the header of the block served has room for the request, in units no other block, free or live, has |
| Ondisk.IntRoundTrip | programs/mkfs_xv6fs/mkfs_xv6fs.c:90-99 | a 32-bit integer is read back from its four bytes |
| Ondisk.IntIsLowByteFirst | programs/mkfs_xv6fs/mkfs_xv6fs.c:90-99 | the four bytes written are those of the number to the base 256, the lowest first, and no others are |
| Ondisk.ShortIsLowByteFirst | programs/mkfs_xv6fs/mkfs_xv6fs.c:81-88 | the same for two bytes |
| Ondisk.IntRead | programs/mkfs_xv6fs/mkfs_xv6fs.c:90-99 | what is read is the number whose bytes stand there, the lowest first |
| Ondisk.InodeRoundTrip | programs/mkfs_xv6fs/mkfs_xv6fs.c:127-144 | an inode is read back from its 64 bytes |
| Ondisk.InodeIsInSlot | programs/mkfs_xv6fs/mkfs_xv6fs.c:41-48 | the inode read from a slot has its type at byte 0, device at 2 and 4, link count at 6, size at 8 and thirteen addresses from 12 on, each low byte first |
| Ondisk.SlotsDisjoint | programs/mkfs_xv6fs/mkfs_xv6fs.c:132 | two inodes of one block lie in disjoint slots |
| Ondisk.OrBitSets | programs/mkfs_xv6fs/mkfs_xv6fs.c:168 | setting a bit sets that bit and no other |
| Ondisk.BitWeight | programs/mkfs_xv6fs/mkfs_xv6fs.c:168 | bit k is the one of weight 2^k |
| BlockMap.HoldsIsFileBytes | programs/mkfs_xv6fs/mkfs_xv6fs.c:187-218 | the blocks of a well-formed file hold a byte string exactly if it is the file's contents |
| BlockMap.DirectAlloc | programs/mkfs_xv6fs/mkfs_xv6fs.c:194-196 | a fresh direct block extends the map by one distinct block |
| BlockMap.IndirectAlloc | programs/mkfs_xv6fs/mkfs_xv6fs.c:199-201 | a fresh zeroed indirect block changes no pointer and is distinct from all data blocks |
| BlockMap.EntryAlloc | programs/mkfs_xv6fs/mkfs_xv6fs.c:203-206 | a new entry of the indirect block extends the map by one distinct block |
| BlockMap.EntryBytes | programs/mkfs_xv6fs/mkfs_xv6fs.c:202-207 | from file block 11 on the pointers stand four bytes apart in the indirect block, low byte first |
| BlockMap.HoldsMore | programs/mkfs_xv6fs/mkfs_xv6fs.c:212-214 | copying the next piece into its block extends what the file holds by just that piece |
| BlockMap.FileUnchanged | programs/mkfs_xv6fs/mkfs_xv6fs.c:187-218 | a file none of whose blocks changed keeps its map and contents |
| Mkfs.InodeWriteRead | programs/mkfs_xv6fs/mkfs_xv6fs.c:127-144 | a written inode is read back and every other inode number reads as before |
| Mkfs.InodeOnDisk | programs/mkfs_xv6fs/mkfs_xv6fs.c:127-144 | the fields of an inode stand at byte 64 (i mod 16) of block i / 16 of the inode region |
| Mkfs.AppendKeepsOthers | programs/mkfs_xv6fs/mkfs_xv6fs.c:175-221 | appending to one file leaves any other file's inode, map and bytes alone and the two still share no block |
| Mkfs.Formatter.Winode | programs/mkfs_xv6fs/mkfs_xv6fs.c:127-135 | the disk is the old one with just that inode replaced |
| Mkfs.Formatter.Rinode | programs/mkfs_xv6fs/mkfs_xv6fs.c:137-144 | the inode that stands on the disk |
| Mkfs.Formatter.Ialloc | programs/mkfs_xv6fs/mkfs_xv6fs.c:147-157 | the next inode number, written as an empty inode of the type |
| Mkfs.Formatter.Find | programs/mkfs_xv6fs/mkfs_xv6fs.c:193-208 | the block of a file position is found or allocated, with at most one indirect block, exactly if enough blocks are left |
| Mkfs.Formatter.AppendAll | programs/mkfs_xv6fs/mkfs_xv6fs.c:185-218 | the loop ends with all data in place exactly as the file's new contents, or for want of room |
| Mkfs.Formatter.Place | programs/mkfs_xv6fs/mkfs_xv6fs.c:193-214 | the piece is copied into the block of its file position, found or allocated, exactly if enough blocks are left |
| Mkfs.Formatter.Turn | programs/mkfs_xv6fs/mkfs_xv6fs.c:188-217 | one turn keeps the loop invariant: prefix written, map well-formed, everything else as it was |
| Mkfs.Formatter.Iappend | programs/mkfs_xv6fs/mkfs_xv6fs.c:175-221 | succeeds exactly if there is room; then the file is the old bytes and the new data, old blocks first and fresh distinct ones after, other blocks and inodes untouched |
| Format.LayoutFits | programs/mkfs_xv6fs/mkfs_xv6fs.c:273-293 | the regions are consecutive, disjoint and fill the device; every inode number below the count lands in the inode region |
| Format.SuperRoundTrip | programs/mkfs_xv6fs/mkfs_xv6fs.c:310-316 | the superblock is read back from block 1 |
| Format.FillBits | programs/mkfs_xv6fs/mkfs_xv6fs.c:165-169 | exactly the bits of blocks from `base` to below `used` are set in one bitmap block; where the bound of the loop wraps around none, where `base` has done so all of them |
| Format.Balloc | programs/mkfs_xv6fs/mkfs_xv6fs.c:159-172 | every bitmap block gets its share of the first `used` bits, and is full from block 2^31 on; no other block changes |
| Format.BitmapFromBlocks | programs/mkfs_xv6fs/mkfs_xv6fs.c:159-172 | bits block by block make up the whole bitmap: the first `used` bits and all from 2^31 on |
| Format.WriteFresh | programs/mkfs_xv6fs/mkfs_xv6fs.c:304-316 | zeroing and the superblock, which succeed exactly if the device is long enough |
| Format.MakeRootInode | programs/mkfs_xv6fs/mkfs_xv6fs.c:318-331 | inode 1 becomes an empty directory with two links |
| Format.MakeRoot | programs/mkfs_xv6fs/mkfs_xv6fs.c:318-356 | the root directory takes one block and holds its two entries |
| Format.MakeFs | programs/mkfs_xv6fs/mkfs_xv6fs.c:243-359 | for every 32-bit size formatting succeeds exactly if the sizes are accepted, the number of data blocks being an `int`, and the device is long enough; it yields the image of an empty file system, with all blocks from 2^31 on marked |
| Format.BitmapIsReachability | programs/mkfs_xv6fs/mkfs_xv6fs.c:358-359 | in the image a bit is set exactly for metadata, for blocks reachable from the root inode and for blocks from 2^31 on |
| Format.BitmapIsRightIffSmall | programs/mkfs_xv6fs/mkfs_xv6fs.c:159-172 | the bitmap marks exactly the blocks in use if and only if there are fewer than 2^31 blocks |
| Format.FreeBlockIsMarked | programs/mkfs_xv6fs/mkfs_xv6fs.c:159-172 | on a file system of more blocks, a size that is accepted, block 2^31 is a free data block and marked |
| Format.RootDirectory | programs/mkfs_xv6fs/mkfs_xv6fs.c:318-356 | in the image the root directory decodes to `.` and `..` for inode 1 and free entries only |
| Format.SuperblockBytes | programs/mkfs_xv6fs/mkfs_xv6fs.c:285-316 | block 1 of the image begins 40 30 20 10 (hex), then come size, data blocks, inodes, 240, 2, 242 and the start of the bitmap, low byte first, and zeros |
| Format.RootInodeBytes | programs/mkfs_xv6fs/mkfs_xv6fs.c:318-356 | at byte 64 of block 242 stand type 1, no device, two links, size 1024, the first data block and twelve zero addresses |
| Format.RootDirectoryBytes | programs/mkfs_xv6fs/mkfs_xv6fs.c:333-346 | the first data block begins with 1 and `.`, at byte 16 with 1 and `..`, and is zero elsewhere |
| Format.BitmapBytes | programs/mkfs_xv6fs/mkfs_xv6fs.c:159-172 | block b is bit b mod 8 of byte b / 8 of the bitmap, set exactly for metadata, the root directory and from 2^31 on |
| Paths.TrimKeepsComponents | lib/fsutil.c:74-76 | cutting trailing slashes does not change what a path names |
| Paths.JoinNamesChild | lib/fsutil.c:69-92 | the joined path names the child of what the directory path names, `..` and doubled slashes included |
| Paths.BasenameOfJoin | lib/fsutil.c:35-92 | the base name of a joined path is the name joined, for every non-empty slash-free name |
| Paths.BasenameIsLast | lib/fsutil.c:35-63 | the base name is the last component however many slashes follow, and a slash for the root |
| Paths.ComponentsAreNames | lib/fsutil.c:35-92 | components are not empty and have no slash |
| Paths.JoinPath | lib/fsutil.c:69-92 | succeeds exactly if the joined path and its terminator fit, and then stores it |
| Paths.CopyBasename | lib/fsutil.c:35-63 | succeeds exactly if the base name and its terminator fit, and then stores it |
| FileTree.Kernel.Rename | lib/fsutil.c:419 | what `rename` may do: fail, report another device, do nothing for one place, or move the whole subtree onto a free place, a file, a link or an empty directory |
| FileTree.RenameMoves | lib/fsutil.c:419 | moving a subtree to a place with nothing below it gives a tree again |
| Remove.FindChild | lib/fsutil.c:357-400 | one scan returns the path of the first entry but `.` and `..`, a child or a removed file, or the directory is empty |
| Remove.RemoveChildren | lib/fsutil.c:356-412 | the rescan loop ends if listings show removed files only finitely often, and leaves the directory empty, touching nothing outside it |
| Remove.RemovePath | lib/fsutil.c:330-416 | terminates if listings show removed files only finitely often; on success exactly the subtree is gone, on failure only nodes inside it are; where there is something, success means that the last name fits and is no dot name, that a directory was to be removed with what it holds, and that all paths below fit, and if so only a failing call or a listing that shows a removed file can make it fail; a directory without `recursive` and a dot name are refused with nothing changed and the code for it; a path that is not there changes nothing and is success exactly under `force` |
| Remove.RemoveDirectory | lib/fsutil.c:352-416 | without `recursive` -EISDIR and nothing changed; success means every path below fitted |
| Copy.CopyRegular | lib/fsutil.c:124-180 | on success all that has changed is that content and mode arrived whole, through any short reads and writes, where the destination leads, or that the source is emptied if that is the source itself; a non-empty source is unchanged exactly if the destination does not lead to it; without a failing call it is refused exactly if `dst` names the source, and it succeeds wherever else `dst` can be written |
| Copy.CopyBytes | lib/fsutil.c:143-168 | the file written becomes the bytes of the file read, or stays empty if they are one; an error comes from a failing call only |
| Copy.CopySymlink | lib/fsutil.c:182-208 | on success the destination is a link with the same target; on failure nothing changes but that what was at the destination may be gone |
| Copy.CopyLink | lib/fsutil.c:297-314 | a link is copied as one; or if that fails what it leads to is copied instead, a regular file exactly, and success then leaves a link at the destination only if one was there before; if it leads to a regular file and the destination can be written, only a failing call can make it fail |
| Copy.FollowLink | lib/fsutil.c:302-314 | the fallback succeeds only by following the link to its end; a regular file there arrives exactly where the destination leads, or is emptied if that is the file itself; else a directory is left |
| Copy.CopyChildren | lib/fsutil.c:234-281 | after all batches of any listing order the whole of each child has been laid over its destination, also when files went through links there, as long as those lead outside source and destination; or a link was followed |
| Copy.CopyDirectory | lib/fsutil.c:210-286 | the directory is made or reused and filled: all but its own mode is laid over the destination, files at links going where those lead, if outside source and destination; without `recursive` it is -EISDIR, onto something that is no directory -ENOTDIR, and nothing changed; it goes straight exactly if every place below suits |
| Copy.EnterDirectory | lib/fsutil.c:215-232 | an existing directory is entered unless it is the source, anything else is refused, and nothing is made new where something was |
| Copy.CopyPath | lib/fsutil.c:288-328 | without links followed, and with no file going through a link into source or destination, success lays the source exactly over the destination, files at links going where those lead, and changes nothing else; a regular file, at the source or where a link there was followed to, is described exactly on success wherever it goes; with a link followed on the way to a free place success means some link is missing; it succeeds without a detour, but for failing calls, if and only if the tree is `Copyable`, an existing destination included; directories without `recursive` or onto something else are refused with nothing changed |
| Overlay.CopyableExample | lib/fsutil.c:288-328 | the conditions under which a copy can only fail with a system call can be met, by a directory with a file in it |
| Overlay.MergeExample | lib/fsutil.c:215-224 | they can be met where the destination is a directory with a file of the same name |
| Overlay.DirCopyable | lib/fsutil.c:210-286 | a directory can be copied without a detour exactly if the destination is a directory or free and every place below suits: kinds agree, no link is in the way of a file, paths and targets fit |
| Overlay.LeafCopyable | lib/fsutil.c:124-208 | a file or link can exactly if the destination is free or no directory, nor a link for a file, and a target fits |
| Overlay.ChildSuited | lib/fsutil.c:271-275 | one more child that could be copied without a detour extends the set of those |
| Overlay.ChildHasFewerDirs | lib/fsutil.c:271 | the recursion ends whatever is written through links: a child has fewer directories below it |
| Overlay.ChildDone | lib/fsutil.c:271-275 | one more child done extends the set of children laid, its files written through links join the others, and a link followed in it counts for the directory |
| Overlay.AllDone | lib/fsutil.c:234-281 | when all children are laid, everything below the directory is, and each place written through a link holds a file of the source |
| Overlay.WrittenKeeps | lib/fsutil.c:124-180 | a non-empty file written to where a destination leads is still what it was exactly if that is another place |
| Overlay.FileAchieved | lib/fsutil.c:124-180 | one file written where the destination leads is laid over it, or copied if that is no link |
| Overlay.LaidIsCopied | lib/fsutil.c:210-286 | where no regular file has a link at its destination, laying is copying |
| Move.MovePath | lib/fsutil.c:418-439 | with no link followed or written through, success leaves at the destination exactly what was at the source and nothing at the source, and on every outcome one of the two places holds all of it; elsewhere only files written through links change, and where those lead outside source and destination success is a move but for them; a regular file moved onto a link ends where that leads, or nowhere if that is the file itself; onto a free place success is a move if and only if no link was followed, and else the whole source is at neither place; what rules each out is stated; a tree that can be copied and removed moves unless a call fails, onto a free place or what `rename` may replace |
| Move.FileIsLostOnlyOntoItself | lib/fsutil.c:418-439 | unless the destination led to the file itself, a regular file is, contents and mode, where it was after a move that failed, and at the destination or where that led after one that succeeded; else it is at the destination after success exactly if nothing was written through the link, and otherwise removed and nowhere |
| Move.FileLostOntoItself | lib/fsutil.c:418-439 | a destination that leads to the file itself: the file gone and the link left is one of the outcomes, with no link in the source |
| Move.CopyOntoLink | lib/fsutil.c:124-180 | a file `a` and a link `m` to it: copying `a` to `m` empties `a`, and succeeds if no call fails |
| Move.MoveOntoLink | lib/fsutil.c:418-439 | moving `a` to `m` leaves the link alone if it was written through, and the file at `m` otherwise |
| Move.FileCanBeLost | lib/fsutil.c:418-439 | the outcome with the link alone is one of those a move of `a` to `m` can come to |
| Move.MoveOfLink | lib/fsutil.c:430-438 | a link and the file it names: after a move that succeeded by following there are two files and no link |
| Move.LinkCanBeLost | lib/fsutil.c:430-438 | the outcome with two files and no link is one of those a move of the link can come to |
| Move.LinkLost | lib/fsutil.c:430-438 | a link that was followed is at neither place once the source is gone |
| Move.OverBareIsMoved | lib/fsutil.c:418-439 | where nothing was below the destination, laying over and moving are one |
| Move.CopySurvives | lib/fsutil.c:435-438 | removing any part of the source does not touch the copy |
| Move.MoveDone | lib/fsutil.c:418-439 | copying and then removing leaves what renaming does, laid over the destination |
| ULib.MemMove | lib/ulib.c:152-168 | correct for every overlap in either direction |
| ULib.StrChr | lib/ulib.c:120-125 | the first occurrence before the terminator, or none |
| Regex.Match | programs/grep/grep.c:73-81 | decides exactly whether a prefix of some suffix (of the text, after `^`) is in the language of the pattern |
| Regex.MatchHere | programs/grep/grep.c:84-94 | decides exactly whether a prefix of the text is in the language |
| Regex.MatchStar | programs/grep/grep.c:97-103 | decides exactly whether some number of repetitions leaves a text the rest matches |
| Regex.StarPattern | programs/grep/grep.c:87-88 | a starred item matches exactly if the rest does after some run of accepted characters |
| Regex.PlainIsSubstring | programs/grep/grep.c:73-103 | a pattern without special characters selects exactly the texts that contain it |
| Regex.Unanchored | programs/grep/grep.c:73-81 | a pattern that does not begin with `^` selects a text exactly if it does, anchored, from some place on |
| Regex.AnchorsAlone | programs/grep/grep.c:84-90 | `^` alone selects everything, and `^$` the empty text only |
| Regex.StarSelects | programs/grep/grep.c:87-103 | a character and `*`: the rest matches behind some run of the character, of anything for a dot |
| Regex.CharSelects | programs/grep/grep.c:91-92 | any other character, a `$` inside the pattern included, is the first of the text, or a dot and there is one, and the rest matches behind it |
| Regex.SimpleSelects | programs/grep/grep.c:73-94 | between `^` and `$` a pattern of characters and dots selects exactly the texts it spells, without the `$` those that begin so |
| Regex.SimpleSelectsAnywhere | programs/grep/grep.c:73-94 | without `^` the texts that have it somewhere, with a `$` at their end |
| Grep.Filter.Grep | programs/grep/grep.c:15-38 | for every chunking by `read`, `write` is offered exactly the selected lines among those seen, in order, and has taken them whole exactly if none was short; an early exit has offered a prefix of that |
| Grep.Filter.Drain | programs/grep/grep.c:23-32 | the inner loop takes every visible line out of the buffer and offers the selected ones to `write` |
| Grep.Filter.Emit | programs/grep/grep.c:25-30 | a line is offered with its newline exactly if the pattern selects it, some beginning of it is taken, and the buffer is restored where it is still needed |
| Grep.AllLinesSplitInput | programs/grep/grep.c:15-38 | the lines in the reference definition joined with a newline-free tail are the input |
| Grep.UnterminatedIsDropped | programs/grep/grep.c:23-36 | what follows the last newline adds no line, in the reference or in what is seen |
| Grep.LinesAreInputIffTerminated | programs/grep/grep.c:23-36 | the lines are all of the input exactly if it is empty or ends with a newline |
| Grep.SeenIsAllIffFits | programs/grep/grep.c:20-24 | every line is seen exactly if each has at most 1023 bytes and no NUL |
| Grep.LongLineHidesTheRest | programs/grep/grep.c:20-24 | 1023 bytes without a newline hide everything from there on, with a concrete input that shows it |
| Grep.OutputIsAllIffNoneHidden | programs/grep/grep.c:15-38 | for one pattern the lines selected are those of a plain line splitter exactly if no hidden line is selected |
| Grep.OutputIsAllIffFits | programs/grep/grep.c:15-38 | for every pattern they are, exactly if every line fits |
| Grep.LongLineIsLost | programs/grep/grep.c:15-38 | a line of 1024 bytes and a pattern that selects it: nothing is written |
| Grep.BytesWholeIffTakenWhole | programs/grep/grep.c:28-29 | the bytes written are those of the selected lines exactly if every line was taken whole |
| Grep.SeenAfterCut | programs/grep/grep.c:31-36 | lines cut off the front are the first lines seen, whatever follows |
| Numbers.DigitsRead | lib/printf.c:46-49 | the digits generated for a number stand for it |
| Numbers.GenerateDigits | lib/printf.c:46-49 | for 64 bits in base 8, 10 or 16 at most 22 of the 32 cells are used and hold the digits in reverse |
| Numbers.FormatInt | lib/printf.c:30-72 | sign, prefix and digits as the flags ask |
| Numbers.FormatPtr | lib/printf.c:75-82 | shifting the top digit out sixteen times gives all sixteen digits of the value |
| Numbers.PtrReadsBack | lib/printf.c:75-82 | what `%p` writes has 18 characters and is read back as the pointer |
| Numbers.FieldReadsBack | lib/printf.c:30-72 | for every value, base, flags and width, with zeros or spaces as padding, reading the field gives the value back and the field is as long as the wider of width and number |
| Numbers.TextShape | lib/printf.c:260-274 | sign and prefix are what the padding code takes them for, and never digits |
| Printf.ParseFlags | lib/printf.c:85-114 | stops at the first character that is no flag, with exactly the flags seen |
| Printf.FlagsSpan | lib/printf.c:85-114 | the flags end exactly where only flags lie before and no flag follows |
| Printf.ParseNumber | lib/printf.c:116-128 | the number written, without leaving 32 bits on the way, or the argument for `*` |
| Printf.ParseConversion | lib/printf.c:152-185 | flags, width, precision, length and letter of a conversion and the positions behind it |
| Printf.PutsN | lib/printf.c:10-19 | short writes are completed; without a failing write all of it is written |
| Printf.PutsNumber | lib/printf.c:256-286 | writes the number in its field |
| Printf.Vprintf | lib/printf.c:130-355 | without a failing write exactly the text of the format is written, which the laws of `Formats` describe conversion by conversion, and the staging buffer is never overrun |
| Printf.StoreNumber | lib/printf.c:487-521 | stores as much of the number's field as there is room for |
| Printf.Vsnprintf | lib/printf.c:372-588 | stores exactly the first min(size - 1, L) of the L characters of the text, which the laws of `Formats` describe conversion by conversion, terminates at the returned index and touches nothing beyond `size` |
| Printf.AgreeIffNoN | lib/printf.c:339-341 | the two formatters mean the same text exactly if the format has no `%n` |
| Printf.Difference | lib/printf.c:577-582 | each `%n` makes the text of `vsnprintf` longer by its two characters, and both accept the same formats |
| Printf.PlainFormat | lib/printf.c:142-145 | a format without `%` stands for itself |
| Formats.SpecParsed | lib/printf.c:152-185 | a percent sign, flags in any order, a width, a precision, a length and a letter are parsed as what they were written for, `*` included |
| Formats.LiteralText | lib/printf.c:142-150 | text without `%` between conversions stands for itself |
| Formats.DecimalConversion | lib/printf.c:202-226 | `%d`, `%i` and `%u` give sign and decimal digits, the one spelling of the number, in a field filled with spaces or zeros as the flags ask |
| Formats.HexConversion | lib/printf.c:227-243 | `%x` and `%X` give hexadecimal digits in lower and upper case, with `#` behind `0x` and `0X` |
| Formats.OctalConversion | lib/printf.c:244-254 | `%o` gives octal digits, with `#` behind a 0 unless the number is 0 |
| Formats.PointerConversion | lib/printf.c:288-300 | `%p` gives `0x` and sixteen hexadecimal digits that stand for the pointer |
| Formats.StringConversion | lib/printf.c:302-319 | `%s` gives the text cut at the precision, `(null)` for the null pointer, up to the width |
| Formats.CharConversion | lib/printf.c:321-333 | `%c` gives the one character, up to the width |
| Formats.OtherConversion | lib/printf.c:335-347 | `%%` gives `%`, an unknown letter itself behind `%`, and `%n` nothing in one formatter and itself in the other; none takes an argument |
| Formats.DigitTable | lib/printf.c:7-8 | the digits are 0 to 9 and a to f, or A to F, in this order of value |
| Formats.PlaceValue | lib/printf.c:46-49 | the digits behind count as they are, those before them a power of the base as much |
| Formats.SpelledOnce | lib/printf.c:46-49 | a number has only one spelling without leading zeros |
| Formats.HexAlone | lib/printf.c:227-243 | `%x` with a number gives exactly its hexadecimal spelling |
| Formats.HexExample | lib/printf.c:227-243 | 255 is written as ff |
| Dns.DottedLabels | programs/dnsstress/dnsstress.c:171-191 | joining the labels of a host with dots gives the host |
| Dns.PutQname | programs/dnsstress/dnsstress.c:166-192 | succeeds exactly if every label has 1 to 63 octets and host length + 2 fits; writes the labels as section 3.1 of RFC 1035 asks and nothing outside |
| Dns.ReadBack | programs/dnsstress/dnsstress.c:166-192 | a reader following section 3.1 of RFC 1035 gets the labels back, wherever the name stands |
| Dns.MakeQuery | programs/dnsstress/dnsstress.c:194-211 | succeeds exactly if name and trailer fit, and writes header, name, type and class |
| Dns.QueryReadsBack | programs/dnsstress/dnsstress.c:194-211 | id, host, type and class are read back from every query, whose name ends four octets before its end |
| Dns.SpelledOctets | programs/dnsstress/dnsstress.c:166-192 | octet by octet: a length before the name and for each dot, every other character of the host one place further on |
| Dns.QueryOctets | programs/dnsstress/dnsstress.c:194-211 | octet by octet: id high octet first, recursion desired, one question, the name, a zero, type and class 1 |
| Dns.WithinNameLimit | programs/dnsstress/dnsstress.c:166-192 | the encoded name has at most 255 octets exactly for hosts of at most 253 characters |
| Dns.AcceptsOverlongName | programs/dnsstress/dnsstress.c:166-211 | a query of 512 octets takes a certain host of 494 characters, whose name has 496 octets, and none longer |
| Dns.NameEndsOnce | programs/dnsstress/dnsstress.c:213-230 | in the grammar of section 4.1.4 of RFC 1035 a name can end in one place only |
| Dns.SkipName | programs/dnsstress/dnsstress.c:213-230 | returns the end of the name that stands at the offset, -1 exactly if there is none |
| Dns.CutsAgree | programs/dnsstress/dnsstress.c:243-263 | a message can be cut into questions and records in one way only |
| Dns.ResponseUsable | programs/dnsstress/dnsstress.c:232-265 | on every byte string: 1 exactly if id and RCODE are right and a usable answer is reached before anything malformed, 0 exactly for an error reply or a whole message without one |
| Dns.GoodReply | programs/dnsstress/dnsstress.c:232-265 | a reply written out octet by octet, with one question and one address record that points to its name, is usable for every id, host and address |
| Rand.Generator.DoRand | programs/grind/grind.c:18-39 | computes 16807 x mod (2^31 - 1) with every intermediate result within 31 bits and a sign |
| Rand.Schrage | programs/grind/grind.c:26-34 | the split product differs from the product by a multiple of the modulus and is within the modulus of zero |
| Rand.StepIsPermutation | programs/grind/grind.c:17-39 | on its range the step can be undone and reaches every state |
| Rand.StepIsInjective | programs/grind/grind.c:17-39 | no two states of the range have the same successor |
| Rand.RunIsPower | programs/grind/grind.c:17-39 | after n calls state + 1 is 16807^n times the first, modulo 2^31 - 1 |
| PcmFeed.ChoosePeriod | programs/alsapcmpoll/alsapcmpoll.c:460-465 | the period is positive and at most what was requested, whatever the device offers |
| PcmFeed.Sustain | programs/alsapcmpoll/alsapcmpoll.c:651-813 | never submits more than the target nor reads beyond the audio, ends after at most 61 polls a frame and 61 more; what the device takes is each time the beginning of the audio; without failure it has taken exactly the target, and it fails only after an error, a failed state or more than 60 waits in a row |
| PcmFeed.RunSustain | programs/alsapcmpoll/alsapcmpoll.c:579-884 | returns 0 only if the device took exactly six seconds of frames, each time from the beginning of the tone, and does so if the device works and is never waited for more than 60 times in a row |
| PcmFeed.Pace | programs/alsapcmpoll/alsapcmpoll.c:926-957 | the same, within 1001 polls more than the full periods of the target; success is certain if there is no error, all that is offered is taken each time and there are less than 1000 waits |
| PcmFeed.RunPace | programs/alsapcmpoll/alsapcmpoll.c:893-975 | returns 0 only if the device took exactly six seconds of frames, each time from the beginning of the tone, and does so under these conditions |
| PcmFeed.TallyMeans | programs/alsapcmpoll/alsapcmpoll.c:651-813 | the counters kept say whether there was an error, how long it was waited at a time, and what was taken |
| PcmFeed.ToneSamples | programs/alsapcmpoll/alsapcmpoll.c:393-402 | sample k is 97 k modulo 1024 less 512, in two bytes, the low one first |
| Summary.BelowPermuted | programs/hoverprobe/hoverprobe.c:370-376 | ranks do not depend on the order of the samples |
| Summary.BelowCounts | programs/hoverprobe/hoverprobe.c:370-376 | the rank is a count of positions |
| Summary.SortedHasRank | programs/hoverprobe/hoverprobe.c:370-376 | position k of the sorted samples has rank k among the samples as measured |
| Summary.InsertKey | programs/hoverprobe/hoverprobe.c:329-336 | shifting and filling the gap extends the sorted beginning and keeps the elements |
| Summary.Sort | programs/hoverprobe/hoverprobe.c:327-338 | a sorted permutation |
| Summary.Isqrt | programs/hoverprobe/hoverprobe.c:341-356 | the exact integer root below 40000001 squared, 40000000 from there on |
| Summary.Summarize | programs/hoverprobe/hoverprobe.c:364-387 | minimum, median, p90 and maximum are the samples of ranks 0, n/2, 9n/10 and n - 1, ascending; the deviation is the root of the mean square about the truncated mean of the samples as measured, 40000000 where that is beyond the search |
| Summary.SumOfParts | programs/hoverprobe/hoverprobe.c:377-378 | the sum is that of its parts, down to single samples |
| Summary.SpreadOfParts | programs/hoverprobe/hoverprobe.c:380-384 | the spread is that of its parts, and of one sample its squared distance from the mean |
| Summary.SumsPermuted | programs/hoverprobe/hoverprobe.c:370-384 | neither depends on the order of the samples |
| Summary.QuotientTruncates | programs/hoverprobe/hoverprobe.c:379-385 | division leaves less than the divisor, with the sign of the dividend |

## Left out

Allocator

- The payload of blocks and the alignment of pointers: an address counts header units.
- Umalloc.Allocator.Malloc: does not model 32-bit wrap-around of the `size` field, which a block would need 2^36 bytes to reach; the request itself is any number, and `HeapModel.UnitsForCoversBytes` covers 32-bit byte counts.
- `free` of a pointer that is not live, and concurrent callers.

Formatter

- Mkfs.Formatter.Iappend: sector buffers are values, not arrays, and an I/O error inside the device (the program exits) is not modelled; a block beyond the device is.
- Format.MakeFs: the disk stands for the first `fssize` blocks of the device, so a device longer than that keeps its tail; `int` arithmetic wraps around, which C leaves undefined; parsing of arguments, the automatic size and messages are left out.

Copy, remove and move

- Copy.CopyPath: neither path may lie inside the other. A destination inside the source would be copied while it grows, and a source inside the destination (`cp -r x/y/y x`, which copies `x/y/y` to `x/y`) be overwritten while it is read.
- Copy.CopyThroughLink: what copying a directory through a link does at and below the destination is left open; it is taken to write elsewhere only through links at a destination that existed.
- Copy.CopyPath: when copying a directory, once a file is written through a link that leads into the source or the destination, it is only stated that nothing else but regular files changes outside the destination; what the copy contains then depends on the order of listings.
- Remove.RemovePath: that listings show removed files only finitely often is part of the system's model; the code itself has no bound.
- FileTree.Kernel.StatTarget: a link is followed name by name, through at most 40 links in all, a number chosen here as the kernel is not part of this model; permissions on the way are left out.
- Hard links, device nodes (`EOPNOTSUPP`), symbolic links as inner components of a path that is given, and other processes changing the tree. Two paths are the same file exactly if they name the same place.
- A directory record is its name, inode number and whether its length is zero; the byte layout of records is left out. In `Kernel.Getdents` a zero length counts as a failure of the system.
- `fsutil_resolve_target`: one call of each helper that is modelled.

Grep

- The main program and the messages.

Printers

- Printf.Vprintf: arguments are one shared sequence, so `*` always advances it, and their types match the conversions; formats that end inside a conversion (where the code reads past the end) are excluded.
- Printf.Vprintf: says nothing about which characters are lost when a `write` fails, only that earlier output stays.
- Printf.ParseNumber: a width or precision of 2^31 or more is no number, as C leaves the overflow undefined; a format with one has no text.
- Numbers.FormatInt: negates the least 64-bit integer as a number, where C leaves it undefined.

DNS

- Compression pointers are skipped, as in the code, and never followed; sockets, timing and `parse_ipv4` are left out.

Others

- PcmFeed.Sustain: logging, counters that are only printed, and timing; opening the device counts with configuring it.
- Rand: the state before the first call may be any number; the power law is stated from a state of the range, which every later state is in.
- Summary.Summarize: sums and products are unbounded, where the code needs them within 64 bits; printing is left out.
- `run_recover_mode` of `alsapcmpoll`, input injection and screen reads of `hoverprobe`, the system calls of `grind`.
- GPU and DRM probes, kernel test drivers, `lib/user.h`, system-call stubs, `dd`, `dh`, `init`, `losetup`, `keyinject`, `iobench` and the one-call utilities: sequences of calls into code that is not here, or loops that carry no argument worth proving.
