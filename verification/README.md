# Verified model of the Newrex kernel core

This project models five stateful parts of the kernel in Dafny and proves what holds over every run of them:

- **RexFS** (`kernel/rexfs.c`): 64 inodes in sectors 2 to 9, a 4096-bit block bitmap in sector 10, data from LBA 11,
  ten direct pointers and one index block per file, directories encoded by parent ids.
- **The heap** (`kernel/kernel.c`): first fit, splitting and a full coalescing pass over a chain of headers in 1 MiB.
- **The scheduler** (`kernel/sched.c`): a ring of tasks with tick, yield, exit and create steps.
- **The network driver's arithmetic and caches** (`drivers/rtl8139.c`): Internet checksum, ARP cache and exchange,
  ICMP echo, and the packets the driver builds.
- **The physical frame allocator** (`mm/pmm.c`): a bitmap set up from the Multiboot memory map.

Each part has two layers. A pure layer gives the state and one function per operation, and states the theorems over
single steps and whole runs. An imperative layer has the driver's shape: classes whose fields are the globals and the
disk, methods with the source's loops. Each method is proved to compute the step function of the pure layer, so every
theorem applies to it.

| module | content |
|---|---|
| `Machine`, `Bitmap` | machine integers; packed bitmaps, lowest clear bit, counting |
| `RexFsLayout`, `RexFsBlocks`, `RexFsTree` | inodes, pointers and contents; block ownership and the write loop; the directory forest |
| `RexFsModel`, `RexFsRuns` | the commands as a state machine; invariant, non-interference, leaked blocks |
| `RexFsCommands`, `RexFsWalks` | what each command answers and does, said over the table; mkdir, cd and pwd together |
| `RexFsNames`, `RexFsPaths` | sibling names; the way back from pwd |
| `RexFsRoundTrip`, `RexFsWhole`, `RexFsCycle`, `RexFsHistory` | write and read; sizes and contents; giving blocks back; clean shutdown and two failing families |
| `RexFsLookup`, `RexFsHiding` | what other files read as by name, over steps and runs; a run that hides a file |
| `RexFs` | the driver as a class over the typed sectors |
| `HeapModel`, `Heap` | block lists; the allocator over the chain of headers |
| `SchedModel`, `Sched` | the ring as a sequence; task nodes, stacks and the scheduler |
| `Checksum`, `Arp`, `Icmp`, `ArpExchange`, `Packets`, `NetStack` | network arithmetic, caches, handlers and builders |
| `PacketFields` | what a receiver reads from the packets, and which packets are accepted |
| `PmmModel`, `Pmm` | frames and regions; the frame allocator |

`dafny verify dfyconfig.toml` checks the whole project.

## Where the code does not keep its promises

The code is modelled as it is. Where a promise of the design fails, the exact condition under which it holds is proved.

- `write` and `writehex` release the old blocks before they know that the new payload fits (`kernel/rexfs.c:607-645`,
  `819-892`). Overwriting a file that owns blocks with a payload of more than 266 blocks, or without a decoding buffer,
  leaves its pointers in place and its blocks marked free. `StepInvariant` shows that this and an ill-timed or
  undersized `mkfs` are the only ways to break ownership; `OversizedWriteBreaks` gives the failing family.
- `mkfs` while a session is open resets neither the current directory nor the mounted geometry (`78-116`), and
  `total_blocks - 11` is unsigned (`399`): `FormatKeeps` and `AllocationInDisk` give the exact conditions. A root
  session on a geometry no larger than the new disk's survives.
- A write that needs an index block when exactly eleven blocks are free marks one block that nobody references
  (`655-675`). `StepLeaks` proves that every safe command but `mkfs` keeps the set of such blocks or, exactly then, adds
  one; `RunLeaks` accounts for whole runs. The inode's size then also counts the lost chunk, while `cat` prints only the
  linked ones: `StoreWhole` and `StepWhole` prove that this is the only way for a size to exceed the contents.
- The duplicate check compares the full name, but 27 characters are stored (`242`, `264`): `StepDistinct` proves that
  siblings stay distinct exactly without a clash after truncation; `LongNameTwice` is the failing family.
- The same truncation lets a command hide an entry that it does not name. No command changes the inode or the bytes of
  another file (`NonInterference`), but entries are found by name (`717-723`): a `touch` of a longer name with the same
  first 27 characters, into an earlier slot, is what `cat` and `write` then find, such a `mkdir` is where `cd` leads, and
  either is what `rm` removes. `NameKept` proves for all three lookups that this is the only case, `LookupKept`,
  `CatKept` and `CdKept` what it means for the commands; `LongNameHides` and `LongNameRedirects` are the failing
  families, and `BlankDiskHides` runs there from a blank disk.
- An exiting task is put straight back to work when every other task is suspended (`kernel/sched.c:125-165`):
  `ExitResurrects`. `ExitIsFinal` proves over whole runs that an exited task is never dispatched again exactly when some
  other task was not suspended at its exit, whatever exits later and whichever task it is.
- `pmm_free_block` decrements the counter even when the frame was free (`mm/pmm.c:205-206`): `FreeKeeps`.
- A memory-map entry is read by its low words (`mm/pmm.c:157`), and its end is computed in 32 bits (`51-53`). An entry
  whose range ends at 4 GiB or beyond can mark other frames than it describes, because the end wraps or because the high
  word of the length is dropped: a reserved region of 4 GiB can be left unmarked without any wrap (`LongEntryMissed`).
  `CoversIsExact` gives the exact condition, `BootFollowsMap` what the bitmap holds when all entries meet it.
- Without a map the memory size is computed in 32 bits (`162`). A result in the last page below 4 GiB leaves no frame
  free, and one that wraps to less than 32 MiB leaves announced frames in use (`LargeSizeMissed`).
  `BootFromSizeIsExact` proves that the free frames are the announced ones exactly in all other cases.

The shell passes at most 255 characters of a command line (`kernel/kernel.c:44`, `896`, `1215`), so a payload of more
than one block, and with it the failures of `write` and `writehex` for large payloads and the leak, are reached only by
calling the functions, not from the prompt. A `writehex` that gets no buffer can be.

## Model

| member | source | states |
|---|---|---|
| `Bitmap.LowestClear` | kernel/rexfs.c:394-408 | the lowest clear bit of a range: everything below is set, and the range end means none is clear |
| `Bitmap.LowestClearIsUnique` | kernel/rexfs.c:394-408 | any index with those properties is the one the scan returns |
| `Bitmap.CountUpdate` | kernel/rexfs.c:400-421 | setting or clearing one bit changes the number of set bits by exactly its own change |
| `Bitmap.ClearExists` | kernel/rexfs.c:394-408 | the scan finds a block exactly when the number of free blocks is positive |
| `Bitmap.UnpackSet` | kernel/rexfs.c:400 | or-ing the mask into its byte sets that bit and no other of the 4096 |
| `Bitmap.UnpackClear` | kernel/rexfs.c:418-421 | and-ing the inverted mask clears that bit and no other |
| `Bitmap.UnpackInjective` | kernel/rexfs.c:391-402 | bits and bytes determine each other, so nothing is lost by reasoning on bits |
| `Bitmap.SkipFullByte` | kernel/rexfs.c:395 | skipping a byte 0xFF skips only set bits |
| `RexFsLayout.IndexEntryAfterPut` | kernel/rexfs.c:682-685 | storing entry k of an index sector changes entry k and no other of the 256 |
| `RexFsLayout.ReadableFrom` | kernel/rexfs.c:740-751 | how far a reader gets: to the end of the file or its first missing block |
| `RexFsLayout.Find` | kernel/rexfs.c:237-247 | the first slot in table order that matches, or 64 when none does |
| `RexFsLayout.NameEnd` | kernel/rexfs.c:566-572 | the file name ends at a blank, at the end, or after 31 characters |
| `RexFsLayout.SkipSpaces` | kernel/rexfs.c:579-580 | exactly the blanks are skipped |
| `RexFsBlocks.AllocLimit` | kernel/rexfs.c:394-399 | the bound on bitmap indices never exceeds the bitmap, whatever the unsigned subtraction gives |
| `RexFsBlocks.ClaimKeeps` | kernel/rexfs.c:648-665 | a newly allocated block was referenced by nobody: taking and overwriting it keeps ownership and every file |
| `RexFsBlocks.LinkKeeps` | kernel/rexfs.c:667-686 | linking one taken, unreferenced block keeps every pointer in range, marked and unshared, and settles the leak |
| `RexFsBlocks.ClaimStep` | kernel/rexfs.c:648-665 | the step in which a block is taken: it is pending, and references, other files and pending blocks are as before |
| `RexFsBlocks.LinkDirectStep` | kernel/rexfs.c:667-668 | linking through a direct pointer gains exactly that pointer |
| `RexFsBlocks.LinkIndexStep` | kernel/rexfs.c:670-680 | linking a zeroed index block gains exactly the index pointer and no entries |
| `RexFsBlocks.LinkEntryStep` | kernel/rexfs.c:682-685 | rewriting the index sector gains exactly one entry and touches no other file |
| `RexFsBlocks.AppendDirect` | kernel/rexfs.c:647-668 | one iteration below block 10 links one chunk, costs one block and leaks none |
| `RexFsBlocks.AppendEntry` | kernel/rexfs.c:647-686 | the same for an entry of an existing index block |
| `RexFsBlocks.AppendFirstEntry` | kernel/rexfs.c:647-686 | block 10 costs two blocks, the chunk and the index block, and leaks none |
| `RexFsBlocks.AppendLoses` | kernel/rexfs.c:669-675 | without a block for the index the loop stops with one block marked that nobody references |
| `RexFsBlocks.AppendAll` | kernel/rexfs.c:646-690 | the whole write loop links exactly as many chunks as fit, keeps ownership and other files, and leaks exactly when eleven blocks are free and more than ten are needed |
| `RexFsBlocks.ReadFilled` | kernel/rexfs.c:733-764 | blocks that hold the chunks of a payload read back as the payload's prefix |
| `RexFsBlocks.ContentsKept` | kernel/rexfs.c:733-764 | a file whose inode, pointers and sectors are kept reads the same |
| `RexFsBlocks.DropKeeps` | kernel/rexfs.c:526-543 | releasing exactly one file's blocks keeps everyone else's ownership and leaks nothing |
| `RexFsBlocks.ReleaseKeeps` | kernel/rexfs.c:607-624 | after the release of the old blocks the file is empty, and the others are untouched |
| `RexFsBlocks.AppendWritesData` | kernel/rexfs.c:646-687 | the write loop writes only LBAs from 11 to the end of the disk |
| `RexFsTree.ForestAfterAdd` | kernel/rexfs.c:255-268 | a new inode in a free slot keeps the parent relation a forest, slot reuse included |
| `RexFsTree.ForestAfterRemove` | kernel/rexfs.c:545-550 | freeing the slot of a childless entry keeps the forest |
| `RexFsTree.NoSelfParent` | kernel/rexfs.c:513-525 | no live inode is its own parent |
| `RexFsTree.ChainHasNoRepeats` | kernel/rexfs.c:341-366 | a parent chain never visits an inode twice |
| `RexFsTree.Pigeonhole` | kernel/rexfs.c:342 | distinct ids between 1 and n are at most n |
| `RexFsTree.ChainIsShort` | kernel/rexfs.c:342-346 | every parent chain has at most 64 elements |
| `RexFsTree.CdLeadsToDir` | kernel/rexfs.c:279-328 | cd leads from the root or a live directory to the root or a live directory |
| `RexFsTree.ClimbIsChain` | kernel/rexfs.c:341-366 | with enough room the climb of pwd is the whole chain to the root |
| `RexFsTree.PwdReachesRoot` | kernel/rexfs.c:346 | the 64-step guard never cuts a path short: any larger guard gives the same path |
| `RexFsTree.ReplayFromRoot` | kernel/rexfs.c:315-387 | following the printed names from the root, directory by directory, ends at the directory pwd started from |
| `RexFsTree.PwdCdRoundTrip` | kernel/rexfs.c:279-388 | in a forest with distinct siblings and names cd can follow, replaying pwd returns to the directory |
| `RexFsModel.HexOf` | kernel/rexfs.c:848-873 | the decoder ends on every string and emits at most half as many bytes as it has characters |
| `RexFsModel.WriteTo` | kernel/rexfs.c:586-698 | an overwrite, refused or not, leaves superblock, mount state and geometry alone |
| `RexFsModel.Remove` | kernel/rexfs.c:478-553 | rm leaves superblock, mount state and geometry alone |
| `RexFsModel.FormatKeeps` | kernel/rexfs.c:78-116 | mkfs keeps the invariant exactly when its capacity is 0, or at least 11 with no session or a root session on a geometry no larger than the new disk |
| `RexFsModel.CreateKeeps` | kernel/rexfs.c:225-277 | mkdir and touch keep ownership, forest and session |
| `RexFsModel.AddKeepsOwned` | kernel/rexfs.c:255-270 | a new inode, even in a reused slot, owns no block and takes none from others |
| `RexFsModel.ChangeDirKeeps` | kernel/rexfs.c:279-328 | cd keeps the invariant: the current directory is 0 or live |
| `RexFsModel.RemovableIsLeaf` | kernel/rexfs.c:513-525 | an entry that rm accepts is nobody's parent |
| `RexFsModel.RemoveKeeps` | kernel/rexfs.c:478-553 | rm keeps the invariant; the current directory and its ancestors are never removed |
| `RexFsModel.StoreLoop` | kernel/rexfs.c:607-687 | release and write loop seen from the disk: exactly the blocks that fit are linked and other files are kept |
| `RexFsModel.StoreKeeps` | kernel/rexfs.c:607-696 | an overwrite keeps the invariant, the tree and every other file, and leaks exactly without an index block |
| `RexFsModel.StoreThenRead` | kernel/rexfs.c:607-764 | reading after writing yields exactly the first min(len, 512 c) bytes, with c = F up to ten free blocks and F - 1 beyond |
| `RexFsRuns.LateRefusal` | kernel/rexfs.c:607-645 | a write refused after the release breaks ownership exactly when the file owned blocks |
| `RexFsRuns.WriteKeeps` | kernel/rexfs.c:555-698 | write and writehex keep the invariant exactly when they are not refused late on a file with blocks |
| `RexFsRuns.StepInvariant` | kernel/rexfs.c:65-698 | every command keeps ownership, forest and session exactly under its stated condition |
| `RexFsRuns.RunInvariant` | kernel/rexfs.c:65-946 | the invariant holds at every command boundary of every safe run |
| `RexFsRuns.BlankDisk` | kernel/rexfs.c:65-76 | an idle machine with any unformatted disk satisfies the invariant, so runs may start there |
| `RexFsCommands.CreateIs` | kernel/rexfs.c:225-277 | mkdir and touch succeed exactly in a session, with a name, when no live entry of the directory has it and some slot is free; then the first free slot holds a fresh entry with the first 27 characters, else nothing changes |
| `RexFsCommands.RemoveIs` | kernel/rexfs.c:489-553 | rm of the first entry of a name refuses exactly directories with a live child, and otherwise frees that slot and exactly the blocks the file points to |
| `RexFsCommands.RemoveRefuses` | kernel/rexfs.c:478-511 | without a session, a name or an entry rm changes nothing |
| `RexFsCommands.CdIs` | kernel/rexfs.c:315-327 | cd by name enters the first directory of that name in the current one, or refuses and stays |
| `RexFsCommands.CdSpecial` | kernel/rexfs.c:279-313 | cd / leads to the root, cd .. to the parent recorded in the current inode, and at the root nowhere |
| `RexFsCommands.WriteIs` | kernel/rexfs.c:555-645 | when write and writehex succeed and with what answer they refuse; an early refusal changes nothing, a late one only the bitmap |
| `RexFsCommands.MkfsIs` | kernel/rexfs.c:78-116 | mkfs leaves a superblock of at most 4096 sectors, free slots and clear bits, and the session as it was |
| `RexFsCommands.MountIs` | kernel/rexfs.c:118-147 | mount refuses a foreign signature or version, and otherwise opens a session at the root in which every sector from 11 on can be used |
| `RexFsCommands.UnmountIs` | kernel/rexfs.c:149-164 | unmount closes the session and marks the disk clean, and nothing else |
| `RexFsCommands.RebootIs` | kernel/rexfs.c:65-76 | after a reboot a session is open exactly when the disk can be mounted |
| `RexFsCommands.CatIs` | kernel/rexfs.c:700-765 | cat answers for exactly the live files of the directory |
| `RexFsCommands.LoadIs` | kernel/rexfs.c:948-991 | exec loads exactly live files of at least 8 bytes, given a buffer |
| `RexFsCommands.InspectIs` | kernel/rexfs.c:1022-1035 | an image with signature, version, entry offset and code is run at its entry offset exactly when that lies inside it |
| `RexFsCommands.BadSignatureIs` | kernel/rexfs.c:1022-1029 | every image without NEX! in front is refused |
| `RexFsCommands.ParseIs` | kernel/rexfs.c:566-581 | a command line is split at the first blank or after 31 characters, the blanks behind are dropped, and without a blank in up to 31 characters there is no payload |
| `RexFsCommands.NibbleIs` | kernel/rexfs.c:864-870 | a character counts as the digit it spells in either case, and as 0 otherwise |
| `RexFsCommands.OddDigitDropped` | kernel/rexfs.c:857-861 | a single digit behind complete pairs is dropped |
| `RexFsWalks.PathOfChild` | kernel/rexfs.c:341-387 | the path of a directory is that of its parent and its own name |
| `RexFsWalks.CdUp` | kernel/rexfs.c:295-388 | cd .. takes the last component off what pwd prints |
| `RexFsWalks.CdDownUp` | kernel/rexfs.c:279-388 | cd into a directory puts its name behind the path, and cd .. then returns to the very state before |
| `RexFsWalks.MkdirThenCd` | kernel/rexfs.c:225-388 | mkdir of a new short name and cd into it end in an empty directory one name further down, and cd .. returns |
| `RexFsWalks.MkdirThenRm` | kernel/rexfs.c:225-553 | rm of a directory just made takes it away; only fields of a free slot differ from before |
| `RexFsRuns.NonInterference` | kernel/rexfs.c:225-946 | no command but mkfs changes the inode or the bytes in the slot of a live file it does not overwrite or remove |
| `RexFsLookup.NameKept` | kernel/rexfs.c:225-946 | for the lookups of rm, of cat and write, and of cd: another entry is still found by its name exactly unless an over-long creation, stored as that name, goes into an earlier slot |
| `RexFsLookup.LookupKept` | kernel/rexfs.c:225-946 | every other file keeps its bytes, and its name still finds it exactly when the command is not a touch of an over-long name, stored as that name, into an earlier slot |
| `RexFsLookup.CdKept` | kernel/rexfs.c:225-328 | cd by name from a directory leads where it led exactly unless an over-long mkdir hides the directory |
| `RexFsLookup.CatKept` | kernel/rexfs.c:225-946 | what cat prints for another file of the directory stays the same exactly unless such a touch shadows a file with bytes |
| `RexFsLookup.LongNameHides` | kernel/rexfs.c:425-723 | touch of a name one character longer makes cat print nothing for a file with text that it neither names nor changes |
| `RexFsLookup.LongNameRedirects` | kernel/rexfs.c:225-553 | mkdir of a name one character longer redirects cd and rm to the new directory |
| `RexFsHiding.BlankDiskHides` | kernel/rexfs.c:65-765 | from any blank disk: mkfs, mount, two touches, a write and an rm are safe, cat prints the text, and one more touch makes it print nothing |
| `RexFsLookup.TouchedIsAddressed` | kernel/rexfs.c:478-604 | a command overwrites or removes a file found by name only when it gives that name in that directory |
| `RexFsLookup.RunReads` | kernel/rexfs.c:225-946 | over a safe run without mkfs a file that no command names or shadows is found and reads the same to the end |
| `RexFsLookup.WriteRunCat` | kernel/rexfs.c:555-765 | after a write, any safe run that leaves the file alone ends with cat printing exactly the surviving bytes |
| `RexFsLookup.ShortNamesReads` | kernel/rexfs.c:225-946 | the same for every such run whose created names have at most 27 characters |
| `RexFsRuns.StepLeaks` | kernel/rexfs.c:390-698 | a safe command but mkfs keeps the set of marked and unreferenced blocks, or adds exactly one if it is a write that loses its block for lack of an index |
| `RexFsRuns.FormatLeaks` | kernel/rexfs.c:78-116 | mkfs takes every leaked block back |
| `RexFsRuns.RunLeaks` | kernel/rexfs.c:390-698 | over every safe run the number of leaked blocks is the initial one plus one for each such write since the last mkfs |
| `RexFsRuns.StepExact` | kernel/rexfs.c:390-698 | a safe command keeps an exact bitmap exact if and only if it is not such a write |
| `RexFsRuns.RunExact` | kernel/rexfs.c:390-698 | in every safe run without such a write the set bits are exactly the blocks reachable from live files |
| `RexFsRuns.SetBitsAre` | kernel/rexfs.c:390-423 | the set bits are the blocks reachable from live files and the leaked ones, and no others |
| `RexFsNames.CreateDistinct` | kernel/rexfs.c:236-268 | creation keeps siblings distinct exactly when the truncated name is new |
| `RexFsNames.LongNameTwice` | kernel/rexfs.c:437-467 | creating one name of more than 27 characters twice leaves two siblings with the same stored name |
| `RexFsNames.StepCanReturn` | kernel/rexfs.c:225-553 | directories with entries, and the current one, always have names cd can follow |
| `RexFsNames.StepDistinct` | kernel/rexfs.c:225-553 | any command keeps siblings distinct exactly when it does not create a truncation clash |
| `RexFsNames.RunNames` | kernel/rexfs.c:225-553 | distinct and enterable names in every state of every safe run whose created names have at most 27 characters |
| `RexFsPaths.ChainAvoids` | kernel/rexfs.c:341-366 | no entry on the way from a directory to the root lies in that directory |
| `RexFsPaths.ChangeKeepsPath` | kernel/rexfs.c:225-553 | entries that come, go or change in the current directory leave the way back to it as it was |
| `RexFsPaths.CdKeepsPath` | kernel/rexfs.c:279-328 | wherever cd leads, the way back to there is followed by its names |
| `RexFsPaths.StepFollowed` | kernel/rexfs.c:65-946 | every safe command keeps the way back, with names of any length and equal siblings |
| `RexFsPaths.ReplayCommands` | kernel/rexfs.c:279-328 | running cd to the root and then to each name changes only the current directory, to the end of the walk |
| `RexFsPaths.RunPwdRoundTrip` | kernel/rexfs.c:279-388 | in every state of every safe run that starts at the root, cd to the root and to each component of pwd returns to that very state |
| `RexFsRoundTrip.StoredBytes` | kernel/rexfs.c:627-696 | what a file holds after a write, and that only a full disk shortens it |
| `RexFsRoundTrip.WriteThenCat` | kernel/rexfs.c:555-765 | write then cat prints exactly the surviving bytes and a newline, or nothing when none survive |
| `RexFsRoundTrip.HexRoundTrip` | kernel/rexfs.c:848-873 | bytes spelled as hex pairs in either case, with any blanks between pairs and at the end, decode to those bytes |
| `RexFsRoundTrip.ParseLine` | kernel/rexfs.c:566-580 | a name without blanks and up to 31 characters, a blank and a text parse into that name and the text less leading blanks |
| `RexFsRoundTrip.HexLine` | kernel/rexfs.c:778-873 | a command line that spells bytes names its file and decodes to those bytes |
| `RexFsRoundTrip.HexLoadRoundTrip` | kernel/rexfs.c:767-1035 | writehex of any spelled bytes that fit, then exec: the loader's buffer is exactly those bytes |
| `RexFsWhole.StoreWhole` | kernel/rexfs.c:646-696 | a write leaves a file whose size is what can be read of it exactly when it does not lose a block |
| `RexFsWhole.StepWhole` | kernel/rexfs.c:65-946 | a command keeps every live file that way exactly unless it is such a write |
| `RexFsWhole.RunWhole` | kernel/rexfs.c:65-946 | over every safe run without such a write each live file has exactly the bytes its size promises |
| `RexFsWhole.RunLoadsExactly` | kernel/rexfs.c:986-1020 | in such runs the loader fills its buffer with exactly the file, whatever the buffer held |
| `RexFsHistory.SuperblockStep` | kernel/rexfs.c:65-164 | only mkfs and unmount mark the disk clean, only a mount marks it dirty, no other command touches the superblock |
| `RexFsHistory.DirtyFlag` | kernel/rexfs.c:130-160 | over every history the flag on disk says whether a mount is still open |
| `RexFsHistory.MountReport` | kernel/rexfs.c:130-134 | mount and boot report an unclean disk exactly when some mount followed the latest mkfs or successful unmount |
| `RexFsHistory.WritesStayInData` | kernel/rexfs.c:646-687 | overwriting a file changes no sector outside the data area |
| `RexFsCycle.SamePointersSameBits` | kernel/rexfs.c:390-423 | two disks with the same pointers and the same leaked blocks have the same bitmap |
| `RexFsCycle.SameBitsSameLeaks` | kernel/rexfs.c:390-423 | with the same pointers, two bitmaps agree exactly when the leaked blocks do |
| `RexFsCycle.TouchThenFind` | kernel/rexfs.c:449-471 | after touch both lookups find the new inode |
| `RexFsCycle.TouchWriteRm` | kernel/rexfs.c:425-698 | touch, write and rm of one name return the bitmap to its earlier value exactly unless the write leaks, on any disk and for any text |
| `RexFsHistory.AllocationInDisk` | kernel/rexfs.c:399 | every block that can be handed out lies on the disk exactly when it has at least 11 sectors |
| `RexFsHistory.OversizedWriteBreaks` | kernel/rexfs.c:607-645 | overwriting any non-empty file with more than 266 blocks always breaks ownership |
| `RexFs.Driver.Scan` | kernel/rexfs.c:237-247 | the two nested loops over sectors and slots return the first match of the table |
| `RexFs.Driver.FindFreeBlock` | kernel/rexfs.c:394-408 | the byte-skipping scan returns the lowest clear usable bit, or fails exactly when none exists |
| `RexFs.Driver.AllocateFreeBlock` | kernel/rexfs.c:390-409 | marks exactly the block it returns; 0 and an unchanged bitmap when the disk is full |
| `RexFs.Driver.FreeBlock` | kernel/rexfs.c:411-423 | clears exactly the block's bit, and nothing for an LBA below the data area |
| `RexFs.Driver.ReleaseBlocks` | kernel/rexfs.c:607-624 | direct, index and entry loops together clear exactly the blocks the inode points to |
| `RexFs.Driver.FillSector` | kernel/rexfs.c:655-663 | the sector buffer is the next chunk, zero padded |
| `RexFs.Driver.LinkDataBlock` | kernel/rexfs.c:667-686 | links block k directly or through an index block, allocating that first when missing |
| `RexFs.Driver.WriteBlock` | kernel/rexfs.c:647-687 | one iteration of the write loop, with both ways of breaking off |
| `RexFs.Driver.WriteBlocks` | kernel/rexfs.c:646-687 | the loop on the real bitmap and sectors computes the modelled write |
| `RexFs.Driver.constructor` | kernel/rexfs.c:65-76 | power-on state: any disk, nothing mounted |
| `RexFs.Driver.MakeFs` | kernel/rexfs.c:78-116 | performs the mkfs step: superblock, eight empty table sectors, empty bitmap |
| `RexFs.Driver.MountDisk` | kernel/rexfs.c:118-147 | performs the mount step and keeps the invariant |
| `RexFs.Driver.BootDisk` | kernel/rexfs.c:65-76 | performs power loss and the boot-time mount and keeps the invariant |
| `RexFs.Driver.UnmountDisk` | kernel/rexfs.c:149-164 | performs the unmount step and keeps the invariant |
| `RexFs.Driver.CopyName` | kernel/rexfs.c:263-268 | the copying loop stores the first 27 characters |
| `RexFs.Driver.CreateEntry` | kernel/rexfs.c:225-277 | performs the mkdir or touch step, all error cases included, and keeps the invariant |
| `RexFs.Driver.ChangeDirectory` | kernel/rexfs.c:279-328 | performs the cd step and keeps the invariant |
| `RexFs.Driver.RemoveEntry` | kernel/rexfs.c:478-553 | performs the rm step and keeps the invariant |
| `RexFs.Driver.OverwriteFile` | kernel/rexfs.c:582-698 | performs lookup, release, checks, write loop and inode update of one overwrite |
| `RexFs.Driver.WriteCommand` | kernel/rexfs.c:555-698 | performs the write step; the invariant survives under the step's condition |
| `RexFs.Driver.WriteHexCommand` | kernel/rexfs.c:767-946 | performs the writehex step; the invariant survives under the step's condition |
| `RexFs.Driver.LocateBlock` | kernel/rexfs.c:741-749 | the LBA of data block k, direct or through the index block |
| `RexFs.Driver.ReadBlocks` | kernel/rexfs.c:737-763 | the reading loop yields the file's contents |
| `RexFs.Driver.CatFile` | kernel/rexfs.c:700-765 | prints what the model of cat prints, or reports its error |
| `RexFs.Driver.LoadProgram` | kernel/rexfs.c:948-1035 | refuses or fills a buffer that starts with the file's contents, and judges its signature and entry offset |
| `RexFs.Driver.CollectIds` | kernel/rexfs.c:341-366 | the climbing loop collects the modelled climb |
| `RexFs.Driver.PrintNames` | kernel/rexfs.c:368-386 | the printing loop names the collected ids from the root down |
| `RexFs.Driver.PrintPath` | kernel/rexfs.c:330-388 | prints the modelled path, or reports that nothing is mounted |
| `RexFs.SplitArgs` | kernel/rexfs.c:566-581 | the two scanning loops split a command line as modelled |
| `RexFs.SkipBlanks` | kernel/rexfs.c:851-853 | skipping blanks does not change what is decoded |
| `RexFs.DecodeHex` | kernel/rexfs.c:838-873 | the decoding loop stays inside a buffer of half the length plus one and yields the modelled bytes |
| `HeapModel.FirstFit` | kernel/kernel.c:111-129 | the first free block that is large enough, or none |
| `HeapModel.LargestFree` | kernel/kernel.c:197-207 | an upper bound on free sizes that some free block attains |
| `HeapModel.Accounting` | kernel/kernel.c:153-195 | used bytes, free bytes and 12 bytes for each block add up to the extent of the blocks |
| `HeapModel.FailsIff` | kernel/kernel.c:110-131 | kmalloc of a positive size fails exactly when it exceeds the largest free block |
| `HeapModel.TakeKeeps` | kernel/kernel.c:113-127 | kmalloc adds exactly one payload of at least the requested size, moves no other and keeps the heap tiled |
| `HeapModel.CoalesceKeeps` | kernel/kernel.c:138-146 | the coalescing pass changes neither the extent nor any live payload |
| `HeapModel.CoalesceSeparates` | kernel/kernel.c:138-146 | after one pass no two neighbouring blocks are free |
| `HeapModel.ReleaseKeeps` | kernel/kernel.c:133-147 | kfree removes exactly one payload, moves no other and leaves no free neighbours |
| `HeapModel.Canonical` | kernel/kernel.c:133-147 | extent and live payloads determine a list of blocks without free neighbours |
| `HeapModel.HistoryIndependence` | kernel/kernel.c:103-147 | two heaps with the same live payloads are the same block list, whatever led to them |
| `HeapModel.ReleaseUndoesTake` | kernel/kernel.c:110-147 | the same for every free block that is large enough, not only the first |
| `HeapModel.FreeUndoesMalloc` | kernel/kernel.c:110-147 | kfree of the pointer that kmalloc just returned restores the block list exactly, split or not |
| `HeapModel.LiveDisjoint` | kernel/kernel.c:110-131 | live payloads are disjoint, with a header between them |
| `HeapModel.ApplyKeeps` | kernel/kernel.c:110-147 | one call keeps the heap well formed, and exactly the named payload comes or goes |
| `HeapModel.GrantIs` | kernel/kernel.c:110-131 | the payload has n bytes when the chosen block exceeds n + 16 and all of its bytes otherwise, so at most n + 16; used bytes grow by it, and free bytes fall by at most n + 16 |
| `HeapModel.FreeGivesBack` | kernel/kernel.c:133-147 | used bytes fall by exactly the payload freed, and used blocks by one |
| `HeapModel.CountsAre` | kernel/kernel.c:177-195 | used and free blocks are all blocks, and the used ones are the live payloads |
| `HeapModel.InitialOk` | kernel/kernel.c:103-108 | the initial single block is a well-formed heap with nothing live, nothing used and all but a header free |
| `HeapModel.RunInvariant` | kernel/kernel.c:103-207 | after every legal run the blocks tile 1 MiB, no two free ones touch, payloads are disjoint and the books balance |
| `HeapModel.FreeEverything` | kernel/kernel.c:133-147 | freeing all live pointers, in any order, restores the single initial block |
| `Heap.SegmentReplace` | kernel/kernel.c:115-122 | rewriting headers within one stretch leaves the rest of the chain alone |
| `Heap.SplitNode` | kernel/kernel.c:115-124 | the header updates of a split turn one chain block into two |
| `Heap.MergeNodes` | kernel/kernel.c:140-142 | the header updates of a merge turn two chain blocks into one |
| `Heap.Allocator.constructor` | kernel/kernel.c:103-108 | one free block over the whole array |
| `Heap.Allocator.Kmalloc` | kernel/kernel.c:110-131 | the pointer walk takes the first fit of the block list and returns its payload, or null and nothing changed |
| `Heap.Allocator.Claim` | kernel/kernel.c:114-124 | splits exactly when more than a header and four bytes remain |
| `Heap.Allocator.Kfree` | kernel/kernel.c:133-147 | frees the block and coalesces the list; a null pointer is ignored |
| `Heap.Allocator.CoalesceChain` | kernel/kernel.c:138-146 | the in-place pass computes the coalesced list |
| `Heap.Allocator.GetUsedSize` | kernel/kernel.c:153-163 | the walk sums the used bytes of the list |
| `Heap.Allocator.GetFreeSize` | kernel/kernel.c:165-175 | the walk sums the free bytes of the list |
| `Heap.Allocator.GetCounts` | kernel/kernel.c:177-195 | the walks count used and free blocks |
| `Heap.Allocator.GetLargestFreeBlock` | kernel/kernel.c:197-207 | the walk finds the largest free size |
| `SchedModel.Distance` | kernel/sched.c:130-136 | how many links lead from one task to another, between 1 and the ring's length |
| `SchedModel.PickIsNearest` | kernel/sched.c:130-136 | the search of task_switch stops at the nearest runnable task |
| `SchedModel.PickComesBack` | kernel/sched.c:130-136 | with nothing else runnable it comes back to the current task |
| `SchedModel.SwitchKeeps` | kernel/sched.c:125-153 | a switch leaves exactly one RUNNING task, the current one, dispatches only a READY task or the current one again, and changes no third task |
| `SchedModel.StepKeeps` | kernel/sched.c:37-175 | every step, any exit included, keeps exactly one RUNNING task, the current one |
| `SchedModel.TickIs` | kernel/sched.c:125-153 | a tick saves the stack pointer, makes the old task READY unless it goes on, and changes nothing else |
| `SchedModel.ExitIs` | kernel/sched.c:155-164 | an exit saves the stack pointer, leaves the task suspended unless it is dispatched again, and changes nothing else |
| `SchedModel.SyscallsAre` | kernel/sched.c:155-175 | yield does what a tick does, and all numbers but 1 and 3 change nothing |
| `SchedModel.CreateIs` | kernel/sched.c:37-119 | a new task comes last in the ring, READY and with the next process id; nothing else changes |
| `SchedModel.RunNumbered` | kernel/sched.c:41 | over every run process ids count up around the ring |
| `SchedModel.PidsDiffer` | kernel/sched.c:41 | two tasks have the same process id exactly when they are a multiple of 2^32 creations apart |
| `SchedModel.SuspendedStays` | kernel/sched.c:125-165 | no step changes the control block of a suspended task or dispatches it |
| `SchedModel.ExitResurrects` | kernel/sched.c:125-165 | an exiting task is dispatched again exactly when all others are suspended |
| `SchedModel.RunKeeps` | kernel/sched.c:37-175 | exactly one RUNNING task, the current one, at every point of every run |
| `SchedModel.RunSuspended` | kernel/sched.c:125-165 | over every run a suspended task keeps its control block and is never dispatched |
| `SchedModel.ExitIsFinal` | kernel/sched.c:125-165 | a task that exits is never dispatched again in the run exactly when some other task was not suspended at its exit |
| `SchedModel.StepApproaches` | kernel/sched.c:105-175 | each switch brings the current task nearer to a waiting READY task, each creation moves it at most one away |
| `SchedModel.BoundedWaiting` | kernel/sched.c:105-175 | until it is dispatched a READY task stays READY, and switches so far plus remaining distance stay within the first distance plus creations |
| `SchedModel.IsDispatched` | kernel/sched.c:105-175 | a run with that many switches dispatches it |
| `SchedModel.ResumesWhereLeft` | kernel/sched.c:128-152 | a task that has been switched out has the esp of its last switch-out saved, wherever in the run that was |
| `SchedModel.StartsOnFrame` | kernel/sched.c:94-152 | a task created in the run and not switched out since has its initial frame saved |
| `SchedModel.DispatchReturns` | kernel/sched.c:125-152 | task_switch returns the esp of the last switch-out of the task it dispatches, or its initial frame |
| `SchedModel.CreatedAt` | kernel/sched.c:37-119 | every task that is not from the start of the run was created by one of its steps |
| `Sched.PushFrame` | kernel/sched.c:71-92 | the words pushed are an interrupt frame that starts the task at its entry with its ring's selectors |
| `Sched.PushTrampoline` | kernel/sched.c:49-65 | the user stack holds the exit code at its base and that address on top |
| `Sched.PrepareStacks` | kernel/sched.c:44-94 | control block, kernel stack and user stack fit together |
| `Sched.Scheduler.Init` | kernel/sched.c:13-35 | a ring of one RUNNING task with the first process id |
| `Sched.Scheduler.Enqueue` | kernel/sched.c:105-116 | the pointer walk appends behind the tail: the next fields again form one ring of all tasks |
| `Sched.Scheduler.CreateTask` | kernel/sched.c:37-119 | performs the create step and prepares the stacks |
| `Sched.Scheduler.FindNext` | kernel/sched.c:130-136 | the pointer search returns the node that the modelled search picks |
| `Sched.Scheduler.Dispatch` | kernel/sched.c:138-142 | demotes a RUNNING current task and promotes the next, and changes no other |
| `Sched.Scheduler.TaskSwitch` | kernel/sched.c:125-153 | performs the switch and returns the stack pointer of the dispatched task; an inactive scheduler changes nothing |
| `Sched.Scheduler.SyscallHandler` | kernel/sched.c:155-175 | performs exit and yield, and returns to the caller on every other number and before the scheduler is active |
| `Checksum.SwapTwice` | drivers/rtl8139.c:171-174 | ntohs is its own inverse |
| `Checksum.SwapTwice32` | drivers/rtl8139.c:176-182 | ntohl is its own inverse |
| `Checksum.HtonsIsNetworkOrder` | drivers/rtl8139.c:171-174 | storing htons of a value puts its bytes in network order |
| `Checksum.HtonlIsNetworkOrder` | drivers/rtl8139.c:176-182 | storing htonl of a value puts its four bytes in network order, as the TCP header fields hold them |
| `Checksum.FoldIsOnesComplement` | drivers/rtl8139.c:214-216 | folding the carries gives the one's complement value of any sum |
| `Checksum.StoredChecksumVerifies` | drivers/rtl8139.c:205-218 | storing the checksum into a zeroed aligned field makes the whole buffer check as 0 |
| `Checksum.ByteOrderIndependence` | drivers/rtl8139.c:205-218 | the checksum computed on little-endian words, odd last byte included, is the byte swap of the wire's, as in section 2(B) of RFC 1071 |
| `Checksum.AddWords` | drivers/rtl8139.c:205-213 | the word loop and the odd last byte compute the modelled sum without wrap-around |
| `Checksum.ComputeChecksum` | drivers/rtl8139.c:205-218 | the loop computes the modelled checksum up to 64 KiB, without wrap-around |
| `Arp.FindIp` | drivers/rtl8139.c:292-297 | the first active entry with the address, or none |
| `Arp.ReplayMirrors` | drivers/rtl8139.c:274-289 | slot i holds the i-th distinct address ever added, with its latest hardware address |
| `Arp.ResolveIsLatest` | drivers/rtl8139.c:274-299 | a lookup answers with the latest hardware address of each of the first 16 distinct addresses, and fails on all others |
| `Arp.ActiveDistinct` | drivers/rtl8139.c:274-289 | active entries have distinct addresses |
| `Arp.ArpCache.AddEntry` | drivers/rtl8139.c:274-289 | the two in-place loops add one entry to the history the cache mirrors |
| `Arp.ArpCache.Lookup` | drivers/rtl8139.c:291-299 | the scan answers with the latest hardware address the history gives |
| `Icmp.ReplyHeadersAre` | drivers/rtl8139.c:409-419 | addresses turned around, everything behind the IP addresses copied |
| `Icmp.ReplyHeadersCheck` | drivers/rtl8139.c:415-419 | the reply's IP header, options included, checks as 0 |
| `Icmp.AnswerIcmpChecks` | drivers/rtl8139.c:421-424 | the answered message checks as 0, and the receiver's own recomputation agrees |
| `Icmp.ReplyIs` | drivers/rtl8139.c:404-426 | the echo reply goes back to the requester and keeps code, identifier, sequence number and data |
| `Icmp.ReplyChecks` | drivers/rtl8139.c:418-424 | both checksums of the reply are right |
| `Icmp.EchoExchange` | drivers/rtl8139.c:388-446 | every well-formed echo request of at most 1024 bytes is answered, and the requester's own handler counts the answer, as RFC 792 asks |
| `Icmp.IpHeaderIs` | drivers/rtl8139.c:850-861 | a built IP header checks as 0 and carries its fields where the receiver reads them |
| `Icmp.PingIsRequest` | drivers/rtl8139.c:821-885 | a ping is a well-formed echo request to its destination |
| `Icmp.PingExchange` | drivers/rtl8139.c:388-885 | a whole ping between two hosts: answered by one, counted by the other |
| `Icmp.TcpHeaderChecks` | drivers/rtl8139.c:586-614 | a TCP header checks as 0 together with its pseudo header |
| `ArpExchange.ResolveAfterAdd` | drivers/rtl8139.c:274-299 | an address just added resolves exactly when it was known or a slot was free |
| `ArpExchange.RequestIsAnswered` | drivers/rtl8139.c:303-356 | the owner of the address learns the asker and answers |
| `ArpExchange.ReplyIsLearned` | drivers/rtl8139.c:326-360 | the asker learns the owner and does not answer |
| `ArpExchange.ArpResolves` | drivers/rtl8139.c:274-360 | after request and reply the asker resolves the owner, unless its cache is full of others |
| `Packets.HeadersCheck` | drivers/rtl8139.c:467-492 | frame and IP headers carry addresses, length and protocol where the receiver reads them, and check as 0 |
| `Packets.UdpPacketIs` | drivers/rtl8139.c:463-503 | a datagram ends where its lengths say and carries the payload last |
| `Packets.TcpPacketChecks` | drivers/rtl8139.c:558-617 | both checksums of a segment are right, the TCP one over the addresses in its IP header |
| `PacketFields.HeadersRead` | drivers/rtl8139.c:563-584 | frame and IP header of every packet read back as their arguments, with type 0x0800, no options, no fragments and a lifetime of 64 |
| `PacketFields.TcpReads` | drivers/rtl8139.c:558-617 | a segment reads back, at the offsets of its header, as the ports, numbers and flags it was built from, with a five-word header and a window of 8192 |
| `PacketFields.UdpReads` | drivers/rtl8139.c:463-503 | a datagram reads back as the ports and the payload it was built from, with its length and no checksum |
| `PacketFields.PingReads` | drivers/rtl8139.c:847-875 | a ping reads back as an echo request with identifier 1234, sequence number 1 and 32 letters |
| `PacketFields.ArpReads` | drivers/rtl8139.c:304-321 | an ARP frame reads back as what it was built from, with the types and lengths of Ethernet and IPv4 |
| `PacketFields.RequestReads` | drivers/rtl8139.c:303-324 | a request is broadcast and asks for the owner of the address |
| `PacketFields.ArpAnswered` | drivers/rtl8139.c:326-360 | exactly requests for the own address are answered, to their sender; every full frame teaches its sender |
| `PacketFields.UdpFramesAre` | drivers/rtl8139.c:463-503 | which frames udp_send sends, and to which hardware address |
| `PacketFields.PingFramesAre` | drivers/rtl8139.c:821-885 | which frames a ping sends, and to which hardware address |
| `PacketFields.ReceiveIs` | drivers/rtl8139.c:388-452 | only delivered ICMP packets are counted or answered: replies that check as 0, and requests of at most 1024 bytes |
| `Packets.ColdPing` | drivers/rtl8139.c:303-885 | a ping to an unknown host: request, reply, ping and echo, and the answer is counted |
| `Packets.Sender.BuildPing` | drivers/rtl8139.c:847-875 | the buffer is filled with the modelled ping |
| `Packets.Sender.Ping` | drivers/rtl8139.c:821-885 | the frames sent for a known, an answered and an unanswered address |
| `Packets.Sender.SendUdp` | drivers/rtl8139.c:463-503 | the frames sent: none when too long, a request and a broadcast when the address is unknown |
| `Packets.Sender.SendTcp` | drivers/rtl8139.c:558-617 | the segment sent, its checksum taken over a temporary copy behind the pseudo header |
| `NetStack.Seal` | drivers/rtl8139.c:418-419 | clears a checksum field and stores the checksum of its range there |
| `NetStack.TurnAround` | drivers/rtl8139.c:411-419 | the in-place updates of a copied request give the modelled reply headers |
| `NetStack.Station.AnswerEcho` | drivers/rtl8139.c:404-426 | fills the 1024-byte buffer with the modelled reply |
| `NetStack.Station.CheckEcho` | drivers/rtl8139.c:427-436 | the recomputation with the field cleared decides, and the packet is left as it was |
| `NetStack.Station.HandleIpv4` | drivers/rtl8139.c:388-452 | does what the model of the handler does, and counts exactly the accepted replies |
| `NetStack.Station.HandleArp` | drivers/rtl8139.c:326-360 | learns the sender of every full frame and answers exactly the requests for the own address |
| `NetStack.FillArp` | drivers/rtl8139.c:304-321 | the fields written one by one make the modelled 60-byte frame |
| `PmmModel.MaxBlocks` | mm/pmm.c:95-122 | between 1024 and 8192 frames are tracked, whatever the map says |
| `PmmModel.MapReads` | mm/pmm.c:150-160 | a map whose entries lie one behind the other is read in full and in order |
| `PmmModel.LimitIs` | mm/pmm.c:95-122 | with a map a frame above the reserve is tracked exactly when some entry based below 4 GiB reaches its end |
| `PmmModel.MarkedRegions` | mm/pmm.c:150-160 | below the limit a frame is unmarked exactly when the last entry covering it is usable RAM |
| `PmmModel.BootFreeFrames` | mm/pmm.c:143-168 | after boot with a map a frame is free exactly when it lies above the reserve, some entry reaches its end, and the last entry whose computed range covers it is usable RAM |
| `PmmModel.CoversIsExact` | mm/pmm.c:50-59 | the range computed from the low words agrees with the 64-bit range of the entry on all tracked frames exactly when that ends below 4 GiB, or starts beyond the tracked frames, or the computed end lies beyond them |
| `PmmModel.LongEntryMissed` | mm/pmm.c:156-157 | an entry of more than 4 GiB describes a tracked frame that is not marked, without any wrap |
| `PmmModel.BootFollowsMap` | mm/pmm.c:143-168 | when all entries meet that condition, a frame above the reserve is free exactly when some entry reaches its end and the last entry describing it is usable RAM |
| `PmmModel.BootFromSize` | mm/pmm.c:161-167 | without a map the tracked frames above the reserve are those that end inside the computed size; they are free, and none is when rounding the size up wraps |
| `PmmModel.BootFromSizeIsExact` | mm/pmm.c:161-167 | without a map the free frames are the whole announced frames above the reserve exactly when rounding does not wrap and the size does not, or wraps to past the tracked frames |
| `PmmModel.LargeSizeMissed` | mm/pmm.c:162 | 4 GiB and 8 MiB are seen as 8 MiB, and a frame of the announced memory stays in use |
| `PmmModel.BootInv` | mm/pmm.c:143-168 | after boot the counter is the number of set bits and the reserve is in use |
| `PmmModel.AllocKeeps` | mm/pmm.c:170-179 | alloc hands out the lowest free frame from 1024 up to the last whole byte, fails exactly when there is none, and keeps the books |
| `PmmModel.FreeKeeps` | mm/pmm.c:198-207 | free keeps the books exactly when the frame is untracked or was in use |
| `PmmModel.FreeIs` | mm/pmm.c:198-207 | a frame in use that is freed is free again, nothing else changes, and the next alloc finds a frame up to it |
| `PmmModel.FreeUndoesAlloc` | mm/pmm.c:170-207 | freeing the frame just handed out restores the state, and freeing an untracked address changes nothing |
| `PmmModel.StepKeeps` | mm/pmm.c:170-207 | users who free only what they hold keep every held frame marked, and are never handed a held one |
| `PmmModel.RunInvariant` | mm/pmm.c:170-207 | the same at every point of every legal run |
| `PmmModel.RunAllocates` | mm/pmm.c:170-207 | over every legal run the counter is exact and alloc returns the lowest free frame, never one already handed out |
| `Pmm.FrameAllocator.SetFrame` | mm/pmm.c:38-40 | sets exactly one bit of the packed bitmap |
| `Pmm.FrameAllocator.ClearFrame` | mm/pmm.c:42-44 | clears exactly one bit |
| `Pmm.FrameAllocator.TestFrame` | mm/pmm.c:46-48 | reads that bit |
| `Pmm.FrameAllocator.MarkFrames` | mm/pmm.c:50-59 | the loop marks exactly the frames of the outward-rounded 32-bit range below the limit |
| `Pmm.FrameAllocator.ReserveLow` | mm/pmm.c:61-65 | marks exactly the first 1024 frames |
| `Pmm.FrameAllocator.RecountUsed` | mm/pmm.c:67-72 | the counter becomes the number of set bits below the limit |
| `Pmm.FrameAllocator.ComputeMaxBlocks` | mm/pmm.c:95-122 | the walk over the map, entry by entry at the distance each one states, computes the modelled limit |
| `Pmm.FrameAllocator.ApplyRegions` | mm/pmm.c:150-160 | the same walk marks exactly what the entries say, in order |
| `Pmm.FrameAllocator.InitFromMmap` | mm/pmm.c:143-168 | boots into the modelled state, which satisfies the invariant, for every map whose walk ends |
| `Pmm.FrameAllocator.FindFirstFree` | mm/pmm.c:74-87 | the byte-skipping scan finds the lowest free frame of its range, or -1 exactly when there is none |
| `Pmm.FrameAllocator.AllocBlock` | mm/pmm.c:170-179 | performs the alloc step and returns the frame's address, 0 when there is none |
| `Pmm.FrameAllocator.FreeBlock` | mm/pmm.c:198-207 | performs the free step; the invariant survives exactly when the frame is untracked or was in use |

## Left out

- ATA, PCI, RTC, keyboard, mouse, VGA, GDT, IDT and boot code: port I/O and hardware tables. The capacity that ATA IDENTIFY reports is an input of `mkfs`.
- The shell, printing, history, GUI and trace rings; `ls` and `fsinfo` print what the modelled state already says. The shell's unmounted `write`, which overwrites sector 1, is outside the model.
- RTL8139 rings, transmit descriptors and interrupt handler: they depend on the device. Sending a frame is the result of the method that builds it.
- The TCP responder's transitions and the printing of received UDP datagrams (`drivers/rtl8139.c:505-552`, `619-669`): single branches; only the packets sent are modelled.
- `vmm.c`, the unused `pmm_init`, and a null information pointer in `pmm_init_from_mmap`, which does nothing.
- Interrupts or power loss in the middle of an operation: each operation is one atomic step, power is lost between commands only. RexFS has no journal.
- Running a loaded program: `exec` is modelled up to the checks on the filled buffer. CR3 and TSS updates are left out.
- Sectors are typed: the superblock, the inode table and the bitmap are separate parts of the disk, without reserved and padding bytes, and LBAs below 11 do not alias them. The invariant shows that no file pointer names them.
- Strings are sequences of characters 1 to 255, without the terminating zero; a null string argument is the empty string.
- The superblock's data offset is 11 in every state covered by the invariant, as `mkfs` writes it.
- The messages "out of disk space" of `write` are not outcomes of their own: such a write ends as done, and the stored contents tell how much survived.
- RexFs.Driver.CatFile: is stated on states that satisfy the driver's invariant, under which no file is longer than 266 blocks; the source reads past its index buffer otherwise.
- RexFs.Driver.LoadProgram: the same.
- RexFs.Driver.ReadBlocks: takes inodes of at most 266 blocks, for the same reason.
- RexFs.Driver.FreeBlock: takes LBAs that have a bit in the bitmap; the source indexes past its 512-byte buffer otherwise. Under the invariant no file has such a pointer.
- RexFs.Driver.ReleaseBlocks: takes inodes whose pointers have a bit, for the same reason, and the data offset 11 that every mounted disk has.
- RexFsHistory.DirtyFlag: ranges over all runs. In a run that has broken block ownership, `rm` and `write` of the source may write past the bitmap buffer, which is not modelled.
- RexFsHistory.MountReport: the same.
- Icmp.Receive: requires that an ICMP message of at least 8 bytes lies inside an IP packet of at least 20 (`Readable`). For shorter ones the source takes fields from behind the message, or from bytes of its reply buffer that were never copied, which is not modelled. Packets of other protocols are handed over unexamined.
- NetStack.Station.HandleIpv4: has the same condition.
- Packets.Sender.Ping: the waiting loop that polls the cache is an input, the address it found or none.
- Sched.Scheduler.CreateTask: the control block and the two stack pages are given, so a failing `kmalloc` is not covered.
- Sched.Scheduler.Init: the same for its control block.
- Heap.Allocator.Kmalloc: headers are a map from offset to header, so bytes of payloads and headers overwritten by them are not modelled; the counter of total bytes allocated is left out.
- Heap.Allocator.Kfree: requires a live pointer or null, as the source does of its callers.
- Pmm.FrameAllocator.InitFromMmap: the walk over the Multiboot memory map must move forward at every entry, as the map's size fields make it; the source may otherwise loop for ever. The bytes of an entry are given as an entry for each address.
- Pmm.FrameAllocator.ComputeMaxBlocks: the same.
- Sched.Scheduler.SyscallHandler: an exit before the scheduler is active dereferences a null task in the source and is excluded.
- Checksum.ComputeChecksum: stops at 64 KiB, up to which the 32-bit sum cannot wrap.
