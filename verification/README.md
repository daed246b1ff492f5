# ManiOS, verified

A Dafny model of the parts of ManiOS that are hardest to get right, with proofs of what they promise: servers and
allocators that keep their books over every run, arithmetic that is exact, texts that read back, layouts that leave no
gap. `dafny verify dfyconfig.toml` checks all of it.

| modules | what they model |
|---|---|
| `ZrpMessages`, `ZrpState`, `ZrpServer` | The file server library of ZRP, `libc/zrpsrv.c`: messages with checked bounds, a tree of counted nodes, fids, and reads answered later |
| `Mcb`, `McbGaps`, `McbServices`, `McbRuns` | DOS memory in `userland/dosrun/dosapi.c`: a chain of headers in guest memory, the services that allocate, free, resize, execute and release, and whole runs of programs over them |
| `MallocHeap`, `Malloc`, `MallocClient` | `libc/malloc.c`: a first-fit heap with an address-ordered free list, as words in memory, and a program that uses it |
| `Audio` | The ring of `zkt/drivers/audio.c`, filled by writers and played by interrupts at any moment |
| `Chkdsk`, `ChkdskWalk`, `ChkdskReport`, `ChkdskMeaning`, `ChkdskHidden` | CHKDSK of `userland/dos/fat.c` on any FAT, cyclic ones too, and what a clean bill means |
| `Wildcard` | The two wildcard matchers, `userland/dos/drives.c` and `userland/dosrun/dosapi.c` |
| `Rotation`, `Shift`, `Alu`, `Divide` | Shifts, flags, conditions and division of the CPU in `userland/dosrun/cpu.c`, and 64-bit division in `libc/divdi3.c` |
| `MzLoader` | The .EXE and .COM loader, `userland/dosrun/loader.c` |
| `StrTo`, `Format`, `Numerals` | Reading and printing integers, `libc/stdlib.c` and `libc/format.c`, against each other |
| `FixedPoint`, `FixedText`, `Calc` | The calculator, `desktop/apps/calc.c` |
| `Tiling`, `Desktop` | Workspaces, layouts and focus of `desktop/manide/tile.c` |
| `Civil` | Days to dates, `desktop/apps/clock.c` |
| `Crc`, `CrcRemainder`, `CrcBursts`, `BootArea` | The boot area: `tools/mkbootarea.py` against `boot/stage2.c` and `boot/bootarea.h` |
| `Arithmetic` | Facts about products, quotients and powers of two that several of them use |

What the source updates in place is a class whose fields the methods change; what it only computes is a function. Whatever
comes from outside is a parameter: what a file server's program does in a callback, when interrupts come and whether the
card hangs, whether the system grants memory, what a disk holds, whether `calloc` fails. So each theorem holds for all of it.

## Where the code and its promises differ

These are kept as the code has them, with the exact condition under which the promise holds.

- A program that resizes its own block to nothing has the end of its memory written into the next header, since the PSP it
  is written to is then no longer its own (`userland/dosrun/dosapi.c` line 1168). `FirstProgramAtNothing` shows it, and
  `EndAtNothing` says exactly when memory still stands for the blocks there should be. `McbRuns.Run` makes every call but
  one after which it does not.
- `dos_match` takes a star in a name for itself before it takes a star in the pattern for a wildcard, so `*` does not match
  the name `*A` (`WhereTheyDiffer`). It is right about a name, whatever the pattern, exactly when the name has no star
  (`GreedyExactly`). A pattern that ends in a point means names without an extension to one matcher and not to the other
  (`DifferOnNoExtension`).
- CHKDSK lets a chain stop at the entry 1, which is no end mark (`LooseEndPasses`). All chains of a volume it passes stop at
  an end mark exactly when no entry of the FAT is 1 (`AllEndMarks`); a 0 after a cluster is reported, and passes only as
  the first number of an empty chain (`EmptyChain`).
- CHKDSK counts the clusters a size needs in 32 bits, which is right exactly when the sum fits (`NeedExact`): a file of
  2^32 - 1 bytes needs none (`NeedWraps`).
- CHKDSK looks sixteen directories deep. A volume with nothing wrong passes exactly when nothing lies deeper (`DepthLimit`);
  `NestedFails` is one that does not.
- `free` and `realloc` go by the magic before a pointer, and `Forged` is a pointer to no live block that has it. In every run
  of a program that does not itself write the magic where a header could have it, on memory the system gives without it
  there, they abort on exactly the pointers into the heap that the program does not hold (`FoundOut`).
- The zero word at the top of a .COM's stack falls on the last bytes of a file longer than 0xFEFE bytes: the file is all
  there exactly when those are zero (`ComIntact`, and `ComLoses` for one that is not).
- A command line with characters of more than one byte makes a boot area longer than its header says, by as many bytes as it
  has more than characters (`tools/mkbootarea.py` line 70; `Pack`). The loader reads what the header says
  (`boot/stage2_entry.S` lines 622-623), so all after the header comes that much late. Its checksum must then be that of
  the right bytes, and with as much padding after stage 2 the kernel is not found at all (`LateRefused`). `AccentedLine`
  has a kernel that boots with the command line `e` and not with an accent on it.
- `docs/zrp.md` line 132 has requests before the first Tversion answered with EPROTO. `libc/zrpsrv.c` answers the first
  request so exactly when it is malformed (`FirstRequest`), and serves a Tattach (`AttachFirst`). In a whole run it has no
  notion of a session: before the first Tversion as after it, a request is refused with EPROTO exactly when it is badly
  formed for its type in the state it meets (`EprotoWhen`), and but for reads and writes, which the program may answer so
  too, gets EPROTO exactly then (`EprotoInRun`).
- A window sent into an empty workspace in view does not get the focus (`desktop/manide/tile.c` lines 214-232): `Stray`. But
  for that, the focus is null exactly when nothing is in view (`Desktop.Run`).

## Model

| member | source | states |
|---|---|---|
| `ZrpMessages.BytesRoundTrip` | libc/zrpsrv.c:37-66 | A number written in n little-endian bytes reads back as itself modulo 256^n, for every number and width |
| `ZrpMessages.FrameReadsBack` | libc/zrpsrv.c:90-109 | A reply is itself well framed, and whoever receives it reads back its type, tag and body |
| `ZrpMessages.Msg.Take` | libc/zrpsrv.c:26-35 | The position moves past n bytes exactly when they fit; otherwise the message is bad and stays bad, and nothing outside the buffer is touched |
| `ZrpMessages.Msg.Get` | libc/zrpsrv.c:37-45 | The little-endian number at the position, or 0 and a bad message when it does not fit |
| `ZrpMessages.Msg.GetStr` | libc/zrpsrv.c:47-58 | The counted string at the position if it fits in the message and in the caller's buffer; the empty string and a bad message otherwise |
| `ZrpMessages.Msg.Put` | libc/zrpsrv.c:60-66 | The contents grow by the number's bytes, or the message becomes bad and its contents stay |
| `ZrpMessages.Msg.PutStr` | libc/zrpsrv.c:68-76 | The contents grow by the counted string, or the message becomes bad |
| `ZrpMessages.Msg.Start` | libc/zrpsrv.c:90-98 | A reply begins with its type and tag and room for its size |
| `ZrpMessages.Msg.Finish` | libc/zrpsrv.c:100-109 | What is sent is the frame of the reply's type, tag and body, with its own size in front |
| `ZrpState.AnsweredExactlyOnce` | libc/zrpsrv.c:259-291 | When no read is waiting and none is being served, every request has been answered once and only once |
| `ZrpState.CutIsSubtree` | libc/zrpsrv.c:171-196 | What a removal takes out is the node and everything below it, and nothing else |
| `ZrpState.KeepIsWhatStays` | libc/zrpsrv.c:224-246 | The waiting reads that stay are those on fids that are not going, in their order |
| `ZrpState.KeepTwice` | libc/zrpsrv.c:171-196 | Dropping the reads of two sets of fids one after the other is dropping those of both |
| `ZrpState.TreeAdd` | libc/zrpsrv.c:145-162 | A new node last in a directory keeps the parent and child links a tree |
| `ZrpState.TreeUnlink` | libc/zrpsrv.c:171-196 | Taking a childless node out keeps the links a tree |
| `ZrpState.TreeFree` | libc/zrpsrv.c:487-495 | Freeing an unlinked node keeps the links a tree |
| `ZrpState.NodesAdd` | libc/zrpsrv.c:145-162 | Reference counts, tree and freed list stay right when a node is added |
| `ZrpState.NodesUnlink` | libc/zrpsrv.c:171-196 | They stay right when a node leaves the tree: it is freed then if no fid holds it, and later otherwise |
| `ZrpState.NodesNewFid` | libc/zrpsrv.c:207-222 | They stay right when a fid comes to hold a node |
| `ZrpState.NodesDropFid` | libc/zrpsrv.c:224-246 | Dropping a fid leaves exactly its node with one reference too many |
| `ZrpState.NodesPut` | libc/zrpsrv.c:164-169 | Putting that reference makes the counts right again, and frees the node exactly when it was removed and this was the last |
| `ZrpState.PruneStep` | libc/zrpsrv.c:171-196 | Removing a node's children one after another keeps what has gone and what is left of its subtree apart |
| `ZrpState.FreeingStep` | libc/zrpsrv.c:487-495 | Freeing a directory's children one after another keeps what has been freed and what is left apart |
| `ZrpState.AllFreed` | libc/zrpsrv.c:497-506 | After the tree and its root are freed, every node ever made has been freed |
| `ZrpState.BookAnswerDeferred` | libc/zrpsrv.c:259-291 | Answering a waiting read keeps replies and requests matched |
| `ZrpState.BookDefer` | libc/zrpsrv.c:326-330 | Setting a read aside keeps them matched |
| `ZrpServer.Lookup` | libc/zrpsrv.c:414-418 | The first entry of that name, or none |
| `ZrpServer.ListingIs` | libc/zrpsrv.c:302-316 | A directory's listing is whole stat records from the front, and as many as fit: one more would be too long |
| `ZrpServer.Server.constructor` | libc/zrpsrv.c:121-143 | A new server is consistent: a root, no fids, no waiting reads |
| `ZrpServer.Server.FinishReply` | libc/zrpsrv.c:100-109 | A reply that fits is sent and counted as the answer to its request |
| `ZrpServer.Server.SendError` | libc/zrpsrv.c:111-117 | The error reply is sent with the request's tag |
| `ZrpServer.Server.PutStat` | libc/zrpsrv.c:78-83 | A stat record of the node is appended whole |
| `ZrpServer.Server.FailDeferred` | libc/zrpsrv.c:224-246 | Every read waiting on the fids gets one EIO, in order, and the others stay waiting |
| `ZrpServer.Server.AnswerRead` | libc/zrpsrv.c:259-279 | The read's own tag and as much of the data as it asked for are sent, and it no longer waits |
| `ZrpServer.Server.AnswerReadError` | libc/zrpsrv.c:281-291 | The read gets the error under its own tag and no longer waits |
| `ZrpServer.Server.AddNode` | libc/zrpsrv.c:145-162 | A new empty node, its name cut to fit, is the directory's last entry |
| `ZrpServer.Server.RemoveNode` | libc/zrpsrv.c:171-196 | Exactly the subtree leaves the tree, its waiting reads each get one EIO, and no others do |
| `ZrpServer.Server.Do` | libc/zrpsrv.c:145-196 | Each call does to the tree and the waiting reads what its name says, and no more; the server stays consistent, and waiting reads are only ever answered, never made |
| `ZrpServer.Server.FindFid` | libc/zrpsrv.c:198-205 | The fid of that number, or none |
| `ZrpServer.Server.NewFid` | libc/zrpsrv.c:207-222 | EINVAL if the number is in use, ENOMEM without memory, else one more fid and one more reference |
| `ZrpServer.Server.NodePut` | libc/zrpsrv.c:164-169 | A reference less; a removed node that nothing holds is freed |
| `ZrpServer.Server.Clunk` | libc/zrpsrv.c:224-246 | The fid goes, every read waiting on it has been answered, and reference counts, tree and freed list stay right |
| `ZrpServer.Server.Version` | libc/zrpsrv.c:355-370 | EPROTO unless the message is whole, says ZRP2 and offers enough room; else every fid is gone and the size is the smaller of the two |
| `ZrpServer.Server.Attach` | libc/zrpsrv.c:371-388 | Each error in its order; else a fid on the root and its stat |
| `ZrpServer.Server.Walk` | libc/zrpsrv.c:397-428 | Without an error, the first entry of that name, or the node itself for the empty name; EINVAL, ENOENT and ENOTDIR each exactly on its own condition; no fid is made unless there is no error |
| `ZrpServer.WalkMeans` | libc/zrpsrv.c:397-428 | What a walk from a node leads to, for every name: each outcome if and only if its condition, told without the walk itself |
| `ZrpServer.Server.ReadDir` | libc/zrpsrv.c:302-316 | The entries from the offset on, in whole records that fit |
| `ZrpServer.Server.ReadFile` | libc/zrpsrv.c:316-343 | The program's data cut to the count, its error, or a read that waits |
| `ZrpServer.Server.Read` | libc/zrpsrv.c:293-343 | EPROTO, with nothing changed, when the message is short; otherwise exactly the directory's records, the program's data cut to the count, its error, or a read that waits |
| `ZrpServer.Server.Write` | libc/zrpsrv.c:431-451 | Each error in its order, and otherwise what the program took |
| `ZrpServer.Server.ClunkRequest` | libc/zrpsrv.c:452-456 | The fid goes and the request is answered |
| `ZrpServer.Server.Perform` | libc/zrpsrv.c:351-465 | A request that Refusal refuses gets exactly that error, with nothing changed; any other succeeds, or gets the error its callback gave; an attach, a walk and a stat that succeed tell of the right node |
| `ZrpServer.Server.PerformOn` | libc/zrpsrv.c:390-464 | The same of the requests on a fid, by its node |
| `ZrpServer.Server.Handle` | libc/zrpsrv.c:467-485 | A well-framed message is one request more, answered or waiting; a refused one is answered with its error and changes nothing; a badly framed one is dropped and changes nothing |
| `ZrpServer.Server.Serve` | libc/zrpsrv.c:480-484 | A request is booked, performed, and answered with the error if that fails |
| `ZrpServer.NoFids` | libc/zrpsrv.c:371-396 | With no fid a request other than Tversion is refused with EPROTO if it is malformed and else with EBADF, unless it is an attach |
| `ZrpServer.ErrorsDiffer` | libc/zrpsrv.c:111-117 | Whoever receives them can tell two errors apart, and an error from any other reply |
| `ZrpServer.EprotoExactly` | docs/zrp.md:131-132 | The first request, when it is no Tversion, is to be answered with EPROTO exactly when it is malformed |
| `ZrpServer.FirstRequest` | docs/zrp.md:131-132 | A new server answers its first request so, for every request |
| `ZrpServer.AttachFirst` | docs/zrp.md:131-132 | A Tattach that comes before any Tversion is answered with Rattach, byte for byte |
| `ZrpServer.WellMade` | docs/zrp.md:106-125 | A request whose body has the fields of its type, laid out as the protocol has them, is never badly formed |
| `ZrpServer.AskedReads` | docs/zrp.md:106-125 | And the server reads from it its type, its tag and the numbers that were put in |
| `ZrpServer.StatReads` | libc/zrpsrv.c:78-83 | A stat record reads back its type, length and name, in that order, and is as long as they are |
| `ZrpServer.EprotoWhen` | libc/zrpsrv.c:351-465 | A request is refused with EPROTO exactly when it is badly formed for its type in the server's state, whether a Tversion has come or not |
| `ZrpServer.ErrorsWhen` | docs/zrp.md:153-163 | Each other error number is given exactly when it should be: 9 for an unknown fid, 2 for no such name, 22 for a bad name or a fid in use, 30 and 21 for what can't be written, 5 for a node that is gone |
| `ZrpServer.EprotoInRun` | docs/zrp.md:131-132 | In every run, a request other than a read or a write gets EPROTO exactly then |
| `ZrpServer.Server.FreeTree` | libc/zrpsrv.c:487-495 | Everything below the node is freed, each once |
| `ZrpServer.Server.Free` | libc/zrpsrv.c:497-506 | No fid and no waiting read is left, and every node ever made has been freed exactly once |
| `ZrpServer.Session` | libc/zrpsrv.c:121-506 | For every program and every sequence of events, each well-framed request gets exactly one reply with its tag, never before the request has come; one that is refused gets its error at once, and one that is not, and not for the program, a reply of its type; nothing else is sent, and each node is freed exactly once |
| `ZrpServer.FailRepliesAreEio` | libc/zrpsrv.c:224-246 | The replies to reads whose fid goes are EIO, one for each |
| `Mcb.MergeRepresents` | userland/dosrun/dosapi.c:1120-1128 | Joining two neighbours' headers in memory is joining the blocks: the chain stays contiguous and ends in its one Z |
| `Mcb.CutRepresents` | userland/dosrun/dosapi.c:1130-1141 | Writing a new header inside a block cuts it in two and keeps the chain |
| `Mcb.GivenRepresents` | userland/dosrun/dosapi.c:1143-1177 | Changing an owner in memory changes that block's owner only |
| `Mcb.MaxRunJoined` | userland/dosrun/dosapi.c:1120-1128 | Joining free neighbours does not change the largest run of free memory |
| `Mcb.JoinedParts` | userland/dosrun/dosapi.c:1120-1128 | Joining takes in exactly the free blocks that follow, one paragraph a header |
| `Mcb.TrimmedParts` | userland/dosrun/dosapi.c:1130-1141 | Splitting leaves the wanted size and one free block with the rest, joined to what follows |
| `Mcb.WalkIsSafe` | userland/dosrun/dosapi.c:1146-1173 | On a well-formed chain every header the walk reads is valid, and it ends at the Z |
| `McbGaps.GapsApart` | userland/dosrun/dosapi.c:1120-1128 | Two stretches of free memory, each as long as it can be, are the same or apart |
| `McbGaps.GapHere` | userland/dosrun/dosapi.c:1120-1128 | A joined free block with none free next to it is all of a gap between owned blocks |
| `McbGaps.GapIsBlock` | userland/dosrun/dosapi.c:1143-1177 | Where the walk has joined free blocks, every gap is one of them |
| `McbGaps.GapAfter` | userland/dosrun/dosapi.c:1130-1141 | Taking a block from the front of a gap leaves the rest of it a gap and the other gaps as they were |
| `McbGaps.RoomForBoth` | userland/dosrun/dosapi.c:1265-1275 | One gap with room for two blocks and a header between them is enough for both, wherever the first then goes |
| `McbGaps.RunReaches` | userland/dosrun/dosapi.c:1120-1128 | A block with the free ones after it reaches to the next owned block, and no further |
| `McbServices.Dos.Join` | userland/dosrun/dosapi.c:1120-1128 | The chain stays well formed, the block takes in the free ones after it, and no byte outside its header changes |
| `McbServices.Dos.Split` | userland/dosrun/dosapi.c:1130-1141 | The block is cut to the wanted size and the rest is free; only headers change |
| `McbServices.Dos.Allocate` | userland/dosrun/dosapi.c:1143-1177 | It fails exactly when nothing is asked for or no gap between owned blocks is large enough, and then reports the largest; else the caller owns one new block of that size at the start of the lowest gap that has it, and all other blocks are as they were |
| `McbServices.Dos.Search` | userland/dosrun/dosapi.c:1146-1173 | The walk stops at the lowest free block that is large enough once joined, or has seen every gap |
| `McbServices.Dos.FreeBlock` | userland/dosrun/dosapi.c:1157-1161 | It fails exactly when ES is no block in use; else that block, and only that, is free |
| `McbServices.Dos.Resize` | userland/dosrun/dosapi.c:1162-1170 | It fails exactly when the block and the free memory after it are too small, and reports that size; all other blocks keep their owner and size. Memory stands for the new list of blocks, but when a program's own block is made nothing, and then exactly when SafeAtNothing holds |
| `McbServices.Dos.ExecAlloc` | userland/dosrun/dosapi.c:1181-1200 | Nothing exactly when no gap has the least size; else a block at the start of the lowest gap that has it, with as much of it as the most |
| `McbServices.Dos.Release` | userland/dosrun/dosapi.c:1202-1219 | Exactly the owner's blocks are freed, and no two free blocks are left next to each other |
| `McbServices.Dos.Exec` | userland/dosrun/dosapi.c:1265-1306 | It succeeds exactly when the program loads, some gap has room for the environment and, with that at the start of the lowest such gap, some gap has the least size for the program: one gap with room for both is enough. The child then has the environment there and the program at the start of the lowest gap left for it, with as much as it asks for at most. A failed EXEC leaves everyone's blocks as they were; and either way only headers and free memory change |
| `McbServices.Dos.GuestWrite` | userland/dosrun/dosapi.c:1112-1118 | A program's writes outside the headers leave the chain as it is |
| `McbRuns.Run` | userland/dosrun/dosapi.c:1143-1306 | Over every sequence of these services, of programs started and ended and of writes to memory, memory always stands for a partition into blocks, each event changes only the blocks it names, and the data of every block that stays is as it was. The one call that is not made is a resize to nothing after which, by EndAtNothing, memory would not stand for the blocks there should be |
| `McbRuns.StaysOwned` | userland/dosrun/dosapi.c:1143-1306 | In every run, a block stays its owner's until an event frees or resizes it or its owner ends |
| `McbRuns.DataLives` | userland/dosrun/dosapi.c:1143-1306 | And every byte a program has in it stays what it was until that byte is written |
| `McbRuns.MayGiveAll` | userland/dosrun/dosapi.c:1162-1170 | Whether the running program may resize its own block to nothing, told from the headers |
| `McbServices.PspEndKeepsChain` | userland/dosrun/dosapi.c:1168-1168 | Writing the end of memory into a PSP leaves memory standing for a list of blocks if and only if the bytes it lands on, if they are a header's, are what they were |
| `McbServices.EndAtNothing` | userland/dosrun/dosapi.c:1168-1168 | After a program's own block is made nothing and its end is written, memory still stands for the list of blocks there should be exactly when SafeAtNothing holds of the blocks before |
| `McbServices.OtherOwner` | userland/dosrun/dosapi.c:1168-1168 | Where only the high byte of an owner changes, memory stands for the same blocks with that other owner |
| `McbServices.FirstProgramAtNothing` | userland/dosrun/dosapi.c:1168-1168 | The first program, making its block nothing, leaves a chain whose next header is not valid |
| `McbServices.RetainedDataIntact` | userland/dosrun/dosapi.c:1120-1177 | Memory inside a block before and after a service, at a place it keeps, has not changed |
| `Audio.Device.FragmentDone` | zkt/drivers/audio.c:38-52 | What the interrupt plays is the fragment the card was on, which is then silent |
| `Audio.Device.WaitCard` | zkt/drivers/audio.c:54-57 | The card has moved on if the wait succeeds |
| `Audio.Device.Carry` | zkt/drivers/audio.c:84-90 | A partial fragment the card has caught up with is carried to where the card is going |
| `Audio.Device.FinishFragment` | zkt/drivers/audio.c:96-106 | A whole fragment counts, and the first starts the card |
| `Audio.Device.Stop` | zkt/drivers/audio.c:59-65 | The card stops and the stream is over |
| `Audio.Device.Write` | zkt/drivers/audio.c:67-110 | Everything is written and joins the stream, or the card hung and what was taken until then did |
| `Audio.Device.Close` | zkt/drivers/audio.c:121-149 | The last close pads the last fragment with silence and, unless the card hangs or the writer had been late, plays everything written before it stops |
| `Audio.Run` | zkt/drivers/audio.c:33-149 | For every sequence of opens, writes and closes and every interleaving of interrupts: what is played is what was written, in order, followed by silence, as long as the writer was never late |
| `Audio.WindowMoves` | zkt/drivers/audio.c:38-52 | The ring stays the window of the stream that starts where the card is |
| `Audio.WindowPut` | zkt/drivers/audio.c:67-110 | A byte put in the ring is that byte of the stream and disturbs no other |
| `Wildcard.MatchesMeans` | userland/dos/drives.c:269-287 | The recursive matcher is right: it accepts a name exactly when the name can be cut so that each star takes a piece, each question mark a character, and each other character the same one or, of a letter, the other case |
| `Wildcard.MatchHere` | userland/dos/drives.c:269-287 | It decides that |
| `Wildcard.WildMatch` | userland/dos/drives.c:289-304 | It decides that, with the rules for *.* and a pattern that ends in a point |
| `Wildcard.CaseBlind` | userland/dos/drives.c:269-287 | Changing the case of any letters of a pattern or a name changes no match |
| `Wildcard.ForgetStar` | userland/dosrun/dosapi.c:1818-1830 | When the matcher reaches a further star it may forget the one before |
| `Wildcard.Misfit` | userland/dosrun/dosapi.c:1818-1830 | On a misfit it may give the last star one more character and nothing else |
| `Wildcard.GreedyIs` | userland/dosrun/dosapi.c:1818-1830 | From wherever it is, the matcher with one place to go back to never accepts wrongly, and decides the match on every name without a star |
| `Wildcard.DosMatch` | userland/dosrun/dosapi.c:1818-1830 | The loop never accepts wrongly, decides the same as the recursive matcher on every name without a star, and on every name is the function Greedy |
| `Wildcard.GreedyExactly` | userland/dosrun/dosapi.c:1818-1830 | It is right about a name, for every pattern, if and only if the name has no star |
| `Wildcard.SameSpec` | userland/dos/drives.c:289-304 | The two matchers' patterns mean the same when the pattern does not end in a point |
| `Wildcard.DifferOnNoExtension` | userland/dos/drives.c:289-304 | With a pattern that ends in a point, exactly which names they disagree on |
| `Wildcard.WhereTheyDiffer` | userland/dosrun/dosapi.c:1818-1830 | Names on which they do |
| `MallocHeap.FreedTiles` | libc/malloc.c:27-48 | Freeing a block, joined with the free ones it touches, keeps the blocks end to end and no two free ones together |
| `MallocHeap.TakenTiles` | libc/malloc.c:81-96 | Taking a block, split or whole, keeps the blocks end to end and no two free ones together |
| `MallocHeap.FreedAlone` | libc/malloc.c:35-47 | The headers and links written in freeing a block whose neighbour before it is used stand for the freed blocks |
| `MallocHeap.FreedIntoPrev` | libc/malloc.c:35-47 | So do those written when the free block before it takes it in |
| `MallocHeap.TakenHeaders` | libc/malloc.c:81-96 | The headers and links written in taking a block stand for the taken blocks |
| `Malloc.LiveDisjoint` | libc/malloc.c:65-104 | Two live blocks share no byte |
| `Malloc.HeadersOnly` | libc/malloc.c:27-104 | Writing headers, and inside free blocks, leaves what is in every live block |
| `Malloc.Heap.constructor` | libc/malloc.c:24-24 | The heap starts empty and well formed |
| `Malloc.Heap.InsertFree` | libc/malloc.c:27-48 | The block and the free ones it touches become one, the free list stays in address order, and nothing but headers is written |
| `Malloc.Heap.Find` | libc/malloc.c:77-80 | The first free block that is large enough, and the free block before it |
| `Malloc.Heap.Take` | libc/malloc.c:81-96 | That block is used, what is left of it is free if it is worth having, and live blocks keep their contents |
| `Malloc.Heap.Grow` | libc/malloc.c:50-63 | It fails exactly when too much is asked for or the system refuses; else the new memory is free and joined to what it touches |
| `Malloc.Heap.Malloc` | libc/malloc.c:65-104 | Null exactly when the size is too large, or nothing fits and the heap cannot grow, and then nothing has changed; else one new live block, the first fit, with room for the request, and every other live block keeps its contents |
| `Malloc.Heap.Header` | libc/malloc.c:106-113 | The program is aborted exactly when the pointer is not aligned or the word before it is not the magic; never for a live block |
| `Malloc.Heap.HeaderExactly` | libc/malloc.c:106-113 | That tells the live blocks from all else if and only if CanTell holds of the pointer |
| `Malloc.Heap.GenuineTells` | libc/malloc.c:106-113 | With the magic before live blocks and nowhere else that a header could have it, every pointer to no live block is told from the others |
| `Malloc.Heap.Forged` | libc/malloc.c:106-113 | A pointer to no live block that passes, since the program has written the magic before it |
| `Malloc.Heap.Free` | libc/malloc.c:115-120 | Exactly that block is no longer live, the others keep their contents, and freeing it again is found out |
| `Malloc.Heap.Realloc` | libc/malloc.c:135-154 | A block that is large enough stays, a failure changes nothing, and otherwise a larger block holds the old one's contents and the old one is free |
| `Malloc.Heap.Copy` | libc/malloc.c:150-150 | The words arrive, and nothing else changes |
| `MallocClient.Session` | libc/malloc.c:65-154 | A program's buffers are, through every sequence of allocations, writes, frees and reallocations, what independent buffers would be; and while the system grants memory every request that could be met is |
| `MallocClient.Run` | libc/malloc.c:65-154 | The live blocks are at every point those the program holds, with what it last wrote |
| `MallocClient.FoundOut` | libc/malloc.c:106-120 | After every run of a program that does not write the magic where a header could have it, on memory the system gives without it there, the pointers into the heap that are accepted are exactly those of the buffers it holds: one given back, or never had, is found out at any later time |
| `Chkdsk.EntriesPacked` | userland/dos/fat.c:43-50 | Two 12-bit entries are three bytes, the first in the low bits; a 16-bit entry is two bytes |
| `Chkdsk.ClusterIsPlain` | userland/dos/fat.c:52-60 | No cluster number is an end mark, free or bad |
| `Chkdsk.LastNumbers` | userland/dos/fat.c:52-60 | The last eight numbers an entry can be are end marks, and the one before them is for a bad cluster |
| `ChkdskWalk.FollowedIsChain` | userland/dos/fat.c:205-228 | A chain is followed with nothing to report exactly when it is the FAT's own chain, ends, and has no cluster claimed before or twice |
| `ChkdskWalk.Checker.Follow` | userland/dos/fat.c:205-228 | It ends on every FAT, claims each cluster of the chain once and none that was claimed, and reports exactly why it stopped |
| `ChkdskWalk.Checker.CheckFile` | userland/dos/fat.c:269-280 | A file is counted with its clusters, and reported unless its chain is right and as long as its size needs |
| `ChkdskWalk.Checker.CheckDir` | userland/dos/fat.c:239-267 | A directory and everything in it, down to the depth limit, is reported unless it is all right |
| `ChkdskWalk.Checker.WalkDir` | userland/dos/fat.c:249-266 | Along the chain, a cluster at a time, up to the end marker |
| `ChkdskWalk.Checker.Walk` | userland/dos/fat.c:283-297 | Nothing is reported exactly when all the entries list is right, and then what is claimed is exactly that; what they list is told in ChkdskHidden |
| `ChkdskReport.Accounts` | userland/dos/fat.c:144-148 | Free, bad, claimed and lost clusters add up to all of them, plus those a chain runs on from into a free or bad one |
| `ChkdskReport.CountFat` | userland/dos/fat.c:144-148 | The counts of free and bad clusters |
| `ChkdskReport.FindLost` | userland/dos/fat.c:334-340 | The clusters the FAT says are used and nothing has are counted and marked |
| `ChkdskReport.PointLost` | userland/dos/fat.c:341-347 | Those of them that a lost cluster leads to are marked, and no others |
| `ChkdskReport.CountHeads` | userland/dos/fat.c:348-350 | The lost chains counted are the lost clusters that none leads to |
| `ChkdskReport.FatCheck` | userland/dos/fat.c:299-396 | No problem is found if and only if the volume is consistent; and on every volume the clusters add up |
| `ChkdskMeaning.CleanVolume` | userland/dos/fat.c:205-355 | With no problem found, chains never come back to a cluster, share none, are as long as the sizes say and cover every used cluster |
| `ChkdskMeaning.NeedExact` | userland/dos/fat.c:275-275 | The clusters a size needs are counted right exactly when the sum before the division fits in 32 bits |
| `ChkdskMeaning.NeedWraps` | userland/dos/fat.c:275-275 | A file of 2^32 - 1 bytes is said to need no cluster |
| `ChkdskMeaning.LeastClusters` | userland/dos/fat.c:275-275 | Rounded up, the quotient is the least number of clusters that hold the file |
| `ChkdskMeaning.EndMark` | userland/dos/fat.c:208-228 | On a clean volume a chain stops at an end mark exactly when its last cluster's entry is not 1; an empty chain's first number is 0, 1 or an end mark |
| `ChkdskMeaning.EmptyChain` | userland/dos/fat.c:208-228 | An entry whose first number is no cluster is right exactly when that number is 0, 1 or an end mark and it needs no cluster |
| `ChkdskMeaning.AllEndMarks` | userland/dos/fat.c:208-228 | All of a clean volume's chains stop at an end mark if and only if no entry of its FAT is 1 |
| `ChkdskMeaning.LooseEndPasses` | userland/dos/fat.c:208-208 | A chain that stops at 1, which is no end mark, passes |
| `ChkdskMeaning.Deeper` | userland/dos/fat.c:246-248 | Looking deeper lists all that was listed, each cluster at least as often |
| `ChkdskMeaning.DeepIsLost` | userland/dos/fat.c:246-340 | In a tree that is right however deep it is read, a cluster that lies deeper than CHKDSK goes is lost to it, and no other |
| `ChkdskMeaning.DepthLimit` | userland/dos/fat.c:246-248 | A volume with nothing wrong passes if and only if no cluster lies deeper than sixteen directories |
| `ChkdskMeaning.NestedFails` | userland/dos/fat.c:246-248 | Eighteen directories, each in the one before, are right and do not pass |
| `ChkdskMeaning.NestedExists` | userland/dos/fat.c:43-50 | There is such a volume, byte for byte |
| `ChkdskHidden.ShownIsListed` | userland/dos/fat.c:283-297 | Every entry before the end marker is listed whose name does not start with 0x2E or 0xE5, whose attribute is not 0x0F and has no volume bit |
| `ChkdskHidden.ListedIsShown` | userland/dos/fat.c:283-297 | And no other is: not looking into directories, those are all, in order, each with its chain, its directory bit and its size |
| `ChkdskHidden.InsertHidden` | userland/dos/fat.c:288-293 | Any other entry, put in anywhere, leaves what a directory shows |
| `ChkdskHidden.HiddenChangesNothing` | userland/dos/fat.c:288-293 | Put into the root and into the clusters of all other directories, such entries leave what is listed, and so CHKDSK's verdict, as it was |
| `ChkdskHidden.LinksPass` | userland/dos/fat.c:288-293 | A volume whose directory links to itself and to its parent passes |
| `Civil.CivilSteps` | desktop/apps/clock.c:32-43 | Day 0 is 1970-01-01, every day has a date that exists, and the day after it has the next date of the Gregorian calendar |
| `Civil.CivilIsCalendar` | desktop/apps/clock.c:32-43 | Day n has the date n days after 1970-01-01, counted one by one |
| `Civil.CivilInjective` | desktop/apps/clock.c:32-43 | No two days have the same date |
| `Civil.CivilOnto` | desktop/apps/clock.c:32-43 | Every date from 1970 on is some day's |
| `Divide.QuotientAndRemainder` | libc/divdi3.c:68-85 | Truncating division: the remainder is smaller than the divisor and has the dividend's sign |
| `Divide.Registers.Divide32` | userland/dosrun/cpu.c:735-755 | A divide error exactly when the divisor is 0 or the truncated quotient does not fit in 32 bits, with the registers as they were; else AX and DX hold exactly the quotient and the remainder, signed or unsigned |
| `Divide.ShiftSubtract` | userland/dosrun/cpu.c:742-748 | The restoring loop gives a quotient and remainder with n = q * d + r and r < d |
| `Divide.DivFits` | libc/divdi3.c:17-24 | A DIV whose high half is below the divisor does not overflow |
| `Divide.UDivMod` | libc/divdi3.c:14-54 | It faults only for a divisor of 0, and else gives the exact quotient and remainder on both paths |
| `Divide.LongDivide` | libc/divdi3.c:31-53 | Shifts and subtractions, for a divisor of more than 32 bits, give the exact quotient and remainder |
| `Divide.DivSigned` | libc/divdi3.c:70-76 | The truncated quotient, but for the one that 64 bits cannot hold, which wraps around to the dividend |
| `Divide.ModSigned` | libc/divdi3.c:78-85 | The remainder, with the dividend's sign |
| `Rotation.RotateUndone` | userland/dosrun/cpu.c:271-301 | A rotation and the one back give the number |
| `Shift.TurnIs` | userland/dosrun/cpu.c:279-290 | Each turn of the loop takes the closed form of n bits to that of n + 1, for all eight operations |
| `Shift.Cpu.Turns` | userland/dosrun/cpu.c:279-290 | n turns are the closed form of n bits, value and carry |
| `Shift.Cpu.Shift` | userland/dosrun/cpu.c:271-301 | Value and carry are the closed form of the count; the other flags change as the operation says, and the overflow flag, for a count of one, is a change of sign |
| `Shift.Cpu.DoubleShift` | userland/dosrun/cpu.c:305-326 | Value and carry are those of the double-width number shifted; flags likewise |
| `Shift.RotateThroughCarryUndone` | userland/dosrun/cpu.c:283-284 | RCL and RCR by as much undo each other, the carry too |
| `Shift.RotateValueUndone` | userland/dosrun/cpu.c:281-282 | ROL and ROR by as much undo each other's value |
| `Shift.ShiftsScale` | userland/dosrun/cpu.c:285-288 | SHL is multiplication, and SAR division rounded toward minus infinity, by a power of two |
| `Shift.DoubleSlices` | userland/dosrun/cpu.c:305-326 | Up to the width, SHLD and SHRD join the low or high bits of the value with the other end of the source |
| `Alu.Compute` | userland/dosrun/cpu.c:229-265 | Result and carry are the exact sum or difference; overflow is that the signed one does not fit, and the auxiliary flag a carry out of four bits; OR, AND and XOR are that of the bits at every place, and clear all three; the conditions O, E, S and P and their opposites tell of overflow, a zero result, its top bit, and whether its low byte has an even number of ones |
| `Alu.BitwiseBits` | userland/dosrun/cpu.c:255-262 | Every bit of the result of OR, AND and XOR is made of the two bits at its place |
| `Alu.OnesCounted` | userland/dosrun/cpu.c:61-67 | Ones counted two by two are the places that have a one |
| `Alu.SignedRange` | userland/dosrun/cpu.c:69-82 | A signed value is the one of its range that is the same modulo the width |
| `Alu.Compare` | userland/dosrun/cpu.c:425-450 | After a comparison the ten order conditions tell exactly the unsigned and signed order |
| `Alu.AddWords` | userland/dosrun/cpu.c:678-701 | ADD then ADC over any number of words is the sum of the whole numbers, with its carry |
| `Alu.SubtractWords` | userland/dosrun/cpu.c:678-701 | SUB then SBB is the difference, and then B and L decide the unsigned and the signed order of the whole numbers |
| `Alu.SignedOrder` | userland/dosrun/cpu.c:425-450 | The order of signed numbers of many words is that of their top words and the borrow from below |
| `MzLoader.ImageInside` | userland/dosrun/loader.c:133-171 | An accepted image and all its relocated words lie in the program's memory, past the PSP, loaded low or high |
| `MzLoader.LoadProgramAt` | userland/dosrun/loader.c:73-231 | A file is loaded exactly when it is well formed and fits; short of memory is told from malformed; a refusal writes nothing, and an .EXE's image is put at its segment relocated, with nothing else changed |
| `MzLoader.CheckSites` | userland/dosrun/loader.c:160-171 | Whether every relocated word is inside the image |
| `MzLoader.Relocate` | userland/dosrun/loader.c:177-181 | The image in memory is relocated, and nothing else changes |
| `MzLoader.RelocatedWord` | userland/dosrun/loader.c:177-181 | With no two relocated words overlapping, each is the file's with the segment added |
| `MzLoader.RelocatedElsewhere` | userland/dosrun/loader.c:177-181 | Every other byte is the file's |
| `MzLoader.TwoLoads` | userland/dosrun/loader.c:177-181 | Loaded at two segments, images differ only in the relocated words, and there by the segments' difference modulo 2^16 |
| `MzLoader.LoadCom` | userland/dosrun/loader.c:188-207 | The file at offset 0x100 and the zero word at the top of the stack, or the error |
| `MzLoader.ComIntact` | userland/dosrun/loader.c:199-206 | A .COM is all there exactly when the bytes that word falls on are zero |
| `MzLoader.ComLoses` | userland/dosrun/loader.c:199-206 | A file of 0xFEFF bytes whose last is not zero loses it |
| `MzLoader.SecondLook` | userland/dosrun/loader.c:233-248 | A file accepted with all the memory there is is accepted with what it then gets |
| `MzLoader.LinkedReads` | userland/dosrun/loader.c:101-119 | The file a linker makes of an image, relocations and start registers, with the usual fields in its header, is well formed, and the loader finds the whole image and every relocated word in it |
| `MzLoader.RefusedKinds` | userland/dosrun/loader.c:120-132 | What archives and DOS extenders are told by, byte for byte |
| `MzLoader.VideoIsAbove` | userland/dosrun/loader.c:133-139 | For a PSP below the video memory, the check is that the image would end below it too |
| `MzLoader.LoadedLowOrHigh` | userland/dosrun/loader.c:143-150 | The image is put right after the PSP, or at the very end of the block when its header asks for no memory |
| `StrTo.Skip` | libc/stdlib.c:82-84 | The first character that is no space |
| `StrTo.Run` | libc/stdlib.c:104-108 | The first character that is no digit to the base |
| `StrTo.Codes` | libc/stdlib.c:53-62 | Which characters are spaces, and which are digits and of what value |
| `StrTo.MulAdd` | libc/stdlib.c:66-75 | v * base + d exactly, unless that does not fit in 64 bits |
| `StrTo.Parse` | libc/stdlib.c:78-113 | Sign, magnitude and end of what is read; overflow exactly when the magnitude is 2^64 or more |
| `StrTo.StrToL` | libc/stdlib.c:115-125 | The exact value, or the nearest there is and a range error exactly when it is out of range; and where reading stops, after the digits or, with none, at the start |
| `StrTo.StrToUL` | libc/stdlib.c:127-136 | The value modulo 2^32, or the largest number exactly when the magnitude is 2^32 or more; and where reading stops, after the digits or, with none, at the start |
| `StrTo.StrToLL` | libc/stdlib.c:138-148 | The exact value, or the nearest there is and a range error exactly when it is out of range; and where reading stops, after the digits or, with none, at the start |
| `StrTo.StrToULL` | libc/stdlib.c:150-159 | The value modulo 2^64, or the largest number exactly when the magnitude is 2^64 or more; and where reading stops, after the digits or, with none, at the start |
| `Format.DivMod64` | libc/format.c:41-56 | The exact quotient and remainder, sixteen bits at a time |
| `Format.Buffer` | libc/format.c:63-68 | The digits, never more than 22 of the buffer's 24 |
| `Format.PrintNumber` | libc/format.c:60-101 | As wide as the width, or as what there is to print; padded on the side the flag says, with zeros before the digits when that is asked for; the sign or prefix that the flags ask for; and digits of the number, as many as the precision at least, with no zero in front that nothing asks for |
| `Format.PrintedStands` | libc/format.c:69-100 | The layout of spaces, prefix, zeros and digits is that |
| `Format.DigitsRead` | libc/format.c:66-68 | The digits of a number read back as it, and start with no zero |
| `Numerals.ReadParts` | libc/stdlib.c:78-113 | What parse makes of spaces, a sign, a prefix, digits and spaces |
| `Numerals.PrintedReads` | libc/format.c:60-101 | What is printed reads back as the number, for all flags, widths and precisions |
| `Numerals.SignedRoundTrip` | libc/format.c:176-182 | %lld then strtoll gives the value, for every 64-bit value |
| `Numerals.IntRoundTrip` | libc/stdlib.c:115-125 | %d then strtol gives the value, for every int |
| `Numerals.UnsignedRoundTrip` | libc/format.c:183-191 | %llu, %llx, %llX and %llo then strtoull, to their base or with # to base 0, give the value |
| `FixedPoint.RoundedNearest` | desktop/apps/calc.c:42-82 | The rounded quotient is no more than half of the divisor away |
| `FixedPoint.Add` | desktop/apps/calc.c:36-40 | The sum, and whether it is within the limit; 64 bits are enough |
| `FixedPoint.Mul` | desktop/apps/calc.c:42-58 | It succeeds exactly when the product, rounded half away from zero, is within the limit, and gives that; nothing overflows 64 bits |
| `FixedPoint.Divide` | desktop/apps/calc.c:60-82 | It succeeds exactly when the quotient, rounded half away from zero, is within the limit, and gives that |
| `FixedPoint.LongDivision` | desktop/apps/calc.c:68-72 | Six decimals, a digit at a time, and the exact rest |
| `FixedText.Parse` | desktop/apps/calc.c:98-113 | The value of the text: its digits, and six decimals at most |
| `FixedText.FormatValue` | desktop/apps/calc.c:84-96 | The text of a number, without trailing zeros |
| `FixedText.TrimReads` | desktop/apps/calc.c:91-93 | Dropping trailing zeros after the point keeps the value |
| `FixedText.FormatReads` | desktop/apps/calc.c:84-113 | parse(format(v)) = v for every number within the limit, and the text is an entry that fits the buffer |
| `Calc.EntryWithin` | desktop/apps/calc.c:98-113 | A number being typed is within the limit |
| `Calc.TypedValue` | desktop/apps/calc.c:164-184 | A typed digit is a digit more of the number |
| `Calc.NegatedEntry` | desktop/apps/calc.c:248-258 | Changing the sign of an entry changes the sign of its value |
| `Calc.Calculator.Apply` | desktop/apps/calc.c:134-162 | The exact outcome of the pending operator, or the error and a cleared calculator |
| `Calc.Calculator.Digit` | desktop/apps/calc.c:164-184 | The entry has the digit if there is room, with no leading zeros |
| `Calc.Calculator.Point` | desktop/apps/calc.c:186-198 | The entry has a point |
| `Calc.Calculator.Operator` | desktop/apps/calc.c:200-217 | The operator before is done if there is a second number, and is replaced otherwise |
| `Calc.Calculator.Equals` | desktop/apps/calc.c:219-231 | The outcome is shown, or the error |
| `Calc.Calculator.Percent` | desktop/apps/calc.c:233-246 | A hundredth of what is shown, or of its product with the first operand, truncated |
| `Calc.Hundredth` | desktop/apps/calc.c:233-246 | The quotient by 100, truncated |
| `Calc.Calculator.Negate` | desktop/apps/calc.c:248-265 | What is shown changes its sign |
| `Calc.Calculator.Backspace` | desktop/apps/calc.c:267-279 | The entry loses its last character, and is 0 when nothing is left |
| `Calc.Calculator.Key` | desktop/apps/calc.c:282-315 | Every key does what its operation does, under each of its spellings; after an error a digit or a point starts a number and any other key only clears it |
| `Calc.Run` | desktop/apps/calc.c:117-326 | Whatever is typed, acc and what is shown stay within the limit and the entry keeps the form -?d{1,11}(.d{0,6})? |
| `Calc.Calculate` | desktop/apps/calc.c:134-315 | Any numbers typed in with operators between them, and =, show the operators done one after another from the left, each rounded, or an error at the first that has no result |
| `Calc.LeftToRight` | desktop/apps/calc.c:5-6 | 2 + 3 * 4 = is 20 |
| `Calc.Doubled` | desktop/apps/calc.c:6-7 | = with no second number typed does the operator with the first on both sides |
| `Calc.WithPercent` | desktop/apps/calc.c:7-8 | % after + or - and a number is that percentage of the first operand, added or taken away |
| `Tiling.ShareFits` | desktop/manide/tile.c:49-54 | The parts follow one another a gap apart from the start to the end, none of negative size |
| `Tiling.ShareEven` | desktop/manide/tile.c:49-54 | All parts are the same size but the last, which has what the division leaves |
| `Tiling.Columns` | desktop/manide/tile.c:99-102 | The least number of columns whose square holds the windows |
| `Tiling.RowsAll` | desktop/manide/tile.c:104-105 | Between them the columns have all the windows, each at least one |
| `Tiling.PanesCover` | desktop/manide/tile.c:74-114 | In every layout the panes, each with the gap to its right and below, cover every point of the area and the gap around it exactly once |
| `Tiling.PanesApart` | desktop/manide/tile.c:74-114 | Panes do not overlap and are inside the area |
| `Tiling.PanesInOrder` | desktop/manide/tile.c:74-114 | From the top left corner to the bottom right, each next pane is right below, or at the top of the next column when the column is full |
| `Tiling.MasterShare` | desktop/manide/tile.c:90-97 | The first window of a tall layout has the whole height and its hundredths of the width, the others the rest |
| `Desktop.PlaceColumn` | desktop/manide/tile.c:93-97 | Windows one above another get their panes |
| `Desktop.PlaceGrid` | desktop/manide/tile.c:99-113 | The windows get the grid's panes |
| `Desktop.Desktop.Retile` | desktop/manide/tile.c:74-117 | The windows shown are those the layout places, at their panes, and nothing else changes |
| `Desktop.Desktop.SetFocus` | desktop/manide/tile.c:119-143 | The focus is that window, its workspace remembers it, and what is shown stays right |
| `Desktop.Desktop.StepFrom` | desktop/manide/tile.c:156-166 | The next window around the order on the same workspace |
| `Desktop.Desktop.FocusStep` | desktop/manide/tile.c:168-173 | The focus goes there |
| `Desktop.Desktop.SwapStep` | desktop/manide/tile.c:175-185 | The focused window and the one StepFrom finds change places, and the order has the same windows |
| `Desktop.Desktop.WorkspaceFocus` | desktop/manide/tile.c:188-200 | The window the workspace last had, or another of its own, or none exactly when it has none |
| `Desktop.Desktop.ShowWorkspace` | desktop/manide/tile.c:202-212 | The workspace comes into view, with the focus on the window it last had, or another of its own |
| `Desktop.Desktop.SendToWorkspace` | desktop/manide/tile.c:214-232 | The window moves; if it had the focus, another in view gets it if there is one; and a view that had no focus is left without when a window comes into it, and in no other case |
| `Desktop.Desktop.NextLayout` | desktop/manide/tile.c:234-240 | Grid, tall and mono in turn |
| `Desktop.Desktop.GrowMaster` | desktop/manide/tile.c:242-250 | The first pane's share changes, between 20 and 80 |
| `Desktop.Desktop.AddWindow` | desktop/manide/tile.c:254-264 | The window is last in the order, and has the focus if it is in view |
| `Desktop.Desktop.RemoveWindow` | desktop/manide/tile.c:266-283 | The window is gone from the order, from the focus and from what is remembered; if it had the focus, another in view has it now, or none exactly when there is none |
| `Desktop.Desktop.WindowAt` | desktop/manide/tile.c:37-45 | The window shown there, which is in view, or none |
| `Desktop.WhoIsShown` | desktop/manide/tile.c:74-117 | All the windows in view are shown, or in a mono layout the focused one alone |
| `Desktop.ShownApart` | desktop/manide/tile.c:74-117 | Every window that is shown is inside the tiling area, a gap from every edge of the screen and below the bar, and no two overlap |
| `Desktop.ShownEverywhere` | desktop/manide/tile.c:74-117 | With a window in view, every point is in one that is shown or in the gap after it |
| `Desktop.Run` | desktop/manide/tile.c:119-283 | Over every sequence of these operations, the focus is none or a live window in view, each workspace remembers none or a live window of its own, and the panes are the layout's; the focus is none exactly when nothing is in view, unless a window was sent into a view without focus |
| `Desktop.Stray` | desktop/manide/wsys.c:289-296 | A window sent to the empty workspace in view is in view without the focus |
| `Crc.BootareaCrc32` | boot/bootarea.h:70-80 | The bit-by-bit loop is the CRC of the bytes, from any CRC before them |
| `Crc.TableIsBitwise` | tools/mkbootarea.py:66-67 | The table-driven CRC, as zlib computes it, is the same |
| `Crc.StepInjective` | boot/bootarea.h:75-77 | One bit's step never makes two states one |
| `CrcRemainder.PolyIsGenerator` | boot/bootarea.h:76-76 | The constant is the generator polynomial of IEEE 802.3, given by its exponents, without its highest |
| `CrcRemainder.StepTimes` | boot/bootarea.h:75-77 | One bit's step is multiplication by x, modulo the generator |
| `CrcRemainder.StateIsRemainder` | boot/bootarea.h:70-80 | From any state, the state after the bytes is congruent to that state shifted past them plus x^32 times the message, modulo the generator |
| `CrcRemainder.CrcIsRemainder` | boot/bootarea.h:70-80 | So the CRC is the complement of a remainder by the generator |
| `CrcRemainder.OnlyRemainder` | boot/bootarea.h:70-80 | And there is only one: polynomials of degree below 32 that are congruent are the same |
| `CrcBursts.BytesAreBits` | boot/bootarea.h:73-78 | The CRC of bytes is that of their bits, the lowest of each byte first |
| `CrcBursts.FeedWord` | boot/bootarea.h:73-78 | Bits that go in one by one may all be added to the state first |
| `CrcBursts.WindowTells` | boot/bootarea.h:70-80 | From one state, up to 32 bits that differ lead to states that differ |
| `CrcBursts.BitBurst` | boot/bootarea.h:70-80 | Any change within 32 bits in a row, anywhere in a message of any length, changes the CRC |
| `CrcBursts.BytesWithin` | boot/bootarea.h:70-80 | Up to four bytes in a row are within 32 bits, in messages however short |
| `BootArea.FieldReads` | tools/mkbootarea.py:66-67 | A number written in the header reads back |
| `BootArea.KernelEnd` | tools/mkbootarea.py:32-44 | Past the end of every segment that loads, and right at the end of one; nothing if none does |
| `BootArea.LoadAddr` | tools/mkbootarea.py:62-63 | The first 64 KiB boundary past the kernel and its frame bitmap |
| `BootArea.Pack` | tools/mkbootarea.py:47-71 | When an area is made; that it is longer than its header says by as many bytes as the command line has more than characters; that when it is not, with a good kernel, stage 2 accepts it; and what of it the loader reads |
| `BootArea.LateRefused` | boot/stage2_entry.S:622-623 | What the loader reads of a longer area is accepted only if its late body has the checksum of the right one, and never with as much padding after stage 2 as it is late |
| `BootArea.AccentedLine` | tools/mkbootarea.py:70-70 | A good kernel is accepted with a command line of one letter, and with a letter of two bytes it is accepted nowhere |
| `BootArea.HeaderReads` | tools/mkbootarea.py:64-69 | The header's fields are what was put in them |
| `BootArea.GoodLoads` | boot/stage2.c:149-182 | A good kernel's segments all end below where the area goes |
| `BootArea.FindMultiboot` | boot/stage2.c:157-161 | Whether the first 8 KiB have a Multiboot header |
| `BootArea.ElfBytes` | boot/stage2.c:149-156 | What file is an ELF executable for the i386, byte for byte |
| `BootArea.LoadKernel` | boot/stage2.c:149-182 | The kernel is loaded exactly when it passes every check; then the entry is the file's, every byte of memory is the file's, or zero, from the last segment that has one there, and all else is as it was; and in any case memory changes only between 1 MiB and the boot area |
| `BootArea.Stage2` | boot/stage2.c:184-200 | The kernel is started exactly when the header, the checksum and the kernel pass, and then at its entry with all its segments in memory |
| `BootArea.DamageFound` | boot/stage2.c:192-195 | Damage to four bytes in a row, or fewer, after the header is always found out |
| `BootArea.BurstFound` | boot/stage2.c:192-195 | And so is any damage within 32 bits in a row |

## Left out

- Malloc.Heap.Malloc: addresses do not wrap around at 2^32, because the kernel never gives a process the top of its address space; memory the system gives adjoins what it gave before, since only malloc asks for it.
- Malloc.Heap.Free: what becomes of the heap when a pointer to no live block passes for one (`Forged`) is not modelled; the pointer is one of which the header can tell.
- Malloc.Heap.Realloc: the same of its pointer; the copy goes a word at a time, because block sizes are multiples of 16; calloc, which only adds a zeroed payload, is not modelled.
- Audio.Run: the fragment counters are unbounded, where the source's wrap around after 2^32 fragments; nothing is promised of a stream whose writer the card has overtaken.
- Audio.Device.Close: a card that hangs ends the wait, and then nothing is promised of what was played.
- ChkdskReport.CountFat: the FAT is taken to have an entry for every cluster, which open_volume does not check; what would be read past the end of a shorter one is not modelled.
- ChkdskReport.FatCheck: the same; directory clusters come from a parameter instead of sector arithmetic, and a failed allocation, the names and the printed text are left out.
- ZrpServer.Session: inside a read callback, whose reply is half made in the one output buffer, the program answers no waiting read and removes no node that has any; its callbacks name only nodes and reads there are.
- Wildcard.WildMatch: names and patterns longer than the 128-byte buffer they are copied to are not cut.
- Divide.Registers.Divide32: the interrupt frame a divide error pushes is not modelled, only that AX and DX are untouched.
- Shift.Cpu.DoubleShift: for word counts above 16, undefined on the 386, the closed form is that of the interpreter's own zero fill.
- Alu.Compute: the parity flag is the parity of the result's low byte, however the source folds it.
- MzLoader.LoadProgramAt: reading the file, its path and error texts, and the registers that are only cleared are left out; the block is taken to end below the video memory, as both callers see to.
- Format.PrintNumber: widths and precisions near the largest int, where their sum would overflow, are not modelled as overflowing; the parser of the format string and the string conversions are left out.
- FixedText.FormatValue: it is only asked of numbers within the limit, which is all the calculator has.
- Desktop.Desktop.Retile: the content rectangle, the sizes windows are told, the events they are sent and the damage to redraw are left out; the screen is taken to have room for the gaps of sixteen windows.
- Desktop.Run: the screen is taken to have room for the gaps of sixteen windows, without which panes would have sizes below zero.
- McbServices.Dos.Exec: what is written to the child's own new blocks, its environment, image and PSP, is left to the writes of a run.
- BootArea.Stage2: the Multiboot information and the jump are left out.
- The XMS and EMS services, FCBs, handles, devices and the rest of dosrun and the kernel would add easier members to the same models.
- The kernel's own schedulers, file systems and drivers other than the audio ring are not part of this model.
