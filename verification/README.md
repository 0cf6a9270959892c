# Q9 system software: a verified model

This project models the parts of the Q9 OS-9 system software whose correctness is hardest to see
from the code, and proves properties of them for all inputs, all runs or all reachable states.

* **Q9-IOMAN, the path manager.** `IomanModel` is the manager as a state machine. A backend may call
  back into the manager in the middle of an open, an operation or a close, so every callout is two
  atomic steps, call and return, with the calls in progress kept in the state. `IomanSafety` proves
  what every run keeps, `IomanReplies` what each call answers, told from the history. `IomanManager` is the manager as the C code has it, two fixed tables updated
  in place, each method proved to be one step of the state machine. `KernelFrame` is the register
  frame dispatcher on top: it decodes a 72-byte big-endian trap frame, calls the manager at most
  once, and writes results, or an error number and carry, back. `TrapRun` joins the two: what a trap
  does to the manager's state, and what a later trap with the number it handed out reaches.
* **Disk and module tools.** `DiskImage` is `update_hda`: parse a segment list, take clusters from the
  bitmap, extend the file descriptor, write the file over its segments, read it back; `SafeImage` shows
  images that meet its conditions. `ModuleCrc` and `FixMod` are the 24-bit module CRC, its fixer and
  its separately written checker. `BootFile`, `BootNames` and `BootReparse` split a boot file into
  modules, exchange `rbf`, and join it again.
* **Delta debugging.** `DeltaDebug` is `ddmin` over a memoised oracle that need not be monotone.
* **RBF reference routines.** `SegmentCursor` is the cached lookup from a file position to a disk
  segment, `SectorCache` the sector cache with the range purge and its counted early exit, on linked
  chains, use list and free list (`CacheLinks`), `FreeList` the sorted free list, `FreeCoalesce` when its extents are joined, and `FreeRing` the same list as a
  doubly linked ring in memory, with the splicing and unlinking of the two routines.
* **Trace decoder and memory map.** `TraceRing` unwraps the trace ring, cuts records and pairs entries
  with returns; `ScratchMap` merges fixed memory cells and looks for overlaps, `ScratchNames` has their
  names and order, and `ScratchExtent` says what that means for the definitions they came from.

`Bytes`, `Options` and `Sets` hold what several modules share. `dafny verify dfyconfig.toml` checks everything.

## Results that differ from what the code or its comments suggest

* A name operation does not pin its route: the route can be unregistered while the backend is still
  inside the call (`IomanSafety.NameOperationDoesNotPin`). Open, operate and close callouts do pin it.
* `update_hda` never asks whether the new entries fit the 48-entry segment table. On an image that is
  otherwise safe anyone who reads the image afterwards finds the boot data if and only if they do
  (`DiskImage.Disk.Update`). The tool's own read-back uses the segments it has in memory, so as long as
  the entries stay inside the descriptor's sector it passes all the same (`DiskImage.ReadBackPasses`,
  with an image in `SafeImage.LoseFile`).
* From 100 entries on the descriptor is longer than its sector (`DiskImage.NewFdLength`) and is written
  over the sector behind it, whoever owns that; nothing else outside file and bitmap changes
  (`DiskImage.WrittenFrame`). The read-back then passes if and only if those bytes agree with the boot
  data wherever they fall on the file (`DiskImage.ReadBackIff`). `SafeImage.VerifyFails` is an image on
  which the update destroys the beginning of its own file.
* `update_hda` looks for free clusters from the last segment on only, and reports lack of space however
  many are free below it (`SafeImage.SpaceBelowIgnored`).
* The CRC fixer accepts size fields 0, 1 and 2, where Python's negative indices make it write at the
  end of the file; the result passes the check exactly when the size is at least 3
  (`FixMod.FixedPassesIff`). Sizes 1 to 10 put part of the CRC into the first eight bytes, sync word and
  size field; size 0 puts all of it at the end of the file, and from 11 on it goes behind them
  (`FixMod.HeaderStays`).
* A module shorter than 8 bytes takes part of its size field from whatever follows it, and any file at
  all is accepted as the new `rbf`. A rebuilt boot file parses back exactly when each module is found
  where it then stands (`BootReparse.ReparseExact`), which comes down to the size field of the new file
  and to the short modules that get it behind them (`BootReparse.ReparseIff`, with a concrete file in
  `BootFile.SevenByteModuleBreaks`).
* The cache purge adds up the end of the range, and rounds its length up, in 32 bits. Every well hashed
  cache comes out without a sector of the range if and only if the range is empty or neither wraps
  (`SectorCache.CompleteIff`). If the end wraps, nothing at all is taken out
  (`SectorCache.EndWrapLeaves`); if the rounding wraps, the limit is too low
  (`SectorCache.LimitWrapLeaves`).
* The free list keeps an emptied last node as a placeholder. A hint that names it makes an allocation
  fail although clusters are free (`FreeList.FullIff`, `FreeList.PlaceholderRefuses`), a return around
  it leaves it out of order (`FreeList.StrictIff`, `FreeList.PlaceholderOutOfPlace`), and it can keep
  two touching extents from being joined (`FreeCoalesce.CoalescedIff`, `FreeCoalesce.TouchingLeft`).
  What is free stays exact all the same.
* The memory map can lose the size of a definition, and with it an overlap, in three ways: a larger C
  definition at the address of another, a larger assembler definition whose name differs in underscores
  or case only, and a cell larger than the table it is taken for the base of. After a silent check two
  definitions that share a byte are one cell or covered if and only if both sizes are kept
  (`ScratchExtent.SilentForDefs`, `ScratchExtent.ExtentIff`; inputs in `ScratchExtent.HiddenExamples`).

## Model

| member | source | states |
|---|---|---|
| `IomanSafety.RunInv` | Q9-IOMAN/src/qioman.c:130-420 | the whole invariant (accounting, pinning, routes, table = log) holds after every sequence of calls and returns, in any interleaving |
| `IomanSafety.StepInv` | Q9-IOMAN/src/qioman.c:130-420 | every single step, call or return of a callout, keeps the invariant |
| `IomanSafety.CalloutsAccounted` | Q9-IOMAN/src/qioman.c:299-335 | in every run a slot is opening (closing) exactly when one open (close) callout on it is pending, its counter is its number of pending operations, and a slot with a callout pending is neither freed nor rebound |
| `IomanSafety.CounterPositive` | Q9-IOMAN/src/qioman.c:382-389 | when an operation returns its counter is positive, so the decrement never wraps |
| `IomanSafety.RoutesPinned` | Q9-IOMAN/src/qioman.c:199-210 | in every run each path opened through a route still has it registered, with the same backend and context |
| `IomanSafety.UnregisterBusyIffUsed` | Q9-IOMAN/src/qioman.c:196-210 | unregistering is refused as busy exactly while some path, in any phase, uses the prefix, and otherwise removes that entry and no other |
| `IomanSafety.TableIsReplayOfLog` | Q9-IOMAN/src/qioman.c:317-336 | the map from path number to handle, context, access and route is the replay of the successful opens and closes, so failed ones leave no trace |
| `IomanSafety.CalloutsMatchLog` | Q9-IOMAN/src/qioman.c:371-406 | in every run an operation or close in progress was called with the backend, context and handle of the last successful open of its number, and a read or write only on a path opened for it |
| `IomanSafety.ModeGrants` | Q9-IOMAN/src/qioman.c:313-315 | mode 0 grants reading and writing, any other mode what its two low bits say |
| `IomanSafety.StepView` | Q9-IOMAN/src/qioman.c:405-419 | a step changes that map by one fresh number, by exactly one number less, or not at all; a failing call or return changes neither map nor log |
| `IomanSafety.FinishView` | Q9-IOMAN/src/qioman.c:322-336 | what the return of each kind of callout does to the map, with the values the callout was entered with |
| `IomanSafety.OpensMinusCloses` | Q9-IOMAN/src/qioman.c:317-336 | over every run, successful opens minus successful closes is the number of slots open or closing |
| `IomanSafety.NameOperationDoesNotPin` | Q9-IOMAN/src/qioman.c:253-272 | a run in which a route is unregistered while its backend is inside a name operation |
| `IomanSafety.SelectLongest` | Q9-IOMAN/src/qioman.c:32-49 | the scan finds a route exactly when one covers the path up to a component boundary, and then a longest one |
| `IomanSafety.RouteIndependentOfOrder` | Q9-IOMAN/src/qioman.c:144-164 | two registries with the same routes, in any order and any slots, resolve every path to the same route |
| `IomanReplies.OperateReplies` | Q9-IOMAN/src/qioman.c:350-390 | for every state of every run, number and operation: the backend is called, with the backend, context and handle of the last successful open, exactly if the number is open and not being closed, the backend takes operations, a read finds bit 0 and a write bit 1 of the access set and fewer than 65535 operations are in progress; and which status comes back otherwise |
| `IomanReplies.CloseReplies` | Q9-IOMAN/src/qioman.c:392-406 | likewise for a close: refused as invalid unless the number is open and not being closed, as busy while an operation is in progress on it |
| `IomanReplies.OpenReplies` | Q9-IOMAN/src/qioman.c:213-251 | likewise for an open or create by name: not found exactly if no registered route covers the path up to a slash, else the longest such route decides, and the lowest number neither open nor being opened is taken, with the access the mode asks for |
| `IomanReplies.DirectReplies` | Q9-IOMAN/src/qioman.c:274-321 | likewise for an open with an explicit backend |
| `IomanReplies.NameReplies` | Q9-IOMAN/src/qioman.c:253-271 | likewise for make-directory and delete by name |
| `IomanReplies.RegisterReplies` | Q9-IOMAN/src/qioman.c:130-166 | which status registering gives, and that exactly the new route joins those registered |
| `IomanReplies.UnregisterReplies` | Q9-IOMAN/src/qioman.c:168-211 | which status unregistering gives, busy exactly while a path with the prefix is open or being opened, and that exactly that route goes |
| `IomanReplies.ReturnReplies` | Q9-IOMAN/src/qioman.c:322-336 | what the return of each kind of callout answers and logs |
| `IomanReplies.WriteOnlyPath` | Q9-IOMAN/tests/test_qioman.c:255-263 | a path opened with mode 2 refuses a read and takes a write |
| `IomanManager.Manager.Create` | Q9-IOMAN/src/qioman.c:72-105 | capacity 0 is refused; otherwise the fresh manager and its fresh tables are the initial state of the machine |
| `IomanManager.Manager.FindBackend` | Q9-IOMAN/src/qioman.c:20-50 | the table scan computes the route lookup the lemmas are about |
| `IomanManager.Manager.RegisterBackend` | Q9-IOMAN/src/qioman.c:130-166 | in-place registration is the machine's step: equal prefixes rejected before a full table, first free entry taken |
| `IomanManager.Manager.UnregisterBackend` | Q9-IOMAN/src/qioman.c:168-211 | in-place unregistration is the machine's step |
| `IomanManager.Manager.OpenBackendCall` | Q9-IOMAN/src/qioman.c:274-321 | checks, search, reservation before the callout, and access mode are the machine's step |
| `IomanManager.Manager.OpenResolvedCall` | Q9-IOMAN/src/qioman.c:213-251 | open and create through the registry are the machine's step |
| `IomanManager.Manager.OpenReturn` | Q9-IOMAN/src/qioman.c:322-336 | the rest of an open once the backend returned: slot freed on failure, handle stored and path number given on success |
| `IomanManager.Manager.OperateCall` | Q9-IOMAN/src/qioman.c:350-387 | checks in order, counter up, callout with the slot's handle and context |
| `IomanManager.Manager.OperateReturn` | Q9-IOMAN/src/qioman.c:388-389 | counter down in 16 bits, status passed on |
| `IomanManager.Manager.CloseCall` | Q9-IOMAN/src/qioman.c:392-406 | only an open path without operations in progress starts closing |
| `IomanManager.Manager.CloseReturn` | Q9-IOMAN/src/qioman.c:407-419 | back to open on failure, slot cleared on success |
| `IomanManager.Manager.NameOperationCall` | Q9-IOMAN/src/qioman.c:253-271 | make-directory and delete by name: registry read, no slot touched |
| `IomanManager.Manager.NameReturn` | Q9-IOMAN/src/qioman.c:270-271 | the backend's status is passed on, nothing changes |
| `KernelFrame.Write32` | Q9-IOMAN/src/qioman_kernel.c:16-28 | four bytes replaced in place, read back as the value written |
| `KernelFrame.Write16` | Q9-IOMAN/src/qioman_kernel.c:40-50 | two bytes replaced in place, read back as the value written |
| `KernelFrame.SetCarry` | Q9-IOMAN/src/qioman_kernel.c:151-159 | the carry bit and nothing else in the frame changes |
| `KernelFrame.RegisterBytes` | Q9-IOMAN/src/qioman_kernel.c:3-38 | what a register read means in bytes of the frame |
| `KernelFrame.FlagBytes` | Q9-IOMAN/src/qioman_kernel.c:151-159 | carry and the other flags in bytes of the frame |
| `KernelFrame.ErrorNumbers` | Q9-IOMAN/src/qioman_kernel.c:52-75 | which statuses each error number stands for |
| `KernelFrame.CallsByPath` | Q9-IOMAN/src/qioman_kernel.c:112-148 | for every call code without a name, which manager call is made with which bytes of the frame, and which codes are refused |
| `KernelFrame.CallsByName` | Q9-IOMAN/src/qioman_kernel.c:185-236 | open, create, make-directory and delete go through exactly when the resolved name is usable and ends within 32 bits, and with which arguments; which error otherwise |
| `KernelFrame.TransfersInRange` | Q9-IOMAN/src/qioman_kernel.c:237-255 | a transfer reaches the manager exactly when it is empty or its buffer is non-null and ends within 32 bits, and then with the path, buffer and length of the frame |
| `KernelFrame.RejectsAreErrors` | Q9-IOMAN/src/qioman_kernel.c:173-253 | a request refused before the manager is called never reports success |
| `KernelFrame.VerdictTold` | Q9-IOMAN/src/qioman_kernel.c:256-296 | a dispatch succeeds exactly if the manager does and, for a transfer, reports no more than was asked for; and the status otherwise |
| `KernelFrame.FailFrame` | Q9-IOMAN/src/qioman_kernel.c:292-296 | the error exit changes the low word of D1 and the carry bit only |
| `KernelFrame.FinishOpen` | Q9-IOMAN/src/qioman_kernel.c:210-212 | the open exit changes D0, A0 and the carry bit only |
| `KernelFrame.FinishTransfer` | Q9-IOMAN/src/qioman_kernel.c:262-290 | the transfer exit changes D1 and the carry bit only |
| `KernelFrame.Dispatch` | Q9-IOMAN/src/qioman_kernel.c:161-297 | for every call code, frame, resolver and manager answer: failure changes only D1's low word and carry; success clears carry and changes only the named result registers; A0 advances without 32-bit wrap; the count reported is at most the length asked for |
| `TrapRun.OpenTrap` | Q9-IOMAN/src/qioman_kernel.c:185-212 | the status is what the dispatcher makes of the manager's answer, and the state that of the manager call made; whatever happens during the callout, a successful open or create trap hands out in D0 a number that was not in force and now stands for the backend and context of the route that covers the name, with the handle the backend gave |
| `TrapRun.SucceedsIff` | Q9-IOMAN/src/qioman.c:274-390 | an open or an operation succeeds exactly when it reached its backend and that callout returns, with success |
| `TrapRun.OpenBinds` | Q9-IOMAN/src/qioman.c:213-337 | the same for the manager call: callout, anything in between, return |
| `TrapRun.StaysBound` | Q9-IOMAN/src/qioman.c:392-420 | over every run a number nobody closes stays bound as it was |
| `TrapRun.ReadTrap` | Q9-IOMAN/src/qioman_kernel.c:237-262 | the status is what the dispatcher makes of the manager's answer; a successful read trap reached the backend, context and handle its number stands for, and reports at most the length asked for |
| `TrapRun.OpenThenRead` | Q9-IOMAN/src/qioman_kernel.c:161-297 | open trap, any run without a close of the number, read trap: both statuses are the dispatcher's, and if both succeed the read reaches what the open was bound to |
| `TrapRun.BothSucceed` | Q9-IOMAN/src/qioman_kernel.c:161-297 | on a manager with one route there are frames for which both traps succeed |
| `DiskImage.ParseSegs` | RBF68k/tools/update_hda.py:35-43 | the segments are the non-empty entries in order, the count is the index behind the last of them |
| `DiskImage.FieldsTold` | RBF68k/tools/update_hda.py:23-33 | size and place of the bitmap and the cluster size in bytes of the image |
| `DiskImage.EntryTold` | RBF68k/tools/update_hda.py:37-43 | a table entry in bytes of the descriptor |
| `DiskImage.SizeTold` | RBF68k/tools/update_hda.py:108-112 | the file size in bytes of the descriptor |
| `DiskImage.TakeClusters` | RBF68k/tools/update_hda.py:58-71 | the clusters taken were free, are the lowest ones from the start on, as many as asked for or all there are, and exactly they are newly marked |
| `DiskImage.UsedTold` | RBF68k/tools/update_hda.py:62-67 | cluster c is bit 7 - c % 8 of byte c / 8 of the bitmap |
| `DiskImage.ChosenBehindLast` | RBF68k/tools/update_hda.py:58-71 | every cluster an update takes was free and not before the cluster in which the last segment starts, and no such cluster below it is left out |
| `DiskImage.ShortIff` | RBF68k/tools/update_hda.py:58-71 | lack of space counts the free clusters from there on |
| `DiskImage.ChosenUnique` | RBF68k/tools/update_hda.py:49-71 | the image and the size of the file determine which clusters an update takes |
| `DiskImage.EnterClusters` | RBF68k/tools/update_hda.py:79-84 | one table entry and one segment per cluster; it stops exactly when a sector number needs more than 24 bits |
| `DiskImage.UsedGrown` | RBF68k/tools/update_hda.py:37-43 | a table with new entries behind its last used one parses into the old segments followed by the new ones |
| `DiskImage.ExtendedEntry` | RBF68k/tools/update_hda.py:79-84 | every entry of the extended table, new or old, reads back as it should |
| `DiskImage.NewFdLength` | RBF68k/tools/update_hda.py:79-84 | the descriptor as written is longer than its sector exactly when the new entries run past it |
| `DiskImage.EnoughClusters` | RBF68k/tools/update_hda.py:49-51 | the clusters asked for hold the bytes that had no room ... |
| `DiskImage.NoSpareCluster` | RBF68k/tools/update_hda.py:49-51 | ... and any fewer do not |
| `DiskImage.GrownDisjoint` | RBF68k/tools/update_hda.py:58-84 | clusters that were free are disjoint from each other and from every segment that was marked used |
| `DiskImage.OthersSafe` | RBF68k/tools/update_hda.py:58-84 | a sector marked used that is not the file's own is in none of the grown file's segments |
| `DiskImage.WriteThenRead` | RBF68k/tools/update_hda.py:89-119 | data written over disjoint segments with enough room is read back exactly, also after later writes elsewhere |
| `DiskImage.WriteSegsFrame` | RBF68k/tools/update_hda.py:92-99 | bytes outside the segments are untouched |
| `DiskImage.SafeUpdate` | RBF68k/tools/update_hda.py:35-122 | on a safe image the updated image, parsed afresh, holds exactly the boot data, its segments are the old ones and clusters that were free, and every byte outside file, descriptor and bitmap is unchanged |
| `DiskImage.MapSurvives` | RBF68k/tools/update_hda.py:73-106 | the bitmap in the final image is the old one with exactly the taken clusters marked: neither data nor descriptor fell on it |
| `DiskImage.OverrunLoses` | RBF68k/tools/update_hda.py:79-84 | if the new entries do not fit the table, the file read from the final image is shorter than the boot data |
| `DiskImage.ReadBackPasses` | RBF68k/tools/update_hda.py:108-122 | the tool's read-back passes as long as the entries stay inside the descriptor's sector, however many of them the table has room for |
| `DiskImage.WrittenFrame` | RBF68k/tools/update_hda.py:73-106 | on every image: the bytes of the descriptor as written stand from its sector on, past its end too, and outside them, the segments and the bitmap nothing changes |
| `DiskImage.ReadBackIff` | RBF68k/tools/update_hda.py:89-122 | on an image safe apart from the table the read-back passes if and only if, wherever the descriptor as written falls on a byte of the file, it holds that byte of the boot data |
| `DiskImage.ApartAgrees` | RBF68k/tools/update_hda.py:89-122 | it does so whenever no segment meets the bytes of the descriptor as written |
| `DiskImage.AllAgreeIff` | RBF68k/tools/update_hda.py:89-122 | it does so for all boot data of a size if and only if the descriptor falls on none of the bytes such data takes |
| `DiskImage.FirstByteLost` | RBF68k/tools/update_hda.py:89-122 | it does not if the file starts right behind the descriptor's sector, the entries run past it and the byte written there is another than the first of the boot data |
| `SafeImage.SafeImageExists` | RBF68k/tools/update_hda.py:23-33 | an image that meets all conditions of the update theorems at once, on which the file has to grow and finds space |
| `SafeImage.OverrunHappens` | RBF68k/tools/update_hda.py:79-84 | the same image is safe apart from the table for a file of 49 clusters, which finds space but not enough entries |
| `SafeImage.LoseFile` | RBF68k/tools/update_hda.py:14-123 | updating that image with any such file reports success and leaves a file shorter than the boot data |
| `SafeImage.VerifyFails` | RBF68k/tools/update_hda.py:14-123 | an image whose file starts behind the descriptor; with any boot data that needs 101 entries there and begins with a 0 the update fails its own read-back |
| `SafeImage.SpaceBelowIgnored` | RBF68k/tools/update_hda.py:58-71 | if every cluster from the last segment on is used, the update lacks space, whatever is free below |
| `SafeImage.GrowBehindLast` | RBF68k/tools/update_hda.py:14-123 | an image with two segments: the cluster behind the last one is taken, though the one behind the first is free, and the file reads back |
| `DiskImage.Disk.WriteSegments` | RBF68k/tools/update_hda.py:89-101 | the write loop, and that something remains exactly when the data exceeds the capacity |
| `DiskImage.Disk.ReadSegments` | RBF68k/tools/update_hda.py:108-119 | the read-back loop |
| `DiskImage.Disk.GrowFile` | RBF68k/tools/update_hda.py:48-87 | out of space exactly when too few clusters are free from the last segment on, and then nothing is written; otherwise bitmap and table are extended by the clusters taken |
| `DiskImage.Disk.StoreFile` | RBF68k/tools/update_hda.py:89-122 | what is written, and when each of its checks fails |
| `DiskImage.Disk.Prepare` | RBF68k/tools/update_hda.py:22-87 | parsing and, where needed, growing |
| `DiskImage.Disk.Update` | RBF68k/tools/update_hda.py:14-123 | on every image: the "does not fit" assert cannot fire, lack of space is reported, with nothing changed, exactly when too few clusters are free from the last segment on, and an update that is carried through takes the lowest free clusters and writes nothing but segments, bitmap and descriptor, the latter past its sector if it is longer; on an image safe apart from the segment table the update is carried through if it finds space, the file reads back as the boot data if and only if the new entries fit the table, and the tool reports success if and only if the descriptor as written agrees with the boot data where it falls on the file; on a safe image it succeeds and is exact, bitmap included |
| `ModuleCrc.Os9Crc` | RBF68k/tools/fixmod.py:9-18 | the nested loops compute the complement of the shared register |
| `ModuleCrc.Crc24` | RBF68k/tools/mk_rbfboot.py:12-21 | the second routine computes the register itself |
| `ModuleCrc.RegisterIs24` | RBF68k/tools/fixmod.py:10-17 | the register never leaves 24 bits although nothing masks it inside the loops |
| `ModuleCrc.ShiftLinear` | RBF68k/tools/fixmod.py:13-16 | one bit step is linear over exclusive or |
| `ModuleCrc.ShiftInjective` | RBF68k/tools/fixmod.py:13-16 | one bit step loses no information |
| `ModuleCrc.FeedThree` | RBF68k/tools/fixmod.py:11-16 | feeding three bytes is 24 steps on the register with all three mixed in at once |
| `ModuleCrc.CheckValue` | RBF68k/tools/mk_rbfboot.py:14-21 | 24 steps from all ones give 0x800FE3 |
| `ModuleCrc.CheckIffFixed` | RBF68k/tools/mk_rbfboot.py:12-21 | the checker sees 0x800FE3 if and only if the last three bytes are what the fixer computes for everything before them |
| `ModuleCrc.RegisterInjective` | RBF68k/tools/fixmod.py:9-18 | different registers stay different over any bytes fed to both |
| `ModuleCrc.WindowInjective` | RBF68k/tools/fixmod.py:9-18 | different windows of up to three bytes take a register to different values |
| `ModuleCrc.BurstChangesCrc` | RBF68k/tools/fixmod.py:9-18 | two strings of equal length that differ only within three consecutive bytes, one byte in particular, have different CRCs |
| `FixMod.Fix` | RBF68k/tools/fixmod.py:20-39 | errors exactly for a missing header or a size beyond the file, and otherwise the three bytes patched in place, negative indices included |
| `FixMod.HeaderIs` | RBF68k/tools/fixmod.py:24-30 | sync word and size field in bytes of the file |
| `FixMod.FixedPasses` | RBF68k/tools/fixmod.py:28-36 | from size 3 on the fixed module passes the other routine's check and only its last three bytes changed |
| `FixMod.FixedPassesIff` | RBF68k/tools/fixmod.py:28-36 | the bytes the header named pass after fixing if and only if its size field was at least 3 |
| `FixMod.HeaderStays` | RBF68k/tools/fixmod.py:28-36 | the CRC goes past the first eight bytes exactly for size 0 and from size 11 on, and then sync word and size field read as before |
| `FixMod.ShortFails` | RBF68k/tools/mk_rbfboot.py:12-21 | fewer than three bytes never have the check constant |
| `BootFile.ParseBootfile` | RBF68k/tools/mk_rbfboot.py:23-34 | the offset loop gives the modules and trailing bytes of the recursive description |
| `BootFile.ParsePartitions` | RBF68k/tools/mk_rbfboot.py:23-34 | modules and trailing bytes, in order, are exactly the file, truncated last module included |
| `BootFile.ReplaceModules` | RBF68k/tools/mk_rbfboot.py:51-63 | every `rbf`, in any case, is exchanged in its place, or one appended if there was none |
| `BootFile.JoinModules` | RBF68k/tools/mk_rbfboot.py:65-68 | the output is the concatenation |
| `BootFile.BuildRbfBoot` | RBF68k/tools/mk_rbfboot.py:48-69 | the file built is modules, exchanged, and trailing bytes |
| `BootNames.RbfIff` | RBF68k/tools/mk_rbfboot.py:54 | the name exchanged is `rbf` in any case |
| `BootNames.HeaderTold` | RBF68k/tools/mk_rbfboot.py:28-33 | extent and name of a module in bytes of the file: the name is what stands up to the first 0, the 32nd byte or the end of the file |
| `BootNames.NameUnique` | RBF68k/tools/mk_rbfboot.py:31 | that determines the name |
| `BootNames.ExchangedExactly` | RBF68k/tools/mk_rbfboot.py:50-64 | exactly the modules of that name are exchanged, all others kept in their places, and one is appended exactly if there is none |
| `BootNames.ExchangeOne` | RBF68k/tools/mk_rbfboot.py:36-69 | a boot file of the modules rbf and scf: the output byte by byte |
| `BootFile.ParseJoined` | RBF68k/tools/mk_rbfboot.py:23-34 | any list of modules that carry their own size, before bytes that start no header, parses back to that list |
| `BootReparse.ReparseExact` | RBF68k/tools/mk_rbfboot.py:36-69 | for complete modules of any positive size and any file put in: the rebuilt file parses into the same modules with `rbf` exchanged, or appended, and the same trailing bytes, if and only if each module is found where it then stands |
| `BootReparse.ReparseIff` | RBF68k/tools/mk_rbfboot.py:36-69 | for files of at least a header's length that means: sync word, a size field equal to the length (or larger, at the very end of the file), and no module shorter than 8 bytes that gets the new one behind it, a bare sync word before a lucky 2 apart |
| `BootReparse.FileShows` | RBF68k/tools/mk_rbfboot.py:27-33 | in a file of complete modules every module, with what follows it, shows its own length |
| `BootReparse.StepsIffFound` | RBF68k/tools/mk_rbfboot.py:27-33 | parsing meets a given list of modules exactly when every one of them shows its length, or ends the file and claims at least what is there |
| `BootFile.NameStays` | RBF68k/tools/mk_rbfboot.py:29-30 | a name that ends inside its module reads the same wherever the module stands |
| `BootFile.RebuildIdempotent` | RBF68k/tools/mk_rbfboot.py:48-69 | putting the same `rbf` in twice is putting it in once |
| `BootFile.SevenByteModuleBreaks` | RBF68k/tools/mk_rbfboot.py:28-33 | a concrete file with a 7-byte module that does not parse back |
| `DeltaDebug.Search.Fails` | tools/fcddmin.py:27-39 | the memo agrees with the oracle, grows by exactly the new question, and nothing is asked twice |
| `DeltaDebug.Search.TryChunks` | tools/fcddmin.py:45-49 | a chunk found is a proper, non-empty, failing part |
| `DeltaDebug.Search.TryComplements` | tools/fcddmin.py:50-54 | a complement found is a proper failing part; if none is found with single items, every one-item removal passes and is in the cache |
| `DeltaDebug.Search.Ddmin` | tools/fcddmin.py:41-58 | for every oracle, monotone or not: terminates with a failing subset of the input from which removing any one element passes, the answers already cached |
| `DeltaDebug.Search.Confirm` | tools/fcddmin.py:65-68 | the closing check finds minimality and never runs the oracle again |
| `DeltaDebug.Spec` | tools/fcddmin.py:19-25 | for any list of numbers the spans select exactly those; without duplicates they are canonical |
| `DeltaDebug.CanonicalUnique` | tools/fcddmin.py:19-25 | canonical spans that select the same numbers are the same list, so different sets are different questions |
| `SegmentCursor.Recompute` | RBF68k/ref_rea/rbf_03.c:809-833 | a block's size is the clusters of its entries before the terminator times 2^shift, its start follows its predecessor |
| `SegmentCursor.RecomputeRing` | RBF68k/ref_rea/rbf_03.c:809-833 | recomputing the blocks of a linked ring in order makes it consistent, which is what the lookup relies on |
| `SegmentCursor.ScanReaches` | RBF68k/ref_rea/rbf_03.c:543-552 | scanning the whole list from its start ends in the block whose range contains the position |
| `SegmentCursor.ScanPastEnd` | RBF68k/ref_rea/rbf_03.c:547-551 | the scan finds nothing exactly where the lookup reports the end |
| `SegmentCursor.ScanIs` | RBF68k/ref_rea/rbf_03.c:561-577 | the entry whose range contains the position is what the scan finds, with its file offset |
| `SegmentCursor.ShlIs` | RBF68k/ref_rea/rbf_03.c:558 | the shift multiplies by 2^shift |
| `SegmentCursor.ScanFoundIn` | RBF68k/ref_rea/rbf_03.c:543-577 | the scan finds, for the one cluster of 2^shift bytes in which the position lies, the segment that cluster of the file belongs to and where it starts, or nothing exactly if the file has no such cluster |
| `SegmentCursor.OneCluster` | RBF68k/ref_rea/rbf_03.c:543-577 | there is exactly one such cluster |
| `SegmentCursor.Path.FindBlock` | RBF68k/ref_rea/rbf_03.c:543-552 | walking back and forth from any block of the ring ends in the right block, or past the end exactly when the position is |
| `SegmentCursor.Path.FindEntry` | RBF68k/ref_rea/rbf_03.c:558-577 | walking back and forth from any entry ends at the right one; 0x2df2 is never reported |
| `SegmentCursor.Path.Lookup` | RBF68k/ref_rea/rbf_03.c:525-584 | from any valid cursor: same segment and offset as the full scan, which is the segment of the cluster in which the position lies, with its length in bytes; 0xd5 exactly past the allocated size, never 0x2df2, and the cursor stays valid |
| `SectorCache.WalkComplete` | RBF68k/ref_rea/rbf_03.c:49-63 | the counted early exit loses nothing if the limit is not exceeded |
| `SectorCache.ClassSize` | RBF68k/ref_rea/rbf_03.c:32-36 | how many members a range has in a residue class |
| `SectorCache.LimitExact` | RBF68k/ref_rea/rbf_03.c:32-48 | the running limit is that number in every class if and only if the count rounded up does not wrap |
| `SectorCache.WrappedLimitLeaves` | RBF68k/ref_rea/rbf_03.c:32-63 | for every range whose length rounded up wraps, a well hashed bucket of two sectors of it from which only the first is taken out |
| `SectorCache.EndWrapLeaves` | RBF68k/ref_rea/rbf_03.c:31-71 | for every range whose end wraps, a well hashed cache holding its first sector, which the purge leaves |
| `SectorCache.LimitWrapLeaves` | RBF68k/ref_rea/rbf_03.c:31-71 | for every range whose length rounded up wraps, a well hashed cache in which the whole purge leaves a sector of it |
| `SectorCache.CompleteIff` | RBF68k/ref_rea/rbf_03.c:31-71 | the purge clears its range in every well hashed cache if and only if the range is empty or neither its end nor its length rounded up wraps |
| `SectorCache.InsideBounded` | RBF68k/ref_rea/rbf_03.c:45-63 | a bucket of distinct, well hashed sectors holds no more of the range than its class has |
| `SectorCache.UnvisitedClean` | RBF68k/ref_rea/rbf_03.c:38-45 | buckets a short range does not visit hold nothing of it |
| `SectorCache.Cache.PurgeBucket` | RBF68k/ref_rea/rbf_03.c:49-63 | walking the linked chain to its header with the counted early exit: the chain, the free list and the use list afterwards, all still linked in both directions |
| `SectorCache.Cache.Discard` | RBF68k/ref_rea/rbf_03.c:53-59 | the sector cleared and the links of both neighbours, in use list and chain, and of the free list rewritten: exactly this node moves to the free list, all lists stay linked, and the walk goes on where it would have |
| `CacheLinks.ListTaken` | RBF68k/ref_rea/rbf_03.c:54-57 | pointing both neighbours past a node leaves the list, in both directions, of the others |
| `CacheLinks.ChainTaken` | RBF68k/ref_rea/rbf_03.c:56-57 | and leaves every other bucket's chain as it was |
| `CacheLinks.ListFront` | RBF68k/ref_rea/rbf_02.c:1102-1111 | the four pointer updates of an insertion put the node right behind the header |
| `SectorCache.Cache.constructor` | RBF68k/ref_rea/rbf_05.c:808-824 | all nodes on the free list, 256 empty chains and an empty use list |
| `SectorCache.Cache.Find` | RBF68k/ref_rea/rbf_02.c:726-748 | the first node of its bucket with the sector, unless it is no longer intact: then it is discarded; nothing else changes |
| `SectorCache.Cache.Insert` | RBF68k/ref_rea/rbf_02.c:1079-1113 | the first free node or, if there is none, the one given up holds the sector now, first in its chain and in the use list; nothing else changes |
| `SectorCache.LookedKeeps` | RBF68k/ref_rea/rbf_02.c:726-748 | a lookup keeps every sector in its bucket and unique, and where it finds nothing the sector is not cached |
| `SectorCache.InsertedKeeps` | RBF68k/ref_rea/rbf_02.c:1079-1113 | so does inserting a sector that is not cached |
| `SectorCache.SteppedKeeps` | RBF68k/ref_rea/rbf_03.c:38-71 | so does every purge, wrapped or not |
| `SectorCache.Cache.Purge` | RBF68k/ref_rea/rbf_03.c:31-71 | the nodes taken out, in visiting order, are what the free list gained, the use list lost and the counter of the kind counts; without wrap, on well hashed buckets, they are exactly the cached sectors of the range and every bucket keeps the others; if the end of the range wraps, nothing is taken out; all lists stay linked |
| `SectorCache.FreedAt` | RBF68k/ref_rea/rbf_03.c:53-59 | the free list gets those very nodes, last one first, with their sector cleared |
| `SectorCache.UnlinkedIff` | RBF68k/ref_rea/rbf_03.c:54-55 | the use list loses exactly those nodes |
| `FreeList.AllocateExact` | RBF68k/ref_rea/rbf_01.c:592-636 | a grant is a run of free clusters, at most what was asked and not empty unless nothing was asked, exactly it is removed, and the list stays sorted and disjoint |
| `FreeList.TakenInv` | RBF68k/ref_rea/rbf_01.c:615-634 | shrinking or unlinking a node keeps the order, strict or not |
| `FreeList.GrantIsBest` | RBF68k/ref_rea/rbf_01.c:596-609 | without a hint the whole request is granted whenever some node can hold it, and otherwise a largest node |
| `FreeList.AllocatedPicks` | RBF68k/ref_rea/rbf_01.c:592-634 | for every list and request: the first node that the hint names or that has exactly the size is taken, else the first larger one, else the first of the largest; what is granted of it, and the list afterwards node by node |
| `FreeList.HintFollowed` | RBF68k/ref_rea/rbf_01.c:598 | a list on which the hint decides |
| `FreeList.FullIff` | RBF68k/ref_rea/rbf_01.c:596-613 | 0xf8 exactly when nothing is free or the search stops at the empty placeholder because the hint names it (or nothing was asked for) |
| `FreeList.PlaceholderRefuses` | RBF68k/ref_rea/rbf_01.c:596-613 | a list reached by one allocation and one return on which a hint is refused although clusters are free |
| `FreeList.ReturnedInv` | RBF68k/ref_rea/rbf_01.c:711-769 | returning a disjoint extent keeps the list sorted and disjoint through every kind of merge |
| `FreeList.ReturnedExact` | RBF68k/ref_rea/rbf_01.c:711-769 | returning a disjoint extent makes exactly its clusters free |
| `FreeList.ReturnedPlace` | RBF68k/ref_rea/rbf_01.c:711-769 | the list after any return, overlapping or not, node by node |
| `FreeList.GrantComesBack` | RBF68k/ref_rea/rbf_01.c:592-769 | whatever was granted may be returned, and then exactly the clusters are free that were before |
| `FreeList.GrantRun` | RBF68k/ref_rea/rbf_01.c:592-769 | any allocation followed by the return of its grant is a legal run |
| `FreeList.NoMergeRoundRing` | RBF68k/ref_rea/rbf_01.c:742-752 | the forward merge never joins the last node to the first round the ring |
| `FreeList.StrictIff` | RBF68k/ref_rea/rbf_01.c:711-769 | strict order, placeholder included, is kept if and only if no placeholder is in the way of the returned extent |
| `FreeList.PlaceholderOutOfPlace` | RBF68k/ref_rea/rbf_01.c:620-634 | a concrete list, allocation and return that leave the placeholder out of order |
| `FreeList.RunFacts` | RBF68k/ref_rea/rbf_01.c:592-776 | over every run of allocations and returns the list stays sorted and disjoint and a cluster is free exactly when the operations on it say so |
| `FreeCoalesce.CoalescedIff` | RBF68k/ref_rea/rbf_01.c:711-766 | returning an extent to a list without touching extents leaves none if and only if no placeholder stands in the way of the merge with the node above |
| `FreeCoalesce.AllocateCoalesced` | RBF68k/ref_rea/rbf_01.c:592-636 | taking clusters never makes extents touch |
| `FreeCoalesce.TouchingLeft` | RBF68k/ref_rea/rbf_01.c:713-725 | a concrete run that leaves two touching extents apart |
| `FreeRing.UnlinkRing` | RBF68k/ref_rea/rbf_01.c:627-633 | pointing both neighbours past a node leaves a ring of the others, in both directions, with their extents |
| `FreeRing.SpliceRing` | RBF68k/ref_rea/rbf_01.c:735-766 | the four pointer updates of an insertion make a ring with the new node in its place |
| `FreeRing.Ring.Search` | RBF68k/ref_rea/rbf_01.c:592-609 | the scan round the ring, with its best-so-far node, chooses what FreeList says |
| `FreeRing.Ring.Remove` | RBF68k/ref_rea/rbf_01.c:627-633 | unlinking, the head moved on if it was the node, and the cell released: memory again holds the linked cells and no other |
| `FreeRing.Ring.Insert` | RBF68k/ref_rea/rbf_01.c:734-769 | splicing in, and the head moved to a node that starts below it; the cell is no longer apart |
| `FreeRing.Ring.Allocate` | RBF68k/ref_rea/rbf_01.c:592-636 | on the linked ring the routine does what the lemmas about the node sequence are about, and memory holds exactly the linked cells before and after: none leaks, none is released while linked |
| `FreeRing.Ring.GiveBack` | RBF68k/ref_rea/rbf_01.c:684-769 | likewise for the return: the fetched cell is linked in or released, and a swallowed node's cell released |
| `TraceRing.Records` | tools/q9trace_decode.py:276-292 | bounds check, ring unwrapping and framing loop together |
| `TraceRing.CutRecords` | tools/q9trace_decode.py:282-292 | the offset loop is the recursive description |
| `TraceRing.DecodeJoined` | tools/q9trace_decode.py:282-292 | any list of well-formed records decodes to exactly that list with its offsets |
| `TraceRing.DecodePrefix` | tools/q9trace_decode.py:282-292 | on arbitrary bytes the accepted records are well formed and a prefix of the stream, ending at its end or at one unreadable item where no record starts |
| `TraceRing.CleanIffJoined` | tools/q9trace_decode.py:282-292 | nothing is unreadable exactly for concatenations of well-formed records |
| `TraceRing.RingRoundTrip` | tools/q9trace_decode.py:276-292 | records laid into a ring with any contents at any read offset decode to exactly those records |
| `TraceRing.Pair` | tools/q9trace_decode.py:402-416 | entry and return are linked, in both directions, exactly when they share process, depth and code and nothing with that key lies between |
| `TraceRing.PairTrace` | tools/q9trace_decode.py:395-416 | from the dump to the pairs: exactly the records accepted before the first unreadable one, parsed, and paired among themselves |
| `TraceRing.PairedInBytes` | tools/q9trace_decode.py:295-305 | pairing in bytes of the records: process in bytes 4 and 5, call in byte 2, depth in the low half of byte 3, kind in byte 0 |
| `TraceRing.PairedUnique` | tools/q9trace_decode.py:402-416 | the two links are mutually inverse partial injections |
| `ScratchMap.MergeAsm` | tools/q9_scratch_map.py:152-160 | the loop over assembler definitions |
| `ScratchMap.MergeC` | tools/q9_scratch_map.py:161-178 | the loop over C definitions: alias of an assembler cell, which grows, alias of a C cell, or a cell of its own |
| `ScratchMap.Merge` | tools/q9_scratch_map.py:146-190 | both loops, absorption of table bases, and the sort |
| `ScratchMap.MergedFacts` | tools/q9_scratch_map.py:146-190 | merged cells are sorted, only assembler cells share an address, and sorting neither adds nor drops a cell |
| `ScratchNames.MergedInOrder` | tools/q9_scratch_map.py:189 | merged cells stand in the order of address and then name |
| `ScratchNames.NormJoin` | tools/q9_scratch_map.py:43-45 | spellings are compared letter by letter ... |
| `ScratchNames.NormOne` | tools/q9_scratch_map.py:43-45 | ... underscores left out and case ignored |
| `ScratchNames.CaseTold` | tools/q9_scratch_map.py:43-45 | what ignoring case means for a character |
| `ScratchNames.AbsorbedIff` | tools/q9_scratch_map.py:180-188 | which cells are taken for the base of a table |
| `ScratchExtent.ExtentIff` | tools/q9_scratch_map.py:146-190 | for every address and size a merged cell of at least that size starts there if and only if a table there, the cell of a first assembler definition of its name (the first at the address grown by the C definitions) or, without assembler definition, of the first C definition holds it and is not absorbed |
| `ScratchExtent.NothingLost` | tools/q9_scratch_map.py:146-190 | every definition is the start of some merged cell, as large as the definition exactly when its size is kept |
| `ScratchMap.CheckDoubles` | tools/q9_scratch_map.py:194-208 | reports exactly the addresses with two assembler cells and no shared-use entry for all of them |
| `ScratchMap.CheckOverlaps` | tools/q9_scratch_map.py:209-221 | with its early break it reports exactly the pairs in which the second starts inside the first without a shared-use entry |
| `ScratchNames.AllowedIff` | tools/q9_scratch_map.py:215-217 | a pair is excused exactly by an entry at the first address or, only if there is none, at the second that names both |
| `ScratchNames.SharedExamples` | tools/q9_scratch_map.py:209-221 | entries that excuse a pair and entries that do not |
| `ScratchMap.Check` | tools/q9_scratch_map.py:193-222 | silent exactly when there is neither kind of problem |
| `ScratchMap.SilentMeansCovered` | tools/q9_scratch_map.py:193-222 | on merged cells silence means every two cells with a common byte are covered by an entry naming both |
| `ScratchMap.CoveredMeansSilent` | tools/q9_scratch_map.py:193-222 | for cells of at least one byte, the converse |
| `ScratchMap.MergeAndCheck` | tools/q9_scratch_map.py:146-222 | the whole tool: silent if and only if every overlap is covered |
| `ScratchExtent.SilentForDefs` | tools/q9_scratch_map.py:146-222 | after a silent check two definitions that share a byte are one cell or covered if and only if merge keeps the sizes of both |
| `ScratchExtent.CheckSources` | tools/q9_scratch_map.py:146-222 | the whole tool with that guarantee for its inputs |
| `ScratchExtent.LargerAliasHidden` | tools/q9_scratch_map.py:173-177 | a silent check that misses an overlap, for every larger C definition at the address of another |
| `ScratchExtent.SameNameHidden` | tools/q9_scratch_map.py:154-158 | the same for every larger assembler definition of the same normalised name |
| `ScratchExtent.LargerBaseHidden` | tools/q9_scratch_map.py:180-189 | the same for every cell larger than the table that absorbs it |
| `ScratchExtent.HiddenExamples` | tools/q9_scratch_map.py:146-222 | one concrete input for each |

## Assumptions

* The decompiled RBF routines have lost arguments. `in_stack_00000004` is read as the path descriptor
  in fn_002eca and fn_0033f6, as the sector count in fn_002724, as the cache in fn_001c5a and as the
  address of the result in fn_0005ee; values such as `extraout_EDX` are read as registers kept across
  the call before them (the hint in fn_0005ee, the list node in fn_000770, the cache node in fn_001c5a).
* Route prefixes do not change while registered and are shorter than 65535 characters;
  `q9ioman_init` is not entered again, as `Q9-IOMAN/src/qioman_system.c:11` guards.
* The delta-debugging oracle is deterministic, and the empty set passes, as the initial cache entry says.

## Left out

- IomanModel: null manager, table and result pointers, which the C code answers with an error before anything else; the results a backend writes through its result pointer.
- IomanManager.Manager.Create: null pointers for the manager or its table, which `q9ioman_init` refuses too.
- KernelFrame.Dispatch: the manager is an arbitrary function from calls to answers, so the claims hold in every state of it (TrapRun puts the modelled manager in its place); the platform's path resolver (`Q9-IOMAN/src/qioman_target.c`) is an arbitrary function too, and a null frame, which is refused at once, is not modelled.
- DiskImage.Disk.Update: SHA-256 digests are compared as the byte strings themselves; files that do not exist and the messages printed are not modelled.
- BootFile.ParseBootfile: a size field of 0, for which the loop never ends, is excluded.
- FixMod.Fix: exit codes and messages; the file is an array.
- SegmentCursor.Path.Lookup: 32-bit wrap of file offsets, and the stores to the descriptor before the entry search, which the final stores overwrite.
- SectorCache.Cache.Purge: 32-bit wrap of the counters.
- SectorCache.Cache.Find: whether a node is intact (its checksum, fn_0000c0) is a parameter; the hit and error counters are not modelled.
- SectorCache.Cache.Insert: the node given up when none is free, which the program finds by ageing the use list, is a parameter.
- FreeRing.Ring.Allocate: cluster numbers do not wrap at 32 bits; locks, the loading of the list and writing the bitmap back (fn_0011b0) are taken to succeed.
- FreeRing.Ring.GiveBack: as for Allocate; the fetched cell is an address not in use, the notification of the driver (fn_002b84) and the reset of the descriptor field are not modelled.
- TraceRing.PairTrace: reading the dump file, and the register and name fields of a record, which pairing does not look at.
- ScratchMap.Merge: source positions, notes and alias lists, which only the printed report uses; strings are compared character by character with ASCII case folding.
- DeltaDebug.Spec: the decimal text of the spans; DeltaDebug takes the oracle's answer for a set, not its process and log.
- Q9-DHF-68k and Q9-DHFDRV-68k, which their own README files call obsolete.
- The rest of RBF68k/ref_rea: the decompiler text does not settle what it does.
- tools/q9rof_lines.py, tools/annotate_trace.py, tools/setsys_table.py, tools/q9_farcall_check.py and Q9-KERNEL/common/src/q9ident.c: pattern scans, tables and printing.
- Argument parsing, file handling, printing and Markdown rendering of all the Python tools.
