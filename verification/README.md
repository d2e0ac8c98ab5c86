# Verified models of the GCCSDK hard cores

This project models, in Dafny 4.11, the parts of the GCCSDK repository whose
correctness is hardest to see by reading, and proves what they promise:

* the band compressor of the Samsung GDI printer driver (`Band*.dfy`): a one-pass
  run/literal line coder, its size-only twin, the band loop with padding, and the
  retry loop that coarsens a band until it fits the printer;
* the free-list allocator that Mono uses on RISC OS (`FreeList*.dfy`): a doubly
  linked, address-ordered list over a growing dynamic area, in 32-bit arithmetic;
* the autobuilder's dependency expansion and build rounds (`DependencyGraph`,
  `ExpandDepends`, `BuildRounds`, `IterateLeaves`);
* the VCOS threading layer (`Vcos*.dfy`): mutex, semaphore, event, once-init and
  atomic flags under every interleaving of any number of threads;
* the code that cmunge generates (`ArmImmediate`, `ServiceFilter`, `ArmDispatch`,
  `DispatchTable`, `CmungeTables`): service rejection, constants from rotated
  8-bit immediates and pc-relative jump tables, run on a small ARM machine;
* the assembler's expression machine (`Expr*.dfy`) with deferred code;
* the assembler's area images (`AreaImage`) and cmunge's filename translation
  (`Filename*.dfy`).

Code that updates buffers, lists or dictionaries in place is modelled by methods
and classes with loops; each method is tied to a function or a property on values
(`*Spec.dfy`), and the theorems (`*Proofs.dfy`) are about those. Threads are a
state machine: a section with interrupts off is one step, a yield is a point
where any other thread may run, and a theorem about a run quantifies over every
schedule. The answers of the operating system, `malloc` and `realloc` are
parameters (`FreeListSpec.Env`) or arbitrary choices (`AreaImage`).

The decoder of the band format is not part of the repository; it is defined from
the four control-code classes that the coder's comments name.

Check everything with `dafny verify dfyconfig.toml`.

## Where the code does something else than it says

The model follows the code. Each of these has a lemma with the exact condition.

* Band coder: the comments give a run's control code as prefix OR count, the code
  stores the count inverted. The clamp of counts to 16384 is a dead store, so
  lines are compressed without loss exactly up to 16384 bytes
  (`BandProofs.LosslessLengths`).
* Band retries: the third coarsening level keeps the low nibble only
  (`BandProofs.RetriesRoundUp`), although it is meant to blacken whole bytes.
* Allocator, size: a request whose rounding to pages, added to the size of the
  area, leaves 32 bits either wraps to nothing or reaches OS_ChangeDynamicArea as a
  negative amount, which shrinks the area; the partition survives a request if and
  only if it is harmless (`FreeListProofs.AllocSafe`), and no state makes a size
  dangerous if and only if it is at most 0xf37ff000 (`FreeListProofs.SafeSizes`;
  `FreeListProofs.WrappedExample`, `FreeListProofs.ShrunkExample`).
* Allocator, merging: a range freed directly behind the last free block is not
  merged with it (`FreeListProofs.FreeCoalesces`, `FreeListProofs.UnmergedExample`).
* Allocator, lost pages: exactly when fresh pages are granted without a free tail,
  the size is no multiple of a page and no list node can be allocated, the new pages
  are in no list and never come back (`FreeListProofs.Losses`,
  `FreeListProofs.LossExample`). If the very first node cannot be allocated, the area
  is removed while its handle stays set, and every later request gets NULL
  (`FreeListProofs.RemovedForever`).
* Service rejection: when a listed number does not fit one immediate, a rejected
  call returns with that number in r14 (`ServiceFilter.RejectionMeaning`,
  `ServiceFilter.RejectedR14Changes`).
* `mutex_trylock` waits like `mutex_lock`: its first step returns if and only if
  nobody is inside (`VcosLock.TryReturns`), and else it does not return before the
  holder has run (`VcosLock.TryBlocks`, `VcosLock.TryWaitsExample`).
* `representable` meets a mask that stops its loop if and only if the number is not
  zero (`ArmImmediate.StopsExactly`).
* Aligning near the top of the 32-bit range gives 0 (`AreaImage.AlignUpMeaning`, `AreaImage.WrappedExample`).
* Filenames: a directory whose name is a listed extension does not survive the way
  to RISC OS and back, and neither does a listed empty extension without a
  directory (`FilenameProofs.RoundTrip`, `FilenameProofs.DirectoryExample`).

## Model

| member | source | states |
|---|---|---|
| BandProofs.LosslessLengths | autobuilder/graphics/ghostscript/gdevgdi.c:517-654 | decoding gives back every line of n bytes, with no code left over, if and only if n is at most 16384 |
| BandProofs.LineRoundTrip | autobuilder/graphics/ghostscript/gdevgdi.c:517-654 | a compressed line followed by any bytes decodes to the line and leaves exactly those bytes, whenever no token is longer than its count field can hold (16385 bytes for a run, 16384 for a literal) |
| BandProofs.LongAlternatingFails | autobuilder/graphics/ghostscript/gdevgdi.c:584-650 | for every length above 16384 the alternating line is not decodable at all |
| BandProofs.BandRoundTrip | autobuilder/graphics/ghostscript/gdevgdi.c:449-515 | a compressed band decodes to all its lines and leaves between 0 and 3 zero bytes |
| BandProofs.LineGrowth | autobuilder/graphics/ghostscript/gdevgdi.c:517-654 | a line of n bytes compresses to at most n + n/64 + 2 bytes, one less when it starts with a triple |
| BandProofs.OutputBufferSuffices | autobuilder/graphics/ghostscript/gdevgdi.c:195-205 | for both papers and both resolutions the padded band fits in 13/10 of the band size |
| BandProofs.BlankLines | autobuilder/graphics/ghostscript/gdevgdi.c:546-582 | every line of an all-zero band takes 3 bytes |
| BandProofs.RetriesRoundUp | autobuilder/graphics/ghostscript/gdevgdi.c:281-292 | the coarsening levels fill every group of two, then four bits that has ink; the next fills the low nibble of a byte that has ink and clears the high one |
| BandProofs.BandSizes | autobuilder/graphics/ghostscript/gdevgdi.c:87-205 | the bands of both papers and resolutions in bytes and lines |
| BandTokens.LineSpans | autobuilder/graphics/ghostscript/gdevgdi.c:517-654 | the tokens that the decoder reads off a compressed line are maximal runs and literals that start with two different bytes, hold no triple and no pair within the last three bytes, and end before the line only where one of these begins; each takes its shortest code |
| BandTokens.CutIsUnique | autobuilder/graphics/ghostscript/gdevgdi.c:517-654 | these rules leave one cut of the line only, so they fix every token |
| BandTokens.ControlCodes | autobuilder/graphics/ghostscript/gdevgdi.c:567-643 | class, count and size of every control code |
| BandCoder.ScanRun | autobuilder/graphics/ghostscript/gdevgdi.c:546-566 | stops at the first byte that differs from the run's, inside the line |
| BandCoder.ScanLiteral | autobuilder/graphics/ghostscript/gdevgdi.c:584-624 | the look-ahead with its two or three steps back ends the literal at the first pair that is a triple or lies in the last three bytes, and reads nothing outside the line |
| BandCoder.EmitRun | autobuilder/graphics/ghostscript/gdevgdi.c:567-582 | writes the short or long run code at the target and changes nothing else |
| BandCoder.EmitLiteral | autobuilder/graphics/ghostscript/gdevgdi.c:627-650 | writes the short or long literal code and the bytes and changes nothing else |
| BandCoder.CompressLine | autobuilder/graphics/ghostscript/gdevgdi.c:517-654 | the one-pass coder writes the encoding of the line that the round trip is proved for, and only that; the clamp on the count is never taken |
| BandCoder.LineSize | autobuilder/graphics/ghostscript/gdevgdi.c:656-785 | the size-only twin returns the length of that same encoding, so both agree on every line |
| BandCoder.CompressBand | autobuilder/graphics/ghostscript/gdevgdi.c:449-515 | both modes return the same multiple of four; the writing mode leaves the encoded band in front of an otherwise unchanged buffer, the measuring mode writes nothing |
| BandCoder.FitBand | autobuilder/graphics/ghostscript/gdevgdi.c:263-306 | the retry loop ends after at most five compressions with at most 0xffff-8 bytes, being the encoding at the first coarsening level that fits; decoding them gives the coarsened band and 0 to 3 zero bytes |
| FreeListProofs.EveryRunPartitions | autobuilder/develop/mono/mono.utils.riscos-memory.c:265-550 | after any allowed sequence of calls the free blocks are non-empty, ascending and disjoint, and free, live and lost bytes partition the area; free and live bytes alone do if and only if no call lost pages, and so whenever every node could be allocated |
| FreeListProofs.EveryBlockIsClear | autobuilder/develop/mono/mono.utils.riscos-memory.c:265-550 | every block handed out during a run overlaps nothing that was live then, and is live afterwards |
| FreeListProofs.RunSafe | autobuilder/develop/mono/mono.utils.riscos-memory.c:265-550 | an allowed run from any state that satisfies the invariant keeps it; bytes are never found again, and none are lost if and only if no call loses any |
| FreeListProofs.StepSafe | autobuilder/develop/mono/mono.utils.riscos-memory.c:265-550 | every allowed call keeps the invariant, hands out nothing that is live, and loses bytes if and only if its guards say so |
| FreeListProofs.AllocSafe | autobuilder/develop/mono/mono.utils.riscos-memory.c:265-393 | an allocation keeps the partition if and only if the request is harmless: the grown size is a 32-bit number, or the area cannot change, or the rounding wraps where a list node is needed and cannot be had; the new block then overlaps no live one |
| FreeListProofs.SafeSizes | autobuilder/develop/mono/mono.utils.riscos-memory.c:265-393 | a size keeps the partition in every state, whatever the system answers, if and only if it is at most 0xf37ff000 |
| FreeListProofs.Losses | autobuilder/develop/mono/mono.utils.riscos-memory.c:353-384 | exactly which bytes a request loses, and that it loses some if and only if nothing listed fits, there is no free tail, fresh pages are granted, the size is no multiple of a page and no list node can be had |
| FreeListProofs.LossExample | autobuilder/develop/mono/mono.utils.riscos-memory.c:353-384 | a request of one byte on a full page without a list node loses the page it adds |
| FreeListProofs.RemovedForever | autobuilder/develop/mono/mono.utils.riscos-memory.c:246-255 | once the area is removed for want of the first node, every later request gets NULL and nothing changes |
| FreeListProofs.AllocPolicy | autobuilder/develop/mono/mono.utils.riscos-memory.c:281-313 | the first block of exactly the size is handed out whole, else the front of the first larger block, whose rest stays in the list |
| FreeListProofs.GrowthSucceeds | autobuilder/develop/mono/mono.utils.riscos-memory.c:316-384 | a representable request that no listed block can serve succeeds if and only if the system grants the change, the grown area stays within its maximum and a node is at hand or not needed; it then gets the old end of the area less its free tail, and the area grows by exactly the pages needed |
| FreeListProofs.FirstUse | autobuilder/develop/mono/mono.utils.riscos-memory.c:217-275 | the first request makes an area of 4096 free bytes and is served from it, or fails for want of an area or a node |
| FreeListProofs.NullMeansFull | autobuilder/develop/mono/mono.utils.riscos-memory.c:281-384 | NULL is returned only when every free block is too small, and with a node at hand loses nothing |
| FreeListProofs.WrappedTail | autobuilder/develop/mono/mono.utils.riscos-memory.c:322-352 | with a free tail, a granted request that is not representable always hands out a block that runs out of the area |
| FreeListProofs.WrappedNew | autobuilder/develop/mono/mono.utils.riscos-memory.c:353-384 | without one, the invariant survives such a request if and only if it is refused, or wraps to nothing without a list node |
| FreeListProofs.WrappedExample | autobuilder/develop/mono/mono.utils.riscos-memory.c:353-384 | a request of 0xffffffff bytes is answered with the end of the area |
| FreeListProofs.ShrunkExample | autobuilder/develop/mono/mono.utils.riscos-memory.c:89-97 | a request of 0xfffff000 bytes takes the only page away, which is in use, and is answered with a pointer behind it |
| FreeListProofs.PageUpRounds | autobuilder/develop/mono/mono.utils.riscos-memory.c:322-365 | the page rounding is the least multiple of 4096 up to 0xfffff000 and 0 beyond |
| FreeListProofs.InitSafe | autobuilder/develop/mono/mono.utils.riscos-memory.c:217-256 | first use establishes the invariant and loses nothing, whether or not the area and the node can be made |
| FreeListProofs.FreeSafe | autobuilder/develop/mono/mono.utils.riscos-memory.c:410-550 | freeing any range of live bytes keeps the partition, and succeeds when a node can be allocated |
| FreeListProofs.FreeAnswers | autobuilder/develop/mono/mono.utils.riscos-memory.c:410-527 | a free fails if and only if the address is 0 or outside the area, the length is 0, or no neighbour takes the range in and no node can be had; it then changes nothing |
| FreeListProofs.PutBackCases | autobuilder/develop/mono/mono.utils.riscos-memory.c:430-550 | in all four cases of merging, the list stays ordered and gains exactly the freed bytes |
| FreeListProofs.MergeBoth | autobuilder/develop/mono/mono.utils.riscos-memory.c:470-530 | the two-sided merge drops one block and keeps exactly the right bytes free |
| FreeListProofs.FreeCoalesces | autobuilder/develop/mono/mono.utils.riscos-memory.c:410-550 | freeing keeps neighbouring free blocks merged if and only if the range does not start right behind the last free block |
| FreeListProofs.AllocCoalesces | autobuilder/develop/mono/mono.utils.riscos-memory.c:265-393 | every harmless allocation keeps neighbouring free blocks merged |
| FreeListProofs.StepCoalesces | autobuilder/develop/mono/mono.utils.riscos-memory.c:265-550 | an allowed call keeps them merged if and only if it does not free a range right behind the last free block |
| FreeListProofs.RunCoalesces | autobuilder/develop/mono/mono.utils.riscos-memory.c:265-550 | so does every allowed run without such a free |
| FreeListProofs.UnmergedExample | autobuilder/develop/mono/mono.utils.riscos-memory.c:410-550 | a free from a state with the invariant and a merged list that leaves two adjacent blocks |
| FreeList.Allocator.AddToEnd | autobuilder/develop/mono/mono.utils.riscos-memory.c:119-135 | relinks so that the list is the old one with the node behind it |
| FreeList.Allocator.AddToFront | autobuilder/develop/mono/mono.utils.riscos-memory.c:137-153 | relinks so that the list is the node and the old list |
| FreeList.Allocator.AddBefore | autobuilder/develop/mono/mono.utils.riscos-memory.c:155-177 | relinks so that the node stands in front of the given one |
| FreeList.Allocator.Remove | autobuilder/develop/mono/mono.utils.riscos-memory.c:179-199 | relinks so that the list is the old one without the node |
| FreeList.Allocator.SearchExact | autobuilder/develop/mono/mono.utils.riscos-memory.c:281-295 | walks the links to the first block of exactly the size |
| FreeList.Allocator.SearchFit | autobuilder/develop/mono/mono.utils.riscos-memory.c:298-313 | walks the links to the first block that is large enough |
| FreeList.Allocator.InitArea | autobuilder/develop/mono/mono.utils.riscos-memory.c:217-256 | makes the area and its first block, or removes the area again, as the value-level step does |
| FreeList.Allocator.ExtendTail | autobuilder/develop/mono/mono.utils.riscos-memory.c:322-352 | growth at a free tail in place equals the value-level step |
| FreeList.Allocator.ExtendArea | autobuilder/develop/mono/mono.utils.riscos-memory.c:353-384 | growth by fresh pages in place equals the value-level step, lost pages included |
| FreeList.Allocator.Allocate | autobuilder/develop/mono/mono.utils.riscos-memory.c:265-393 | the linked list stays well formed and pointer and list are those of the value-level allocation |
| FreeList.Allocator.Release | autobuilder/develop/mono/mono.utils.riscos-memory.c:410-550 | the linked list stays well formed and result and list are those of the value-level free |
| FreeList.Serve | autobuilder/develop/mono/mono.utils.riscos-memory.c:265-550 | a whole run of calls on the linked list keeps it well formed, ends with the list and gives the answers of the run on values, and in an allowed run hands out only blocks clear of all that was live |
| ExpandDepends.Expander.ExpandDeps | autobuilder/toolsrc/jenkins/expand-depends.py:23-28 | terminates on every graph; what it adds is reachable from the package and closed under dependencies |
| ExpandDepends.Expander.FullDepends | autobuilder/toolsrc/jenkins/expand-depends.py:98-104 | on an empty set the result is exactly what the package reaches in one or more steps |
| BuildRounds.LayerMeaning | autobuilder/toolsrc/jenkins/expand-depends.py:47-79 | a package is built before round k if and only if its dependency chains have at most k packages and leave the tree nowhere |
| BuildRounds.RoundMeaning | autobuilder/toolsrc/jenkins/expand-depends.py:47-79 | round k holds exactly the packages whose longest dependency chain has k steps |
| BuildRounds.RoundsDisjoint | autobuilder/toolsrc/jenkins/expand-depends.py:47-79 | no package is in two rounds |
| BuildRounds.RemainderMeaning | autobuilder/toolsrc/jenkins/expand-depends.py:65-67 | what is left when no progress is made is exactly what can reach a cycle or a name that is no key |
| IterateLeaves.Tree.CollectLeaves | autobuilder/toolsrc/jenkins/expand-depends.py:52-64 | lists, in key order, the keys without dependencies |
| IterateLeaves.Tree.DeleteLeaves | autobuilder/toolsrc/jenkins/expand-depends.py:68-70 | removes exactly the leaves and keeps the order of the other keys |
| IterateLeaves.Tree.StrikeLeaves | autobuilder/toolsrc/jenkins/expand-depends.py:71-77 | removes the leaves from every remaining list and touches no other entry |
| IterateLeaves.StrikeFrom | autobuilder/toolsrc/jenkins/expand-depends.py:74-77 | one removal per leaf takes all leaves out of a list without repetitions |
| IterateLeaves.Tree.Iterate | autobuilder/toolsrc/jenkins/expand-depends.py:47-79 | terminates; the files are the rounds in order, with an empty last file after a deadlock |
| IterateLeaves.BuildOrder | autobuilder/toolsrc/jenkins/expand-depends.py:47-79 | file k lists, each once, exactly the packages whose longest chain has k steps; every package is in some file or left over, and left over if and only if it cannot be built |
| IterateLeaves.BuildTree | autobuilder/toolsrc/jenkins/expand-depends.py:106-112 | the tree has the packages with dependencies, and the other listed ones except "." with none |
| IterateLeaves.TreeMeaning | autobuilder/toolsrc/jenkins/expand-depends.py:30-112 | a package is in the tree exactly when it has dependencies or is listed and not ".", with the dependencies read for it |
| IterateLeaves.TreeDeps | autobuilder/toolsrc/jenkins/expand-depends.py:30-35 | enters a package with all its dependencies, or not at all when it has none |
| IterateLeaves.SortedTree | autobuilder/toolsrc/jenkins/expand-depends.py:117-127 | the ordered dictionary holds every package once, fewest dependencies first, with the same dependencies as lists |
| IterateLeaves.Plan | autobuilder/toolsrc/jenkins/expand-depends.py:106-129 | from the dependency dictionary and the package list: file k lists exactly the packages of the driver's tree whose longest chain has k steps, and what is left over is exactly what cannot be built |
| VcosLock.MutualExclusion | autobuilder/system/khronos/interface.vcos.riscos.vcos_threads.c:509-542 | in every interleaving at most one thread is inside, the poll word is 0 exactly when the recorded handle is the holder, and a waiting thread may enter exactly when nobody is inside |
| VcosLock.TryReturns | autobuilder/system/khronos/interface.vcos.riscos.vcos_threads.c:514-535 | in every interleaving the first step of a try, or of a lock, returns with the mutex if and only if nobody is inside |
| VcosLock.InAndOut | autobuilder/system/khronos/interface.vcos.riscos.vcos_threads.c:519-542 | the holder gets out in one step and leaves nobody inside, and a thread that runs alone gets in |
| VcosLock.TryBlocks | autobuilder/system/khronos/interface.vcos.riscos.vcos_threads.c:514-535 | a try made while a thread is inside stays in the call under every schedule in which that thread does not run |
| VcosLock.TryWaitsExample | autobuilder/system/khronos/interface.vcos.riscos.vcos_threads.c:514-535 | a run after which a try waits for the thread inside |
| VcosMutex.Entering | autobuilder/system/khronos/interface.vcos.riscos.vcos_threads.c:519-535 | the loop condition of the lock lets a thread through exactly when nobody is inside |
| VcosMutex.Leaving | autobuilder/system/khronos/interface.vcos.riscos.vcos_threads.c:537-542 | unlocking by the holder leaves nobody inside although the handle stays recorded |
| VcosSemaphore.Conservation | autobuilder/system/khronos/interface.vcos.riscos.vcos_threads.c:546-609 | in every interleaving initial count plus posts equals value plus successful waits, as long as and only as long as the 32-bit counter has not wrapped; the value is never negative |
| VcosSemaphore.CallMeaning | autobuilder/system/khronos/interface.vcos.riscos.vcos_threads.c:556-609 | a wait or try that finds a unit takes it and returns, without one a try returns at once and a wait waits; a post adds a unit |
| VcosSemaphore.RecordIsTrue | autobuilder/system/khronos/interface.vcos.riscos.vcos_threads.c:556-609 | the posts and successes that Conservation counts are those that the schedule makes |
| VcosEvent.EventIsBinary | autobuilder/system/khronos/interface.vcos.riscos.vcos_platform.h:522-583 | under concurrent signal, wait and try the semaphore is 0 or 1, each post is matched by the value or by one successful wait or try, and one signaller at most is past the lock |
| VcosEvent.NoSignalLost | autobuilder/system/khronos/interface.vcos.riscos.vcos_platform.h:537-559 | in every interleaving, when a signal returns, the event is set or has been taken since the signal was called |
| VcosEvent.WaitMeaning | autobuilder/system/khronos/interface.vcos.riscos.vcos_platform.h:561-583 | a wait or try that finds the event set takes it and returns |
| VcosEvent.SignalAlone | autobuilder/system/khronos/interface.vcos.riscos.vcos_platform.h:537-559 | a signal that runs alone returns and leaves the event set |
| VcosOnce.ConstructedOnce | autobuilder/system/khronos/interface.vcos.riscos.vcos_threads.c:234-251 | in every interleaving, for any number of once controls behind the shared mutex, a constructor starts at most once and no call has returned 0 before it has finished |
| VcosOnce.CallAlone | autobuilder/system/khronos/interface.vcos.riscos.vcos_threads.c:234-251 | a first call that runs alone runs the constructor and returns, a later one returns without running it |
| VcosFlags.NoBitDropped | autobuilder/system/khronos/interface.vcos.riscos.vcos_platform.h:657-681 | in every interleaving the flags are those of a one-at-a-time execution of the recorded effects, and a bit once recorded is still set or was got by a later get-and-clear |
| VcosFlags.CallReturns | autobuilder/system/khronos/interface.vcos.riscos.vcos_platform.h:665-681 | in every interleaving, when a call returns, an OR has recorded exactly its argument since it was called, and a get-and-clear returns exactly the bits that it took since then |
| VcosFlags.ArgumentKept | autobuilder/system/khronos/interface.vcos.riscos.vcos_platform.h:665-681 | from the calls alone: after an OR has returned, each bit of its argument is at any time set or was got by a get-and-clear since |
| VcosFlags.CallAlone | autobuilder/system/khronos/interface.vcos.riscos.vcos_platform.h:665-681 | an OR that runs alone sets its bits, a get-and-clear returns all flags and clears them |
| ArmImmediate.Representable | gcc4/riscos/cmunge/writefile.c:755-763 | terminates for every non-zero number and returns the bits under the 8-bit window at the lowest non-empty bit pair |
| ArmImmediate.StopsExactly | gcc4/riscos/cmunge/writefile.c:755-763 | some mask stops the loop if and only if the number is not zero |
| ArmImmediate.ChunksMeaning | gcc4/riscos/cmunge/writefile.c:828-855 | repeated extraction gives at most four rotated 8-bit immediates with no common bits whose OR is the number |
| ArmImmediate.WindowIsImmediate | gcc4/riscos/cmunge/writefile.c:755-763 | whatever lies under a window of the mask is an 8-bit value rotated right by an even amount |
| ArmImmediate.Climbs | gcc4/riscos/cmunge/writefile.c:834-849 | each extraction raises the lowest bit pair by at least four |
| ArmImmediate.OneChunk | gcc4/riscos/cmunge/writefile.c:755-763 | one chunk holds the whole number if and only if its bits lie in eight neighbouring places from an even one on |
| ServiceFilter.FindBig | gcc4/riscos/cmunge/writefile.c:813-825 | finds whether some listed number does not fit one immediate |
| ServiceFilter.BigMeaning | gcc4/riscos/cmunge/writefile.c:813-825 | a number counts as big if and only if its bits do not lie in eight neighbouring places from an even one on |
| ServiceFilter.EmitTest | gcc4/riscos/cmunge/writefile.c:828-855 | writes the comparison of one number: a TEQ, or MOV and ORRs of its chunks and a TEQ with r14 |
| ServiceFilter.EmitRejection | gcc4/riscos/cmunge/writefile.c:813-871 | writes, from its loops, exactly the code whose runs ServiceFilter.RejectionMeaning describes |
| ServiceFilter.RejectionMeaning | gcc4/riscos/cmunge/writefile.c:813-871 | run on the machine, the code falls through exactly for the listed numbers with r1, r13 and r14 as on entry, else returns to the caller with r13 as on entry; r14 survives a rejection exactly when no number is big or the last big one equals it; memory changes at most in the cell below the stack pointer |
| ServiceFilter.RejectedR14Changes | gcc4/riscos/cmunge/writefile.c:828-871 | listing 0x10001 and calling service 1 returns with r14 == 0x10001 |
| ServiceFilter.ImmediatesFit | gcc4/riscos/cmunge/writefile.c:828-855 | every constant in the code can be encoded in its instruction |
| ServiceFilter.NextService | gcc4/riscos/cmunge/writefile.c:779-790 | one pass finds the least listed number above the last one |
| ServiceFilter.EmitFastTable | gcc4/riscos/cmunge/writefile.c:776-796 | the table is strictly ascending, ends in zero and holds exactly the listed non-zero numbers, which are those the rejection code accepts |
| DispatchTable.RunStub | gcc4/riscos/cmunge/writefile.c:1674-1740 | from its entry, stub k reaches the common code with its own index loaded, or returns to the caller unchanged for an event that is not listed |
| DispatchTable.RunTable | gcc4/riscos/cmunge/writefile.c:681-728 | from the common code, an index that passes the guard enters its own slot's destination and any other the default, with r14 at the return label |
| DispatchTable.RunEntry | gcc4/riscos/cmunge/writefile.c:1673-1812 | a whole call through entry k reaches the destination of the slot its index stands for |
| CmungeTables.EmitVeneers | gcc4/riscos/cmunge/writefile.c:1673-1812 | three numbering loops with one counter and three loops of branches lay out one table over the joined event, vector and interrupt list |
| CmungeTables.VeneerReachesHandler | gcc4/riscos/cmunge/writefile.c:1673-1812 | the entry of element k of the joined list enters the handler named for it, or its name with _handler, with r14 at the return label, k in r9 and in the top bit of r9 whether it can return an error; unlisted events go back to the caller |
| CmungeTables.EmitTraps | gcc4/riscos/cmunge/writefile.c:1888-1950 | the numbering loop in steps of four and the loop of branches lay out one table |
| CmungeTables.TrapReachesHandler | gcc4/riscos/cmunge/writefile.c:1888-1950 | the entry of vector trap k enters the handler named for it, or its name with _handler, with r14 at the return label |
| CmungeTables.EmitGenerics | gcc4/riscos/cmunge/writefile.c:2080-2161 | for each value of the carry flag, both loops select the same elements in the same order |
| CmungeTables.GroupPosition | gcc4/riscos/cmunge/writefile.c:2080-2161 | every generic has its place in the group of its own kind |
| CmungeTables.GenericReachesHandler | gcc4/riscos/cmunge/writefile.c:2080-2161 | the entry of element k of a carry group enters the handler named for it, or its name with _handler, with r14 at the return label |
| CmungeTables.ReadCommands | gcc4/riscos/cmunge/readfile.c:927-931 | afterwards every command that keeps its entry has a handler of its own or the help function, and no other command loses its entry |
| CmungeTables.EmitCommands | gcc4/riscos/cmunge/writefile.c:659-728 | the numbering, counting and branching loops skip the same commands |
| CmungeTables.EmitCommandNumbers | gcc4/riscos/cmunge/writeheader.c:508-518 | CMD_ number k belongs to the k-th command that has an entry |
| CmungeTables.HandledPosition | gcc4/riscos/cmunge/writefile.c:659-669 | every command with a handler entry is numbered by the entries before it |
| CmungeTables.CommandReachesHandler | gcc4/riscos/cmunge/writefile.c:659-728 | every command of the file that has an entry enters its own handler, or the help function if it has none, with its own CMD_ number in r2 and r14 at the return label |
| CmungeTables.NumberIsEntry | gcc4/riscos/cmunge/writefile.c:659-669 | the number of every such command is that of an entry |
| CmungeTables.HandledAnswered | gcc4/riscos/cmunge/writefile.c:704-720 | no entry is left without a destination |
| CmungeTables.EmitSwis | gcc4/riscos/cmunge/writefile.c:1403-1446 | the counting loop and the loop of branches agree on the list behind the first name |
| CmungeTables.SwiReachesHandler | gcc4/riscos/cmunge/writefile.c:1403-1446 | every offset that the operating system can pass (0 to 63, and beyond up to 2^31) enters the handler of its name if it has one, else the general handler, else the code for unknown SWIs, with the offset in r0 and r14 at the return label |
| ExprProofs.TreeRuns | tools/asasm/src/code.c:244-370 | the code of a tree, anywhere in a program and on any stack with room for its leaves, leaves exactly the tree's value on the stack or fails when the tree has none |
| ExprProofs.TreeResult | tools/asasm/src/code.c:376-460 | whenever the code fits the program array there is no under- or overflow and evaluation ends with one stack entry, the tree's value, with a leaf under the size operator unresolved; the result is that value if it is wanted, and without a value the code itself if code is legal |
| ExprProofs.WantedMeaning | tools/asasm/src/code.c:407-449 | a result has a legal tag, a value with a legal tag is its own result, a lone integer or character is converted to float or code exactly when only that is legal, and otherwise there is no result |
| ExprProofs.AbsoluteAreas | tools/asasm/src/code.c:324-327 | symbols of absolute areas are resolved exactly when integers are legal and symbols are not |
| ExprProofs.SmallPrograms | tools/asasm/src/code.c:269-340 | by hand: operands are resolved except under the size operator, the first pushed is the left one, too few trip the assertions |
| ExprProofs.EmptyProgram | tools/asasm/src/code.c:389-403 | code without instructions has no value and is kept if code is legal |
| ExprProofs.SplicingGrafts | tools/asasm/src/code.c:212-237 | copying deferred code in place of leaves gives the code of the grafted tree |
| ExprProofs.DeferredStandsForTree | tools/asasm/src/code.c:376-405 | code kept because it had no value yet stands for its own tree |
| ExprProofs.SplicedResult | tools/asasm/src/code.c:212-460 | evaluating with deferred code spliced in equals evaluating the tree with the deferred trees grafted in |
| ExprMachine.Machine.Emit | tools/asasm/src/code.c:110-210 | appends one instruction, or reports an overflow and changes nothing |
| ExprMachine.Machine.EmitValue | tools/asasm/src/code.c:212-237 | appends deferred code or a push; deferred code needs one slot more than it fills |
| ExprMachine.Machine.Apply | tools/asasm/src/code.c:269-310 | an operator replaces its operands at the top of the stack by its result, as the value-level step does |
| ExprMachine.Machine.EvalLowest | tools/asasm/src/code.c:244-370 | the loop over the two static arrays computes the outcome of the value-level machine |
| ExprMachine.Machine.Eval | tools/asasm/src/code.c:376-460 | on every emitted tree the result, conversions and legal tags included, is that of the value-level machine, and the assertion on the stack pointer holds |
| ExprMachine.Machine.EmitTree | tools/asasm/src/expr.c:39-170 | emitting operands before operators leaves the spliced postfix code of the tree behind the code before it, and overflows only when the array is too small |
| ExprMachine.Machine.BuildAndEval | tools/asasm/src/expr.c:183-220 | building and evaluating a tree gives the result of the tree with the deferred trees grafted in |
| AreaImage.MaskClears | tools/asasm/src/area.c:400-400 | in any width, the bitwise and with the negated power of two takes the remainder away |
| AreaImage.AlignUpMeaning | tools/asasm/src/area.c:393-412 | the masked sum is the least multiple of the alignment not below the offset if and only if the sum stays within 32 bits, and 0 otherwise |
| AreaImage.WrappedExample | tools/asasm/src/area.c:400-400 | aligning 0xfffffffd to 4 gives 0 |
| AreaImage.Area.Resize | tools/asasm/src/area.c:173-185 | a granted request gives the new size and keeps the old bytes, a refused one changes nothing |
| AreaImage.Area.EnsureExtraSize | tools/asasm/src/area.c:204-231 | an area without room takes the first granted size of the halving sequence, at last the least sufficient one, and memory is out if and only if all of them are refused; the size assertion never fails and all bytes are kept |
| AreaImage.Area.AlignOffset | tools/asasm/src/area.c:393-412 | bytes below the old index are kept, the padding is zero, the index moves up to the aligned offset and never beyond the image; memory is out exactly when growing refuses every size |
| FilenameProofs.RoundTrip | gcc4/riscos/cmunge/filename.c:83-214 | translating a name to RISC OS and back gives the name if and only if it has no empty, "." or ".." component in front of a slash and its extension, or else its parent directory, is not mistaken for another |
| FilenameProofs.NativeLength | gcc4/riscos/cmunge/filename.c:37-73 | without special components the translation swaps dots and slashes, with one it is shorter than the name |
| FilenameProofs.SpecialPrefixes | gcc4/riscos/cmunge/filename.c:48-62 | a leading "./" or "/" vanishes and "../" becomes "^." |
| FilenameProofs.NativeComposes | gcc4/riscos/cmunge/filename.c:37-73 | behind directories that are nothing special, a name is translated as if it stood alone |
| FilenameProofs.HoistParts | gcc4/riscos/cmunge/filename.c:83-127 | dir/stem.ext becomes dir.ext.stem when ext is listed and stays dir.stem/ext otherwise |
| FilenameProofs.LowerParts | gcc4/riscos/cmunge/filename.c:159-214 | dir/comp/leaf becomes dir/leaf.comp when comp is listed and stays as it is otherwise |
| FilenameProofs.EntriesMeaning | gcc4/riscos/cmunge/filename.c:98-124 | the entries of an extension list are what stands between its colons and ends |
| FilenameProofs.DirectoryExample | gcc4/riscos/cmunge/filename.c:159-214 | with c as an extension, c/main becomes c.main, and that comes back as main.c |
| Filename.Translator.UnixToRiscos | gcc4/riscos/cmunge/filename.c:37-73 | the character loop leaves the translated name and a terminator in the buffer |
| Filename.Translator.RiscosToUnix | gcc4/riscos/cmunge/filename.c:131-148 | the character loop leaves the name with dots and slashes swapped and a terminator |
| Filename.Translator.HoistInPlace | gcc4/riscos/cmunge/filename.c:108-120 | the overlapping move and the copy put the extension in front of the stem and keep the directory and all behind the name |
| Filename.Translator.LowerInPlace | gcc4/riscos/cmunge/filename.c:195-210 | the overlapping move and the copy put the directory name behind the leaf and keep the rest and all behind the name |
| Filename.Translator.UnixToRiscosName | gcc4/riscos/cmunge/filename.c:83-127 | the buffer holds the name that the round trip is proved for, and its terminator behind it |
| Filename.Translator.RiscosToUnixName | gcc4/riscos/cmunge/filename.c:159-214 | the buffer holds the name that the round trip is proved for, and its terminator behind it |

## Left out

- The scanline coder of gdevgdi.c: never selected, and its decoding convention cannot be recovered.
- Page and band headers, PJL and file output of the printer driver, and failed `gs_alloc_bytes`: input and output only.
- Operating system calls, `malloc` and `realloc`: their answers are parameters or arbitrary choices. OS_ChangeDynamicArea either moves the whole signed amount or fails and changes nothing (a partly moved negative amount is not modelled), it fails on a removed area, and a dynamic area lies below 4 GB (`FreeListSpec.Sane`).
- Finalising the allocator and mapping files through it: thin wrappers.
- FreeListProofs.EveryRunPartitions: excludes requests that are not harmless, because they break the partition, as `FreeListProofs.AllocSafe` states exactly.
- Reading the directory tree and the depends files, and which of several orders a dictionary or set is listed in: iterate_leaves is proved for every order of the keys and of each list.
- A failed RT_Yield, nested locking of a mutex and unlocking by a thread that is not the holder; kthread_once with null arguments or a constructor that calls it again.
- Fairness: no thread is promised to get in eventually. Timers, thread-local storage and the other VCOS wrappers would only add easy members.
- ArmImmediate.Representable: requires a non-zero number, since the original does not terminate on zero (`ArmImmediate.StopsExactly`).
- The 26-bit code paths of cmunge. The library set-up between entry and table is modelled as instructions that write given registers with arbitrary values.
- Whether an index can be encoded as an immediate: the tables are proved for all lists of at most 2^30 elements, encodable or not.
- CmungeTables.SwiReachesHandler: requires offsets below 2^31; the operating system passes 0 to 63 (gcc4/riscos/cmunge/Docs/Manual, line 429).
- ExprMachine.Machine.Eval: does not model the ownership of values; it is stated for code that an expression emits, as the parser guarantees.
- The operators, symbol resolution and number formats of the expression machine: arbitrary functions. Parsing text into a tree.
- AreaImage.Area.AlignOffset: image sizes are unbounded.
- The phase assertion and the error for growing an implicit area in area.c.
- Filename.Translator.UnixToRiscos: requires the translated name to fit the 1024-byte buffer, which the original does not check.
- Filename.Translator.RiscosToUnix: requires the name to fit the 1024-byte buffer, which the original does not check.
- Filename.Translator.UnixToRiscosName: requires the translated name to fit the 1024-byte buffer, which the original does not check.
- Filename.Translator.RiscosToUnixName: requires the name to fit the 1024-byte buffer, which the original does not check.
- Reading CMHG files, option parsing, header text, the Khronos SWI dispatchers, decaof, the Mozilla ports and pkgweb: mostly input, output or presentation.
