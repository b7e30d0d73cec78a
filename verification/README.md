# kush-os verification

A Dafny model of the parts of kush-os whose correctness is hardest to see from the code: the
lock-free ring behind the run queues, the intrusive trees and the address space map built on them,
reference counting, the scheduler, the physical page allocator, the handle table, 64-bit division,
SHA-2, the RPC wire format that idlc generates, and bounded `printf`. `dafny verify dfyconfig.toml`
checks all of it.

## How the system is modelled

**Lock-free ring** (`LockFreeQueue*`). A step machine with one step for each access to shared memory,
any number of threads, and sequentially consistent memory. A counter is kept as the unbounded number
of items it has counted; every computation of the program sees it modulo 2^64. The storage is an
array of slots that hold an object or not, so that constructing over a live object or reading a dead
one is an error state. `Runs` follows a schedule and assumes only that no thread sleeps between a
load and its compare-exchange while the counter goes once around 2^64 (`NotLapped`).

**Trees** (`TreeShape`, `TreeOrder`, `BinarySearchTree`, `RedBlackTheory`, `RedBlackTree`). The nodes
are heap objects with parent, left and right pointers that the methods rewrite as the source does. A
ghost snapshot of their fields is described by a tree and a path (a tree with a hole), and the
contracts speak about the in-order list of entries. The class owns its search tree where the source
derives from it.

**Address space** (`MapTree`, `AddressSearch`, `AddressSpace`, `MapEntry`). Windows are entries of the
tree; addresses are 64-bit words and every sum that can wrap is written with its remainder. The search
for a place is also the sequence of addresses that it probes (`At`); where the loop of the source runs
forever, the method returns `Endless`. The page table and the allocator that a page fault touches are a
map and a list of pages to hand out (`Pager`); `FaultSequence` runs many faults.

**Reference counting** (`SmartPointers*`). A step machine with one step for each atomic access to a
count, any number of threads, pointers and info blocks. A destructor may itself start pointer
operations, so each thread has a stack of operations in progress. A pointer is changed by one thread
at a time, and a weak pointer stays as it is while it is being locked: that is what the language asks
of callers. Assignment is dropping the old target followed by copying the new one.

**Scheduler** (`MinHeap`, `Scheduler`). A search for a thread runs against any list of pushes and epoch
steps of other cores before and after every look at a level; what `schedule` does on another core is a push
and, any time later, a step.

**Physical memory** (`Bitmap`, `PhysRegion`, `PhysicalAllocator`), **handles** (`HandleManager`),
**printf** (`Printf*`) and the **RPC format** (`Serialization`) are, like the scheduler,
classes and loops with the source's fields, proved against functions on sequences, sets and multisets.
**Division** (`Arith64`) and the bit operations (`Bits`, `Bitmap`) work on machine words as natural
numbers. **SHA-2** (`Sha2*`, `Sha256`, `Sha512`) works on words as natural numbers with the operators of the
source; the specification is FIPS 180-2, section by section, in its own definitions (`Sha2Standard`).

## Where the code does not do what it says

* The check of `pop` at `kernel/src/runtime/LockFreeQueue.h:289` can fire with two consumers
  (`OverflowReachable` gives the run, `OverflowIff` the condition); with one it never does.
* Removing a search tree's root that has exactly one child dereferences a null parent; `Remove` says
  exactly when, and `NullParentReached` maps two objects and gets there.
* The search of `Map::add` need not end, and need not respect its bounds. It never ends if and only if it
  has not ended after one probe per window and one more (`ForeverIff`), that is if and only if probing is
  caught in a set of window ends below the limit (`ForeverTrapIff`). For an empty object this is so
  exactly when the first probe fails and a window from there to `searchEnd` is reported at its own end
  (`EmptyForeverIff`): at the end of any window the search stands still (`EmptyStandsStill`). With a
  single window the condition is spelled out for every size (`OneWindowForeverIff`). What a caller can
  check: the arguments lead to the lowest free place, or to a refusal when there is none, in every map if
  and only if the object is not empty and not larger than `searchEnd`, or the wrapped `searchEnd - size` is
  at most `searchStart`, so that nothing is searched (`AlwaysPlacedIff`). Whatever the map, a placement ends
  below `searchEnd` if and only if the object is not larger than `searchEnd` (`LimitHonouredIff`,
  `PlacedBeyondEnd`), and a larger one may even go below `searchStart` (`PlacedBelowStart`). All this is for
  maps whose windows end below 2^64: one that ends exactly there reports 0 as its end and sends the search
  back to 0 (`TopWindowSendsBack`). Behind it are the overlap test, which is right about every window if and
  only if the range is not empty and does not wrap (`RangeTestIff`), and the step of a failed probe
  (`ProbeAdvancesIff`).
* `findRunnableThread` is meant to notice through `levelEpoch` that another core changed the queues, but
  `schedule` pushes the thread first (`kernel/src/sched/Scheduler.cpp:333`) and moves the epoch later
  (`:338`). With a thread pushed right after the look at its level and the step still to come, the search
  gives up after one pass while the thread waits in its queue (`PushedBehind`). A search that gives up before
  its sixth pass leaves the queues empty if and only if no thread was pushed behind the look at its level
  with its epoch step still outstanding at the compare-exchange (`MissedIff`, `FindRunnableThread`).
  Interrupts on the searching core itself push and step without a look in between and are not missed
  (`InterruptsSeen`).
* The constructor of `SharedPtr` from a raw pointer adds to the use count without looking at it; it is
  safe if and only if a strong pointer exists (`ShareRawIff`, `ShareRawDangles`, `ShareRawReached`).
* `sha256_final` writes 32 bits of the length: the padding is the standard's if and only if the message
  is shorter than 2^29 bytes (`PaddingIff`). A call of `sha256_update` whose length takes the buffered
  count past 2^32 is lost together with the end of what was fed before. One that brings in 2^31 bytes
  and two blocks, or more, overflows the `int` offset of a block (`Update` says exactly when).
* What an integer conversion prints is not always its number. `%b` has room for 32 digits; the base marker
  of `#` overwrites digits when the number fills the width (`HashEatsDigits`: `%#4x` of 0x1234 prints
  `0x34`), or loses its zero; and zeros can leave no room for a minus (`MinusFiveIsFive`). `ReadsBackIff`,
  `IntegerReadsBackIff` and `PointerReadsBackIff` say exactly when the number can be read back.
* `kernel/src/sched/Scheduler.cpp:416` subtracts `quantumUsed` from `quantumTotal`; `UpdateQuantumUsed`
  says exactly when the first is the larger one (`ExcessOutgrows` is an example).
* The sequence detector's comment says that prefaulting doubles; it grows by one page a fault
  (`PrefaultGrowsByOne`, `Run`). It also says that prefaulting starts with one page; after a fault that went
  backwards the counting goes on and the next run starts with more (`CountSurvives`).
* `releaseIrqHandle` asks for the type code of a port (`ReleaseAccepts`). An old handle resolves or
  releases again if and only if its slot has moved on by a multiple of 2^20 epochs (`MatchesIff`,
  `ResolveIssuedIff`, `ReleaseIssuedIff`); it then is the same word as the current handle of the slot, and
  releasing it takes the slot away from that one (`ResolveAliases`). Giving one slot out again 2^19 times
  gets there (`AliasReached`).
* The generated `deserialize` takes spans without looking at the size of the message; `Deserialize`
  says exactly when one reaches beyond it (`SpanOutside` is such a message).
* The last page of every physical region is never handed out. Freeing a page that nobody holds goes
  through and lowers the page counter all the same (`FreePage`).

## Model

| member | source | states |
|---|---|---|
| LockFreeQueue.SlotIsRemainder | kernel/src/runtime/LockFreeQueue.h:221-225 | masking a wrapped counter with size - 1 gives the position modulo the size, for every power of two that fits a word |
| LockFreeQueueProof.InitInv | kernel/src/runtime/LockFreeQueue.h:47-66 | an empty ring satisfies the invariant |
| LockFreeQueueProof.StepInv | kernel/src/runtime/LockFreeQueue.h:169-333 | every step of every thread keeps the whole invariant: counter order, exact tiling of the pending reservations, slot contents, local variables |
| LockFreeQueueProof.CheckWritePasses | kernel/src/runtime/LockFreeQueue.h:216-218 | the three checks after a write reservation never fail |
| LockFreeQueueProof.CheckReadPasses | kernel/src/runtime/LockFreeQueue.h:313-315 | the three checks after a read reservation never fail |
| LockFreeQueueProof.CopyTarget | kernel/src/runtime/LockFreeQueue.h:221-225 | a slot about to be constructed holds no live object |
| LockFreeQueueProof.ReadTarget | kernel/src/runtime/LockFreeQueue.h:318-322 | a slot about to be read holds the item reserved at that position |
| LockFreeQueueTheorems.RunInv | kernel/src/runtime/LockFreeQueue.h:169-333 | the invariant holds in every state of every run |
| LockFreeQueueTheorems.Safety | kernel/src/runtime/LockFreeQueue.h:169-333 | over every run consTail <= consHead <= prodTail <= prodHead <= consTail + size - 1, and no check but the one at line 289 fails, no slot is read dead or overwritten live |
| LockFreeQueueTheorems.Fifo | kernel/src/runtime/LockFreeQueue.h:184-235 | over every run the delivered items are exactly the prefix of the reserved stream up to consTail, each once and in order, and every finished call reports its own stretch of it |
| LockFreeQueueOrder.RealTime | kernel/src/runtime/LockFreeQueue.h:169-333 | a call that was finished when another began has the earlier stretch of the stream: inserts, pops, and a pop before an insert |
| LockFreeQueueOrder.HeadsGrow | kernel/src/runtime/LockFreeQueue.h:203-211 | no step moves a head counter back |
| LockFreeQueueTheorems.Exclusive | kernel/src/runtime/LockFreeQueue.h:220-225 | two threads never own positions that share a storage slot |
| LockFreeQueueTheorems.OwnedInWindow | kernel/src/runtime/LockFreeQueue.h:220-225 | what a thread owns lies in the pending reservations, recorded as its own |
| LockFreeQueueTheorems.WriterProgress | kernel/src/runtime/LockFreeQueue.h:227-233 | while a write reservation is pending the holder of the oldest one can make a step |
| LockFreeQueueTheorems.ReaderProgress | kernel/src/runtime/LockFreeQueue.h:324-330 | the same for read reservations |
| LockFreeQueueTheorems.InsertRefusedWhenFull | kernel/src/runtime/LockFreeQueue.h:189-202 | insert returns 0 only when the ring lacks the room asked for, and always then if its head is up to date |
| LockFreeQueueTheorems.PopRefusedWhenEmpty | kernel/src/runtime/LockFreeQueue.h:284-298 | pop returns 0 only when the items asked for are not ready, and always then if its head is up to date |
| LockFreeQueueOutcome.InsertOutcome | kernel/src/runtime/LockFreeQueue.h:169-236 | over every run a finished insert has inserted all its items, or part of them if that was asked for, or none; if not all, it passed through a state of that call, about to look at the ring, in which there was no room for more |
| LockFreeQueueOutcome.InsertStep | kernel/src/runtime/LockFreeQueue.h:189-236 | the same as a law of every step inside insert, a lost compare-exchange included |
| LockFreeQueueOutcome.RetryReserves | kernel/src/runtime/LockFreeQueue.h:203-213 | a compare-exchange fails exactly when the head has moved on; with room in the ring two more undisturbed steps then reserve the items |
| LockFreeQueueOutcome.PopOutcome | kernel/src/runtime/LockFreeQueue.h:268-333 | over every run a finished pop has as many items as asked for, or fewer if that was allowed, or none; if not all, it passed through a state of that call in which no more were ready |
| LockFreeQueueOutcome.PopStep | kernel/src/runtime/LockFreeQueue.h:276-333 | the same as a law of every step inside pop |
| LockFreeQueueOutcome.RetryClaims | kernel/src/runtime/LockFreeQueue.h:300-310 | the retry of pop |
| LockFreeQueueTheorems.OverflowIff | kernel/src/runtime/LockFreeQueue.h:288-289 | the ready-entries check fires exactly when the loaded head is a whole ring behind the producers |
| LockFreeQueueSolo.SoloInsert | kernel/src/runtime/LockFreeQueue.h:169-236 | undisturbed, an insert that fits runs to its end and publishes exactly its items |
| LockFreeQueueSolo.SoloPop | kernel/src/runtime/LockFreeQueue.h:268-333 | undisturbed, a pop of ready items returns exactly the oldest ones |
| LockFreeQueueSolo.OverflowReachable | kernel/src/runtime/LockFreeQueue.h:288-289 | for every ring of two slots or more, any two consumers and any producer other than the first of them, there is a run in which that check of the first fires |
| LockFreeQueueSolo.OneConsumerNeverOverflows | kernel/src/runtime/LockFreeQueue.h:288-289 | in no run with a single consumer it does |
| BinarySearchTree.RotateLeftZip | kernel/src/runtime/RedBlackTree.h:77-97 | the pointer writes of a left rotation turn a(x)(b y c) into (a x b)(y)c under any path and disturb nothing else |
| BinarySearchTree.RotateRightZip | kernel/src/runtime/RedBlackTree.h:102-122 | the mirror image |
| BinarySearchTree.BinarySearchTree.LeftRotate | kernel/src/runtime/RedBlackTree.h:77-97 | the method writes exactly the links that `RotatedLeft` names, the parent or root link included |
| BinarySearchTree.BinarySearchTree.RightRotate | kernel/src/runtime/RedBlackTree.h:102-122 | the mirror image |
| BinarySearchTree.BinarySearchTree.InsertAt | kernel/src/runtime/BinarySearchTree.h:214-238 | links the leaf at the one place where its key belongs; fails, with nothing linked, exactly when the key is taken |
| BinarySearchTree.BinarySearchTree.FindKey | kernel/src/runtime/BinarySearchTree.h:184-201 | finds a node with the key exactly when some entry has it |
| BinarySearchTree.BinarySearchTree.FindMin | kernel/src/runtime/BinarySearchTree.h:335-340 | the first node in key order, or null |
| BinarySearchTree.BinarySearchTree.Unlink | kernel/src/runtime/BinarySearchTree.h:273-298 | a node with at most one child is replaced by that child under any path |
| BinarySearchTree.UnlinkZip | kernel/src/runtime/BinarySearchTree.h:273-298 | those writes describe the same path around the child, without the node |
| BinarySearchTree.BinarySearchTree.RemoveTwoChildren | kernel/src/runtime/BinarySearchTree.h:262-271 | copying from the successor and removing that drops exactly the node's entry and frees one node |
| BinarySearchTree.ReplaceBySuccessor | kernel/src/runtime/BinarySearchTree.h:262-271 | copying the successor's payload and dropping the successor drops exactly the node's own entry |
| BinarySearchTree.BinarySearchTree.RemoveAt | kernel/src/runtime/BinarySearchTree.h:250-300 | removal below any path: outcome, shape and entries |
| BinarySearchTree.BinarySearchTree.Remove | kernel/src/runtime/BinarySearchTree.h:250-300 | removes exactly the entry with the key and keeps the tree valid; not found iff no entry has the key; the null parent iff the root has the key and exactly one child |
| BinarySearchTree.BinarySearchTree.Begin | kernel/src/runtime/BinarySearchTree.h:174-176 | the first node of the in-order sequence |
| BinarySearchTree.BinarySearchTree.ClimbToNext | kernel/src/runtime/BinarySearchTree.h:66-81 | climbing while coming from the right ends at the first node after the subtree |
| BinarySearchTree.BinarySearchTree.Increment | kernel/src/runtime/BinarySearchTree.h:52-82 | from the i-th node of the in-order sequence to the next, or to null after the last |
| RedBlackTheory.RecolorMovesUp | kernel/src/runtime/RedBlackTree.h:134-140 | a red uncle: recolouring moves the only violation two levels up |
| RedBlackTheory.InnerRotation | kernel/src/runtime/RedBlackTree.h:142-145 | an inner child becomes an outer one and the violation stays where it was |
| RedBlackTheory.OuterRotation | kernel/src/runtime/RedBlackTree.h:147-149 | recolouring and rotating an outer child removes the violation and keeps the black heights |
| RedBlackTheory.BlackenEnds | kernel/src/runtime/RedBlackTree.h:177-178 | blackening the root of a tree without other violation gives a red-black tree |
| RedBlackTheory.HeightBound | kernel/src/runtime/RedBlackTree.h:38-43 | the height of a red-black tree of n nodes is at most 2 log2(n + 1) |
| RedBlackTree.RedBlackTree.Recolor | kernel/src/runtime/RedBlackTree.h:134-140 | parent and uncle black, grandparent red, on the heap |
| RedBlackTree.RedBlackTree.RotateInner | kernel/src/runtime/RedBlackTree.h:142-145 | the rotation of the inner case, on either side |
| RedBlackTree.RedBlackTree.RotateOuter | kernel/src/runtime/RedBlackTree.h:147-149 | the recolouring and rotation of the outer case, on either side |
| RedBlackTree.RedBlackTree.Blacken | kernel/src/runtime/RedBlackTree.h:177-178 | blackening the root leaves a red-black tree on the heap |
| RedBlackTree.RedBlackTree.RepairStep | kernel/src/runtime/RedBlackTree.h:131-175 | one turn of the repair loop: in each of the six cases what is left to repair lies strictly higher, and the entries stay |
| RedBlackTree.RedBlackTree.RepairPostInsert | kernel/src/runtime/RedBlackTree.h:128-179 | the loop ends in a red-black tree with the same entries |
| RedBlackTree.RedBlackTree.Insert | kernel/src/runtime/RedBlackTree.h:260-280 | succeeds iff the key is new; then the pointer tree is red-black and ordered, parent links mirror child links, and the entries are the old ones with the new one |
| MapTree.RangeTestExact | kernel/src/vm/MapTree.h:73-83 | for ranges that do not wrap the four comparisons decide whether the intervals share an address |
| MapTree.RangeTestIff | kernel/src/vm/MapTree.h:73-83 | the test is right about every window exactly for ranges that are not empty and do not wrap |
| MapTree.Misjudges | kernel/src/vm/MapTree.h:73-83 | for every other range, a window that it judges wrongly |
| MapTree.CoverSides | kernel/src/vm/MapTree.h:272-289 | which side of a window an address can be mapped on |
| MapTree.MapTree.Find | kernel/src/vm/MapTree.h:272-289 | one descent finds a window that covers the address exactly when a scan of all windows would |
| MapTree.MapTree.FindOverlapping | kernel/src/vm/MapTree.h:297-311 | the first window in search order that the test accepts, null iff there is none |
| MapTree.MapTree.LeafFor | kernel/src/vm/MapTree.h:250-260 | the first window in search order backed by the object, null iff there is none |
| MapTree.PreorderEntries | kernel/src/vm/MapTree.h:297-311 | the full searches visit exactly the windows of the map |
| MapTree.MapTree.IsRegionFree | kernel/src/vm/MapTree.h:198-203 | free iff the test rejects every window; otherwise the end of the first accepted one |
| MapTree.MapTree.BaseAddressFor | kernel/src/vm/MapTree.h:116-138 | base and size of that window, 0 if the object is not mapped |
| MapTree.MapTree.Insert | kernel/src/vm/MapTree.h:214-218 | adds exactly the window; fails iff its base is taken |
| AddressSearch.ProbeAdvancesIff | kernel/src/vm/Map.cpp:239-247 | skipping to the end of the reported window, whichever it is, moves forward exactly when the range does not wrap and is not empty, or is empty at address 0 |
| AddressSearch.LimitHonouredIff | kernel/src/vm/Map.cpp:239 | on any map a place below the wrapping limit ends below searchEnd exactly when the size is at most searchEnd |
| AddressSearch.ForeverIff | kernel/src/vm/Map.cpp:239-247 | the search never ends exactly when it has not ended after one probe per window and one more |
| AddressSearch.ForeverTrapIff | kernel/src/vm/Map.cpp:239-247 | the same as a condition on the map: the first probe leads into a set of window ends below the limit that probing does not leave |
| AddressSearch.EmptyForeverIff | kernel/src/vm/Map.cpp:239-247 | the exact condition for objects of size 0 |
| AddressSearch.OneWindowForeverIff | kernel/src/vm/Map.cpp:239-247 | the exact condition for a map of one window, every size and bounds |
| AddressSearch.ForeverNeedsHigh | kernel/src/vm/Map.cpp:239-247 | for other sizes some window ends below the limit where the object would pass the top of the address space |
| AddressSearch.FittingEnds | kernel/src/vm/Map.cpp:239-247 | the search for an object that fits below searchEnd always ends |
| AddressSearch.SearchedPlaced | kernel/src/vm/Map.cpp:235-251 | and finds the lowest free place, or there is none |
| AddressSearch.AlwaysPlacedIff | kernel/src/vm/Map.cpp:235-251 | for all words: in every map the outcome is the lowest free place, or a refusal when there is none, if and only if 0 < size <= searchEnd or the wrapped limit is at most searchStart |
| AddressSearch.SpoilerWorks | kernel/src/vm/Map.cpp:235-251 | for all other arguments, a map of at most one window in which the outcome is a place beyond searchEnd, a refusal although a place is free, or an endless search |
| AddressSearch.SearchedOnce | kernel/src/vm/Map.cpp:235-251 | a search has one outcome |
| AddressSearch.EmptyStandsStill | kernel/src/vm/Map.cpp:239-247 | a search for size 0 from the end of any window never ends |
| AddressSearch.PlacedBeyondEnd | kernel/src/vm/Map.cpp:239 | a search from 0x1000 to 0x2000 places 0x100000 bytes at 0x1000 |
| AddressSearch.PlacedBelowStart | kernel/src/vm/Map.cpp:239-247 | a search from 0x2000 that places its object at 0x1000 |
| AddressSearch.TopWindowSendsBack | kernel/src/vm/Map.cpp:239-247 | a window that ends exactly at 2^64 sends a search from 0x1000 back to 0, where it places an object that fits |
| AddressSearch.TestIsFree | kernel/src/vm/Map.cpp:228-231 | in a disjoint map the test accepts exactly the free ranges |
| AddressSearch.ProbeStep | kernel/src/vm/Map.cpp:239-247 | after a failed probe everything up to the end of the reported window is taken and one more window lies behind |
| AddressSpace.Map.Search | kernel/src/vm/Map.cpp:235-251 | for all sizes and bounds: the outcome is that of the probed addresses, endless exactly when every probe fails; a place passes the overlap test and ends below searchEnd exactly when the size allows; the lowest free place or none, whenever the arguments are such that this holds in every map; at most one probe per window and one more before it ends or repeats |
| AddressSpace.Map.Add | kernel/src/vm/Map.cpp:213-266 | fixed and searching form, for all arguments; the entries gain exactly the new window, the equal-key panic is unreachable, and the map stays one of disjoint ordered windows below 2^64 if and only if the new one is not empty and ends below 2^64 |
| AddressSpace.Map.Remove | kernel/src/vm/Map.cpp:341-363 | takes out the first window backed by the object, keeps the others; not mapped, done or null parent, each exactly when |
| AddressSpace.NullParentReached | kernel/src/vm/Map.cpp:341-363 | of two mapped objects the one at the root meets the null parent |
| AddressSpace.Map.FindRegion | kernel/src/vm/Map.cpp:275-287 | found iff some window covers the address, with the offset into it |
| AddressSpace.WindowsInsert | kernel/src/vm/Map.cpp:253-255 | a window that meets no other joins a disjoint ordered map |
| AddressSpace.WindowsDrop | kernel/src/vm/Map.cpp:355 | removal keeps the windows disjoint and ordered |
| AddressSpace.ClearMeansNewKey | kernel/src/vm/Map.cpp:228-231 | a range that passes the overlap test never has a taken base address |
| AddressSpace.AddRemove | kernel/src/vm/Map.cpp:255 | removing what was just added gives back the same map |
| MapEntry.MapEntry.FaultInPage | kernel/src/vm/MapEntry.cpp:191-242 | maps the page, taking one from the allocator only if it is not owned; the pages owned and the pages left are conserved |
| MapEntry.MapEntry.DetectFaultSequence | kernel/src/vm/MapEntry.cpp:249-317 | the detector's next state and exactly which pages it brings in; `FaultSequence` says what runs of faults come to |
| MapEntry.MapEntry.ContinueSequence | kernel/src/vm/MapEntry.cpp:278-314 | the same for a sequence that continues |
| MapEntry.MapEntry.TakePage | kernel/src/vm/MapEntry.cpp:229-231 | a page with a new key enters the tree; the insertion never meets an equal key |
| MapEntry.InsertPage | kernel/src/vm/MapEntry.cpp:229-231 | the pages owned are the old ones and the new one, and keys stay inside the object |
| MapEntry.MapEntry.Prefault | kernel/src/vm/MapEntry.cpp:293-300 | the loop stops at the first page past the end of the object |
| MapEntry.PrefaultGrowsByOne | kernel/src/vm/MapEntry.cpp:286-306 | while the sequence goes on each fault prefaults one page more, up to 64 |
| MapEntry.AheadIsOther | kernel/src/vm/MapEntry.cpp:293-299 | a prefault never asks for the page being faulted in, wrap-around included |
| MapEntry.AheadDistinct | kernel/src/vm/MapEntry.cpp:293-299 | no two prefaults of a fault ask for the same page |
| MapEntry.MapEntry.FaultInNew | kernel/src/vm/MapEntry.cpp:215-241 | the page taken before the detector runs enters the tree after it without ever meeting an equal key |
| MapEntry.MapEntry.HandlePagefault | kernel/src/vm/MapEntry.cpp:161-182 | refused exactly for mapped, present or out of range faults; otherwise the page is owned and mapped, at most 64 more are, which ones, pages are conserved and keys stay inside the object; stops exactly when the supply is shorter than the number of missing pages |
| FaultSequence.ThreeFaults | kernel/src/vm/MapEntry.cpp:249-317 | three faults at pages p, p + d and p + 2d from an idle detector that has counted nothing: the first two own their page only, the third also the next page if the object has it |
| FaultSequence.Run | kernel/src/vm/MapEntry.cpp:249-317 | any number of faults a stride apart from an idle detector: the first two bring in their own page, the k-th continuing one k pages ahead as well, at most 64, as far as the object reaches; the detector goes on unless the last lead passed the end |
| FaultSequence.AheadInterval | kernel/src/vm/MapEntry.cpp:293-299 | the pages ahead are exactly the next ones inside the object |
| FaultSequence.OffRun | kernel/src/vm/MapEntry.cpp:264-285 | a fault off the run brings in its own page only and stops the detection; when the counting restarts |
| FaultSequence.CountSurvives | kernel/src/vm/MapEntry.cpp:274-276 | after a backward fault a new run brings in two pages at its third fault, not one |
| MapEntry.MapEntry.FaultInAllPages | kernel/src/vm/MapEntry.cpp:327-353 | owns exactly the pages 0 to length / 4096 - 1, if there are that many |
| MapEntry.MapEntry.Resize | kernel/src/vm/MapEntry.cpp:119-150 | accepts whole non-zero pages; the bound on keys survives exactly when no page lies past the new end |
| MapEntry.MapEntry.Destroy | kernel/src/vm/MapEntry.cpp:53-61 | frees each owned page exactly once, in the order of their offsets |
| SmartPointersProof.StepInv | kernel/src/runtime/SmartPointers.h:108-453 | every step of every thread keeps counts, claims and operations in progress consistent |
| SmartPointersProof.SubUseInv | kernel/src/runtime/SmartPointers.h:119-134 | the step that gives up a strong reference keeps it, the last one included |
| SmartPointersProof.CallDestroyInv | kernel/src/runtime/SmartPointers.h:119-134 | so does the destruction of the object |
| SmartPointersProof.UnweakInv | kernel/src/runtime/SmartPointers.h:119-134 | so does giving up the owners' common weak reference |
| SmartPointersProof.TryLockInv | kernel/src/runtime/SmartPointers.h:434-453 | so does a turn of the lock loop, whatever the count has become since it was loaded |
| SmartPointersTheorems.RunInv | kernel/src/runtime/SmartPointers.h:108-453 | the invariant holds in every state of every run |
| SmartPointersTheorems.FinishingIff | kernel/src/runtime/SmartPointers.h:119-134 | some thread is finishing off the object exactly from the last release to giving up that weak reference |
| SmartPointersTheorems.UseStaysZero | kernel/src/runtime/SmartPointers.h:434-453 | no step raises a use count of zero |
| SmartPointersTheorems.Safety | kernel/src/runtime/SmartPointers.h:108-134 | in every reachable state useCount is the number of strong pointers, weakCount that of weak pointers plus one until the last owner has let go, object and block are destroyed and freed at most once, nothing is touched afterwards |
| SmartPointersTheorems.NoLeak | kernel/src/runtime/SmartPointers.h:119-134 | with no operation in progress an object without strong pointers has been destroyed exactly once and a block without pointers freed exactly once |
| SmartPointersTheorems.UseStaysZeroForever | kernel/src/runtime/SmartPointers.h:434-453 | in every run a use count of zero stays zero |
| SmartPointersTheorems.LockAfterDestruction | kernel/src/runtime/SmartPointers.h:434-453 | once the count is zero no turn of a lock yields a strong pointer, whatever it had seen |
| SmartPointersCalls.LockOutcome | kernel/src/runtime/SmartPointers.h:434-453 | over every run a lock that ends without a pointer ends in a state in which the object has no strong pointer; one that ends with a pointer has it in its target, to the object of the weak pointer it was called on, which is alive |
| SmartPointersCalls.LockTurns | kernel/src/runtime/SmartPointers.h:441-452 | every turn of the loop: nothing while no strong pointer exists; otherwise a further one, or the count differs from the one last seen and is seen now |
| SmartPointersCalls.Targets | kernel/src/runtime/SmartPointers.h:151-453 | in every reachable state, what every operation does to the pointers: a copy points where its source does, a dropped pointer is gone, everything else stays |
| SmartPointersTheorems.ShareRawIff | kernel/src/runtime/SmartPointers.h:207-223 | sharing from a raw pointer keeps the invariant exactly when a strong pointer exists |
| SmartPointersTheorems.ShareRawDangles | kernel/src/runtime/SmartPointers.h:207-223 | sharing from a raw pointer during destruction does not stop it, and using the new pointer afterwards is an access to a dead object |
| SmartPointersTheorems.ShareRawReached | kernel/src/runtime/SmartPointers.h:207-223 | a run of three steps reaches such a state |
| MinHeap.HeapMin | kernel/src/runtime/MinHeap.h:60-63 | the first element of a heap is a smallest |
| MinHeap.SwapUp | kernel/src/runtime/MinHeap.h:136-143 | swapping with a larger parent moves the one possible violation up |
| MinHeap.SwapDown | kernel/src/runtime/MinHeap.h:148-166 | swapping with the smallest child moves it down |
| MinHeap.PopAtDown | kernel/src/runtime/MinHeap.h:172-190 | an element replaced by a larger one can only be too large for its place |
| MinHeap.PopAtUp | kernel/src/runtime/MinHeap.h:172-190 | one replaced by a smaller one can only be too small |
| MinHeap.MinHeap.HeapifyUp | kernel/src/runtime/MinHeap.h:136-143 | restores the heap when only one element may be too small, and permutes |
| MinHeap.MinHeap.HeapifyDown | kernel/src/runtime/MinHeap.h:148-166 | restores the heap when only one element may be too large, and permutes |
| MinHeap.MinHeap.Insert | kernel/src/runtime/MinHeap.h:36-43 | keeps the heap and adds exactly the element |
| MinHeap.MinHeap.Extract | kernel/src/runtime/MinHeap.h:48-55 | keeps the heap and removes exactly the first element |
| MinHeap.MinHeap.Min | kernel/src/runtime/MinHeap.h:60-63 | no element is smaller |
| MinHeap.MinHeap.Remove | kernel/src/runtime/MinHeap.h:172-190 | keeps the heap and removes exactly the element at the index: one comparison decides the direction correctly |
| Scheduler.ProcessDeadlines | kernel/src/sched/Scheduler.cpp:702-730 | fires exactly the deadlines due by now plus 500 ns, in nondecreasing order, and keeps exactly the others |
| Scheduler.LevelFor | kernel/src/sched/Scheduler.cpp:355-362 | the result is a level that exists and the thread may have, and its own level if that is one |
| Scheduler.QuantumSteps | kernel/src/sched/Scheduler.cpp:29-40 | the quantum of each level: 3, 6, 12 and 20 ms for the kernel levels, then growing by 5, 10, 25 and 100 ms |
| Scheduler.Thread.constructor | kernel/src/sched/Scheduler.cpp:101-113 | a thread starts at its best level, 0 or 4 |
| Scheduler.Thread.UpdateQuantumLength | kernel/src/sched/Scheduler.cpp:635-647 | the quantum becomes that of the thread's level |
| Scheduler.Thread.UpdateQuantumUsed | kernel/src/sched/Scheduler.cpp:661-694 | the level rises by at most one and stays in range, the ledger cpuTime = expired quanta + quantumUsed balances modulo 2^64, and when the excess outgrows the next quantum |
| Scheduler.ExcessOutgrows | kernel/src/sched/Scheduler.cpp:673-690 | a thread charged one second at once is left with more used than its next quantum |
| Scheduler.Ledger | kernel/src/sched/Scheduler.cpp:661-694 | charging time keeps the ledger balanced modulo 2^64 |
| Scheduler.Scheduler.Schedule | kernel/src/sched/Scheduler.cpp:312-345 | the thread joins the queue of its level with that level's quantum; never a better level than it may have |
| Scheduler.Scheduler.PopEligible | kernel/src/sched/Scheduler.cpp:247-287 | the first eligible thread of a queue; those before it are dropped, the dying ones terminated |
| Scheduler.Scheduler.PopBetween | kernel/src/sched/Scheduler.cpp:247-287 | popping a level while other cores push and step between the pops: the outcome, the queues, the epoch and the terminated threads are as if all of it before the last pop had happened before the first |
| Scheduler.Scheduler.PassLevel | kernel/src/sched/Scheduler.cpp:247-287 | the first eligible thread of one level, or the level emptied and then the pushes and epoch steps of other cores |
| Scheduler.Scheduler.Pass | kernel/src/sched/Scheduler.cpp:244-288 | while other cores push threads and, separately, move the epoch between any two looks: the first eligible thread of the best level that has one when it is looked at, what each queue loses, and the epoch after it |
| Scheduler.BehindIff | kernel/src/sched/Scheduler.cpp:244-301 | a pass without success leaves exactly the threads that were pushed behind it: each level holds what was pushed onto it after its look, and all are empty if and only if nothing was |
| Scheduler.EpochTells | kernel/src/sched/Scheduler.cpp:290-296 | the compare-exchange finds the old epoch exactly when the number of steps during the pass is a multiple of 2^64, whatever was pushed |
| Scheduler.Scheduler.FindRunnableThread | kernel/src/sched/Scheduler.cpp:233-301 | whatever other cores push and step between looks: at most six passes, each but the last of which found nothing eligible and saw the epoch move; the last takes the first eligible thread of the best level that has one when looked at, or finds none and leaves exactly what was pushed behind it; given up before the sixth, the queues are empty if and only if no thread was pushed behind the look at its level by a core whose step is still outstanding, for fewer than 2^64 steps in a pass; the epoch after a search that found none; exactly which threads were terminated |
| Scheduler.Scheduler.Arrive | kernel/src/sched/Scheduler.cpp:332-338 | other cores' pushes change the queues and nothing else, their steps the epoch and nothing else |
| Scheduler.BeforeAt | kernel/src/sched/Scheduler.cpp:244-288 | what each level holds when any level is looked at: one looked at before, what was pushed onto it since; any other, what it had and all pushed onto it |
| Scheduler.PushersWait | kernel/src/sched/Scheduler.cpp:332-338 | while the epoch stands still every core that pushes is left between push and step |
| Scheduler.MissedIff | kernel/src/sched/Scheduler.cpp:290-301 | a pass without success and without an epoch step leaves the queues empty if and only if no thread was pushed behind the look at its level with its step outstanding |
| Scheduler.InterruptsSeen | kernel/src/sched/Scheduler.cpp:290-301 | if every push is directly followed by its step, such a pass leaves all queues empty |
| Scheduler.PushedBehind | kernel/src/sched/Scheduler.cpp:233-338 | an eligible thread pushed onto level 0 right after the look at it: the search returns none after one pass and the thread is in the queue |
| Arith64.Clz | kernel/arch/x86/src/math.c:121-130 | shifting by the result brings the highest one to the top bit |
| Arith64.ClzStep | kernel/arch/x86/src/math.c:121-130 | one halving step keeps the value shifted and clears the tested bits |
| Arith64.DivideStart | kernel/arch/x86/src/math.c:183-187 | the two leading-zero counts give a first state from which the loop can go on |
| Arith64.WrapTrick | kernel/arch/x86/src/math.c:192-193 | the sign of b - rem - 1 tells whether the divisor goes in, for divisors of 64 bits too |
| Arith64.DivideStep | kernel/arch/x86/src/math.c:188-194 | one turn keeps: bits read so far = quotient bits * divisor + remainder |
| Arith64.LongDivision | kernel/arch/x86/src/math.c:183-196 | the branch-free loop yields quotient and remainder |
| Arith64.DivMod | kernel/arch/x86/src/math.c:158-197 | for all words a = q * b + r with r < b; traps iff b is 0 |
| Arith64.AbsValue | kernel/arch/x86/src/math.c:61-62 | invert and increment gives the magnitude, that of INT64_MIN included |
| Arith64.Div | kernel/arch/x86/src/math.c:200-204 | truncates toward zero exactly when not INT64_MIN / -1, which wraps |
| Arith64.Mod | kernel/arch/x86/src/math.c:233-238 | the remainder that belongs to truncation, with the sign of the dividend |
| Sha2Rounds.Expand | kernel/src/crypto/sha2.c:233-239 | the message schedule of the standard |
| Sha2Rounds.Rolled | kernel/src/crypto/sha2.c:233-261 | the rolled rounds compute the compression function of the standard |
| Sha2Rounds.Exp | kernel/src/crypto/sha2.c:116-123 | a macro that changes two registers is a round of the standard up to renaming registers |
| Sha2Rounds.ExpEight | kernel/src/crypto/sha2.c:290-293 | eight macros with rotated registers are eight rounds and restore the registers' names |
| Sha2Rounds.Unrolled | kernel/src/crypto/sha2.c:290-326 | the unrolled rounds compute the same function |
| Sha2Stream.FoldAppend | kernel/src/crypto/sha2.c:229-230 | folding over a concatenation is folding twice |
| Sha2Stream.Context.constructor | kernel/src/crypto/sha2.c:340-356 | nothing fed yet |
| Sha2Stream.Context.Rounds | kernel/src/crypto/sha2.c:232-326 | either form of the rounds folds one block into the hash value |
| Sha2Stream.Context.Transf | kernel/src/crypto/sha2.c:216-329 | folds the compression function over the blocks, exactly as long as the offset of the last one fits an int |
| Sha2Stream.Context.Update | kernel/src/crypto/sha2.c:358-390 | whole blocks of everything fed are folded in, the rest is buffered, the count is kept modulo 2^32; a length that wraps undoes the last 2^32 - len bytes fed; the offset overflows exactly from 2^31 bytes and two blocks on |
| Sha2Stream.Context.Absorb | kernel/src/crypto/sha2.c:370-373 | the part of update that stays in the buffer, or wraps |
| Sha2Stream.Context.LongUpdate | kernel/src/crypto/sha2.c:373-389 | the part of update that completes a block, with the same exact bound |
| Sha2Stream.FitsBelow | kernel/src/crypto/sha2.c:229-230 | the offset of the last block fits exactly below 2^31 bytes and one block |
| Sha2Stream.Context.WritePadding | kernel/src/crypto/sha2.c:406-410 | the marker, the zeros and four bytes of length are written behind the message |
| Sha2Stream.PaddingIff | kernel/src/crypto/sha2.c:402-410 | the padding written is the standard's exactly below 2^29 bytes |
| Sha2Stream.PadLength | kernel/src/crypto/sha2.c:402-408 | one or two blocks leave room for exactly the zeros of the standard |
| Sha2Stream.Context.Final | kernel/src/crypto/sha2.c:392-417 | the result is the fold over everything fed with its padding |
| Sha256.HashPieces | kernel/src/crypto/sha2.c:331-428 | with either form of the rounds, however a message below 2^29 bytes is cut into updates, the 32 bytes are the digest that FIPS 180-2 defines |
| Sha512.HashPieces | kernel/src/crypto/sha2.c:527-625 | the same for SHA-512, 64 bytes |
| Sha2Standard.HashStandard | kernel/src/crypto/sha2.c:216-428 | padding, schedule, rounds and sums of the model are the standard's: functions given bit by bit, sums modulo the word range, byte strings as numbers |
| Sha2Standard.CompressStandard | kernel/src/crypto/sha2.c:232-326 | one block |
| Sha2Standard.ScheduleStandard | kernel/src/crypto/sha2.c:104-114 | the message schedule |
| Sha2Standard.RoundStandard | kernel/src/crypto/sha2.c:116-134 | one round |
| Sha2Standard.BigSigmaIs | kernel/src/crypto/sha2.c:46-60 | every bit of the three rotations is the sum of three bits of the word, counted around |
| Sha2Standard.SmallSigmaIs | kernel/src/crypto/sha2.c:46-60 | the same for two rotations and a shift |
| Sha2Standard.ChoiceIs | kernel/src/crypto/sha2.c:49 | every bit chooses between two words |
| Sha2Standard.MajorityIs | kernel/src/crypto/sha2.c:50 | every bit is the majority of three |
| Sha2Standard.PaddingMeans | kernel/src/crypto/sha2.c:402-410 | a one bit, zeros and the length in bits fill whole blocks, and no block too many |
| Sha2Standard.DigestMeans | kernel/src/crypto/sha2.c:415-417 | each word of the digest, read as a number, is the word of the hash value |
| Sha256.PackIs | kernel/src/crypto/sha2.c:70-76 | four bytes are read as a number, most significant first |
| Sha256.UnpackIs | kernel/src/crypto/sha2.c:62-68 | a word is written as its four bytes, most significant first |
| Sha256.PackUnpack | kernel/src/crypto/sha2.c:62-76 | reading undoes writing |
| Sha256.RoundConstants | kernel/src/crypto/sha2.c:154-170 | the round constants are the first 32 bits of the fractional parts of the cube roots of the first 64 primes |
| Sha256.InitialValue | kernel/src/crypto/sha2.c:138-140 | the initial value is that of the square roots of the first eight |
| Sha512.PackIs | kernel/src/crypto/sha2.c:90-100 | eight bytes are read as a number, most significant first |
| Sha512.UnpackIs | kernel/src/crypto/sha2.c:78-88 | a word is written as its eight bytes, most significant first |
| Sha512.PackUnpack | kernel/src/crypto/sha2.c:78-100 | reading undoes writing |
| Sha512.RoundConstants | kernel/src/crypto/sha2.c:172-212 | the first 64 bits of the cube roots of the first 80 primes |
| Sha512.InitialValue | kernel/src/crypto/sha2.c:148-152 | the square roots of the first eight |
| PhysRegion.Managed | kernel/src/mem/PhysRegion.cpp:45-51 | a region manages as many whole pages of its run as fit, up to the maximum, and at least four |
| PhysRegion.Region.constructor | kernel/src/mem/PhysRegion.cpp:84-99 | every page but the last is free |
| Bitmap.Lowest | kernel/src/mem/PhysRegion.cpp:160-164 | the lowest bit that is set |
| PhysRegion.ClearFree | kernel/src/mem/PhysRegion.cpp:169 | clearing a bit takes exactly that page |
| PhysRegion.SetFree | kernel/src/mem/PhysRegion.cpp:218 | setting a bit frees exactly that page |
| PhysRegion.Region.Scan | kernel/src/mem/PhysRegion.cpp:158-182 | a scan from the hint takes some free page, or there is none from there on |
| PhysRegion.Region.Alloc | kernel/src/mem/PhysRegion.cpp:152-191 | takes some free page exactly when there is one, wherever the search hint points |
| PhysRegion.Region.Free | kernel/src/mem/PhysRegion.cpp:203-228 | frees exactly the page of the address; ignores other regions' addresses; refuses the page never handed out |
| PhysRegion.Region.InitNext | kernel/src/mem/PhysRegion.cpp:108-143 | the chained regions follow one another without gap or overlap and leave at most four pages of the run |
| PhysicalAllocator.MakeHeads | kernel/src/mem/PhysicalAllocator.cpp:51-76 | a fresh region for each range that is large enough, in order |
| PhysicalAllocator.PhysicalAllocator.constructor | kernel/src/mem/PhysicalAllocator.cpp:40-79 | exactly the ranges that are large enough become regions, in order, and nothing is held |
| PhysicalAllocator.PhysicalAllocator.NotifyVm | kernel/src/mem/PhysicalAllocator.cpp:85-91 | building the chains keeps what is held and every invariant, and leaves at most four pages of each range out |
| PhysicalAllocator.PhysicalAllocator.AllocPage | kernel/src/mem/PhysicalAllocator.cpp:100-127 | a page nobody holds, of one region; fails exactly when every bitmap is empty; the counter counts the pages held |
| PhysicalAllocator.PhysicalAllocator.FreePage | kernel/src/mem/PhysicalAllocator.cpp:132-152 | for any address: which of its outcomes, which page it frees, and that the allocator stays consistent exactly when that page was held |
| PhysicalAllocator.PhysicalAllocator.FreeInChain | kernel/src/mem/PhysicalAllocator.cpp:135-147 | the same for one chain |
| PhysicalAllocator.PhysicalAllocator.FreeIn | kernel/src/mem/PhysicalAllocator.cpp:139-143 | the same for the region that contains the address |
| PhysicalAllocator.PhysicalAllocator.TryChain | kernel/src/mem/PhysicalAllocator.cpp:109-123 | a chain yields a page nobody holds unless all its regions are exhausted |
| PhysicalAllocator.OneRegion | kernel/src/mem/PhysRegion.h:50-52 | an address lies in at most one of the regions |
| HandleManager.Packed | kernel/src/handle/Manager.h:269-274 | shifting and masking puts the three fields side by side |
| HandleManager.RoundTrip | kernel/src/handle/Manager.h:248-274 | the getters give back index, epoch and type of a packed handle, modulo the field widths |
| HandleManager.MatchesIff | kernel/src/handle/Manager.h:317-328 | the epochs of an issued handle and its slot agree exactly after a multiple of 2^20 advances |
| HandleManager.ResolveIssuedIff | kernel/src/handle/Manager.h:316-334 | a handle resolves to its own object while current and alive and to nothing otherwise, exactly unless the slot moved on by a positive multiple of 2^20 and holds something alive |
| HandleManager.ResolveOtherIff | kernel/src/handle/Manager.h:316-334 | exactly when it resolves to another object |
| HandleManager.ResolveIssued | kernel/src/handle/Manager.h:316-334 | fewer than 2^20 advances never confuse a handle |
| HandleManager.ReleaseIssuedIff | kernel/src/handle/Manager.h:345-367 | releasing has an effect only while the handle is current, exactly unless the slot moved on by a positive multiple of 2^20 |
| HandleManager.SameWordIff | kernel/src/handle/Manager.h:269-274 | two handles of a table are the same word exactly for the same slot a multiple of 2^20 epochs apart |
| HandleManager.ResolveAliases | kernel/src/handle/Manager.h:316-367 | an issued handle such a multiple behind the current one of its slot resolves to that one's object, and releasing it takes the slot away from that one |
| HandleManager.CurrentDistinct | kernel/src/handle/Manager.h:269-274 | current handles are different words |
| HandleManager.StaleForever | kernel/src/handle/Manager.h:337-367 | a handle that is not current never becomes current again |
| HandleManager.Table.Allocate | kernel/src/handle/Manager.h:289-311 | the first slot whose object is gone, in its next epoch, or a new slot in epoch 0; a slot and epoch never issued before; live handles stay current |
| HandleManager.Table.Get | kernel/src/handle/Manager.h:316-334 | the object of the slot if epochs agree and it exists |
| HandleManager.Table.Release | kernel/src/handle/Manager.h:345-367 | advances and clears the slot exactly when index and epoch agree; otherwise nothing changes |
| HandleManager.Reissue | kernel/src/handle/Manager.h:289-367 | releasing and giving out the one slot of a table takes it two epochs on |
| HandleManager.AliasReached | kernel/src/handle/Manager.h:289-367 | after 2^19 such turns the first handle of the table is the same word as the last and resolves to that one's object |
| HandleManager.GetAccepts | kernel/src/handle/Manager.h:78-87 | a lookup accepts exactly its own kind of handle |
| HandleManager.ReleaseAccepts | kernel/src/handle/Manager.h:186-196 | a release function accepts its own kind exactly when that is not the interrupt handler |
| Serialization.Layout | tools/idlc/src/CodeGenerator+Serialization.cpp:310-343 | sizes; offsets from 0 on, each where the field before ends; the start of the blobs, aligned to 8 |
| Serialization.Extents | tools/idlc/src/CodeGenerator+Serialization.cpp:354-360 | fields and blobs lie inside the message and never overlap |
| Serialization.BytesFor | tools/idlc/src/CodeGenerator+Serialization.cpp:361-375 | the exact size of the message |
| Serialization.Serialize | tools/idlc/src/CodeGenerator+Serialization.cpp:381-418 | every argument is found where it belongs and nothing behind the message changes |
| Serialization.SerializeOne | tools/idlc/src/CodeGenerator+Serialization.cpp:386-413 | one argument is added and the earlier ones stay where they are |
| Serialization.Le32RoundTrip | tools/idlc/src/CodeGenerator+Serialization.cpp:405-407 | offsets and lengths survive four little-endian bytes |
| Serialization.Le32Bytes | tools/idlc/src/CodeGenerator+Serialization.cpp:405-407 | the value of each of the four bytes, and that reading adds them up |
| Serialization.FieldWidths | tools/idlc/src/CodeGenerator+Serialization.cpp:20-33 | a number takes its bits, a truth value one byte, a blob two 32-bit words |
| Serialization.DeserializeOne | tools/idlc/src/CodeGenerator+Serialization.cpp:430-459 | one argument is what stands where it belongs, or its span leaves the message |
| Serialization.Deserialize | tools/idlc/src/CodeGenerator+Serialization.cpp:424-464 | gives back whatever values the message encodes, and of any message what stands where each argument belongs; refuses exactly short messages; out of bounds exactly when some span leaves the message |
| Serialization.SpanOutside | tools/idlc/src/CodeGenerator+Serialization.cpp:448 | a message of eight bytes whose span leaves it |
| Serialization.RoundTrip | tools/idlc/src/CodeGenerator+Serialization.cpp:377-464 | deserialize inverts serialize for every argument list below 2^32 bytes |
| Printf.DigitsMean | kernel/src/c/printf.c:281-288 | the digits stand for the value modulo base^32 |
| Printf.PrintsInFullIff | kernel/src/c/printf.c:281-288 | the digit loop yields all digits of a 64-bit number exactly when the base is not 2 or it is below 2^32 |
| PrintfReading.ReadsBackIff | kernel/src/c/printf.c:217-291 | what a number conversion prints, read back without spaces, sign and marker, is the number exactly when no digit is cut or overwritten, the marker is whole or absent and a minus has room; for every value, base, precision, width and flags |
| PrintfReading.KeptNumeral | kernel/src/c/printf.c:233-239 | the digits that the marker leaves stand for the value exactly when none of it is cut |
| PrintfReading.IntegerReadsBackIff | kernel/src/c/printf.c:672-752 | the same for the conversions d, i, u, x, X, o and b, with the condition spelled out for each base |
| PrintfReading.PointerReadsBackIff | kernel/src/c/printf.c:812-832 | the same for p |
| PrintfParsing.ParsesWritten | kernel/src/c/printf.c:591-669 | a conversion written with any flags, width, precision, length and character, wherever it stands in the format, parses to exactly these |
| PrintfParsing.IntegerPrints | kernel/src/c/printf.c:567-758 | for every written integer conversion: its argument is the one number of the type that the length names, signed or unsigned, that agrees with its bits; the text reads back as that number exactly where `Faithful` says; and how the text stands in its field |
| PrintfParsing.ValueMeans | kernel/src/c/printf.c:714-756 | the number printed is congruent to the argument and in the range of 8, 16, 32 or 64 bits |
| PrintfParsing.RepresentsOnce | kernel/src/c/printf.c:714-756 | there is only one such number |
| PrintfParsing.PointerPrints | kernel/src/c/printf.c:812-832 | a pointer reads back as the 64 bits of the argument exactly where `FaithfulPointer` says |
| PrintfParsing.StringPrints | kernel/src/c/printf.c:786-810 | a string, cut to its precision, stands at the end of the field that the flags or a negative width say, spaces around it |
| PrintfParsing.CharPrints | kernel/src/c/printf.c:767-784 | the same for a character |
| PrintfParsing.OtherPrints | kernel/src/c/printf.c:834-843 | a percent sign or unknown character is printed as it is |
| PrintfParsing.PlainPrints | kernel/src/c/printf.c:577-583 | text outside conversions is printed as it is |
| PrintfLayout.NumberLayout | kernel/src/c/printf.c:189-267 | sign, letter case and padding of a printed number |
| PrintfLayout.WidthIff | kernel/src/c/printf.c:189-267 | the text is as wide as asked for exactly unless zeros should fill more than 32 places |
| PrintfReading.HashEatsDigits | kernel/src/c/printf.c:233-239 | "%#4x" of 0x1234 prints 0x34 |
| PrintfReading.MinusDropped | kernel/src/c/printf.c:254-264 | where zeros fill the buffer a negative number is printed as a positive one |
| PrintfReading.MinusFiveIsFive | kernel/src/c/printf.c:254-264 | "%.32d" of -5 reads as 5 |
| Printf.PutDigits | kernel/src/c/printf.c:281-288 | the loop writes those digits, least significant first |
| Printf.Sink.Out | kernel/src/c/printf.c:133-138 | the buffer holds the beginning of the stream and is unchanged behind it |
| Printf.OutRev | kernel/src/c/printf.c:189-213 | the number reversed, padded on the right side |
| Printf.NtoaFormat | kernel/src/c/printf.c:217-267 | leading zeros, base marker and sign within 32 characters |
| Printf.Ntoa | kernel/src/c/printf.c:271-291 | the text of an integer conversion, whose number `ReadsBackIff` tells |
| Printf.OutString | kernel/src/c/printf.c:786-810 | the text of a string conversion |
| Printf.OutChar | kernel/src/c/printf.c:767-784 | the text of a character conversion |
| Printf.Convert | kernel/src/c/printf.c:672-839 | each conversion appends its text and takes its arguments; `PrintfParsing` says what the text means |
| Printf.Vsnprintf | kernel/src/c/printf.c:567-847 | the text does not depend on the buffer; its first maxlen - 1 characters and a NUL are stored, nothing at or past maxlen is written, the whole length is returned if it fits an int |

## Left out

- Weak memory: the ring and the counts are modelled with sequentially consistent memory.
- LockFreeQueue: `resize`, `capacityFree` and the destructor, documented as not thread safe; `size` and `empty`.
- LockFreeQueueTheorems.WriterProgress: no fairness, so spinning threads are enabled but not shown to finish under every schedule.
- Counter laps: a thread delayed while a ring counter goes once around 2^64 is excluded from runs.
- Red-black removal and `repairPostDelete`: the one red-black tree of the kernel, the pages of an object, never removes a leaf.
- BinarySearchTree: `deleteSubtree`, `findMax`, `findPredecessor`, `iterateInOrder` and `countNodes` would only add easy members.
- AddressSpace.Map.Add: the lock and the callback `addedToMap` are not modelled; what happens after an empty window or one that reaches 2^64 has been added is not promised.
- AddressSpace.Map.Remove: the callback `removedFromMap` is not modelled.
- Direct physical mappings of `Map`, page-table hardware, permission masks and the TLB.
- MapEntry: views, per-view flags, the task's page counter and releasing pages on shrinking (the source does not).
- SmartPointers: reference-count overflow, the implicit `WeakPtr` copy constructor, pointers stored inside the objects they keep alive, and data races on one pointer.
- FaultSequence.Run: for objects that end 64 pages or more below 2^64, where no prefault offset wraps.
- Scheduler.Scheduler.FindRunnableThread: other cores act between the looks at two levels; what they do between two pops of one level comes to the same as before the first (`PopBetween`) and is not a parameter of its own; a thread of the queues does not change its state during the search; statistics and timestamps are not modelled.
- Scheduler: work stealing, blocking and unblocking, `yield`, timers and interprocessor interrupts; `removeDeadline` and `enumerateObjects`.
- Scheduler run queues are sequences of bounded length here; the ring itself is `LockFreeQueue`.
- Arith64: shifts, trailing zeros and population counts.
- SHA-224 and SHA-384 (other initial values and shorter digests), AES and the random generator.
- Sha2Stream.Context.Transf: where the offset overflows nothing is said about the hash value, because the C standard does not define it.
- PhysicalAllocator.PhysicalAllocator.constructor: a usable range at address 0 is excluded, because its first page could not be told from failure; that ranges share no address is asked of the boot loader.
- PhysRegion.Region: the bitmap is a sequence of words in a field, not an array; locking and zero filling are not modelled.
- HandleManager.MatchesIff: like the other results about handles, for slots below 2^32, whose index fits its field.
- Serialization: the IDL grammar and the rest of the generated stubs; custom types stand for the bytes their own serializer writes.
- Printf.Vsnprintf: floating point; formats that end inside a conversion and arguments of the wrong type, which the source does not survive either.
- dlmalloc, the slab allocator, vectors, IPC ports, system calls, consoles, interrupts and boot.
