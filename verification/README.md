# Verified model of the DrCCTProf engine

DrCCTProf keeps, for every thread, a calling context tree that it grows from the stream of
executed basic blocks, and it names every instruction on every call path with a 32-bit context
handle. This project models that engine, the data structures under it, and two clients above it,
and proves what they promise. `dafny verify dfyconfig.toml` checks everything.

The files, from the bottom up:

- `SplayTree.dfy`, `SplayHeap.dfy`: the top-down splay step with insertion during the descent, as
  a function on trees and as the in-place algorithm with its dummy node and two assemblies.
- `Cct.dfy`, `CctHandles.dfy`, `CctRuns.dfy`, `CctBuilder.dfy`: block nodes, handles and cursors;
  the step taken before each block; canonicity and caller walks; interleavings of threads; and the
  immediate builder on its arrays and fields.
- `FlushMachine.dfy`, `BlockBuffer.dfy`, `BufferedBuilder.dfy`: the 256-entry block buffer, its
  flushes, and the proof that buffering changes neither the tree nor the callbacks.
- `MemRefBuffer.dfy`, `RefCallbacks.dfy`: the memory-reference buffer that blocks share, what a flush
  carries over, and the callbacks that join handles with references.
- `SharedArray.dfy`, `PoolCache.dfy`: the lock-light growing array and the pool with per-thread
  caches.
- `ShadowPages.dfy`, `ShadowSpace.dfy`: the two-level shadow memory, first as a concurrent protocol
  and then as a map from addresses to values.
- `FmtTrie.dfy`, `CctFlatten.dfy`, `FlattenExample.dfy`, `PathInsertion.dfy`, `FmtWriter.dfy`,
  `ThreadExport.dfy`: the instruction-pointer trie written for hpcviewer, filled from a whole tree or
  from selected paths, its order on file, and what a thread exports over its life.
- `InstrStatistics.dfy`, `ReuseDistance.dfy`: the statistics client and the reuse-distance client.

The main line is one refinement chain: the buffered builder equals the immediate builder
(`BlockBuffer.BufferedRefinesImmediate`), which equals the abstract step
(`CctBuilder.ImmediateThread.BeforeBbFirstInstr`), which moves as a call stack of block keys
(`Cct.StepRefinesStack`, and on the bits of the end state `Cct.StepMovesStack`), for every thread under every interleaving (`CctRuns.RunRefinesStacks`).

## Conventions

- Code that changes state is a class or a method whose contract equates its result with a pure
  function; the lemmas are about that function and about runs of it.
- A block node is its number in the order in which nodes took their handles, which is the order of
  the fetch-and-add. A callee tree is a value in the store; `SplayHeap.EnterCallee` shows that the
  linked tree has the same payloads after every entry.
- A process exit is a flag after which nothing is promised.
- Steps of different threads interleave at the granularity of the shared writes: whole block steps
  for the tree, where only the fetch-and-add is shared and another thread could see the idle index
  raised before the new handles are filled in; single atomic actions for the shared array
  and the shadow directory; operations under their lock for the pool.
- Freshly mapped memory is zero, and so are the addresses in a new reference buffer, although the
  code clears only their indices (src/drcctlib/drcctlib.cpp:2110-2112).
- Block shadows (slot count, end state, reference count, addresses) are inputs; only key 0 is the
  virtual root.

## What the code does not do

Some expectations turn out false. The code is kept as it is, and the exact condition is proved.

- A flush in the middle of a block can lose that block's references. They survive iff the block has
  recorded nothing, or it began behind other references and has recorded no address 0
  (`MemRefBuffer.CarryKeepsPartial`): the left shift by zero empties what it just copied, and the
  address 0, which is also recorded when an address cannot be computed, stops the shift.
  `MemRefBuffer.LoseFirstRef` and `MemRefBuffer.LoseAfterZero` are threads to which the two cases
  happen. Flushes at block entries are always safe.
- The last block of a thread is called back without its memory references
  (`MemRefBuffer.MemRefThread.ThreadEnd`).
- The shared array is safe iff a page holds at least as many objects as there are threads
  (`SharedArray.SafeIffThreadsFit`); one thread more and an unopened page can be read.
- In a flattened trie a negative ID does not mean a leaf. `CctFlatten.NegativeAndInner` says exactly
  when it does not, and `FlattenExample.NegativeInnerExists` gives a run where it does not. Every leaf
  does have a negative ID.
- Repeated builds of a thread's trie of selected paths do not mark the leaves: the second build always
  leaves a node for which "negative" and "leaf" disagree (`ThreadExport.SecondBuildBreaks`). The sign
  is the parity of the builds after which the node was childless (`ThreadExport.SignIsParity`).
- The node count in front of a thread's export is the number of records only if nothing was counted
  on that thread before, because every export adds to one counter
  (`ThreadExport.ThreadFmt.WriteAllCct`, `ThreadExport.ExportTwice`). For the kept trie it is the
  number of records iff no whole tree was exported since its first build
  (`ThreadExport.ThreadFmt.WriteCustomCct`).
- Shadow cells are shared by addresses equal modulo 2^48, and a range whose end wraps around the
  64-bit word is not written (`ShadowSpace.SplitInjective`,
  `ShadowSpace.ShadowMemory.InitShadowMemorySpace`).
- The average-distance filter of the reuse client rejects nothing (`ReuseDistance.AverageIsFar`).

## Model

| member | source | states |
|---|---|---|
| `SplayTree.SplayIsInsert` | src/drcctlib/splay_tree.cpp:31-83 | On every search tree the top-down step is insertion into the sorted list of entries: a present key keeps its payload, a new one gets the new node, every other entry is untouched, and the key ends at the root. |
| `SplayTree.SplayRootValue` | src/drcctlib/splay_tree.cpp:36-83 | The root found carries the payload stored under the key, and the new node's payload exactly when the key was absent, which is what "payload is NULL iff new" rests on. |
| `SplayTree.DescendInorder` | src/drcctlib/splay_tree.cpp:36-78 | At every iteration the left assembly, the remaining tree and the right assembly, read in order and with the key inserted, are the tree started from. |
| `SplayTree.Shorter` | src/drcctlib/splay_tree.cpp:36-74 | Every pass, over one level or two, gets strictly closer to the key or to the freshly linked node, so the loop ends. |
| `SplayTree.EnterIsMap` | src/drcctlib/drcctlib.cpp:1604-1619 | Lookup followed by registration of a missing node is a map update: the search order is kept, the key maps to the old node if there was one and to the new one otherwise, and no other entry changes. |
| `SplayTree.SplayNatural` | src/drcctlib/splay_tree.cpp:27-84 | The shape computed depends on keys only: renaming payloads commutes with the step. |
| `SplayHeap.Search` | src/drcctlib/splay_tree.cpp:35-74 | The relinking loop keeps two linked assemblies hung off the dummy, disjoint from the rest of the tree, and ends with the key at the root of that rest; what is left to do still yields the specified tree. |
| `SplayHeap.DescendLeft` | src/drcctlib/splay_tree.cpp:37-54 | One pass to the left, with insertion, rotation and a second insertion, relinks the heap into the rotated tree hooked onto the right assembly. |
| `SplayHeap.DescendRight` | src/drcctlib/splay_tree.cpp:55-73 | The mirror image on the right, hooked onto the left assembly. |
| `SplayHeap.Rejoin` | src/drcctlib/splay_tree.cpp:75-78 | Closing both assemblies and putting them under the found root gives the specified tree over exactly the same nodes. |
| `SplayHeap.Update` | src/drcctlib/splay_tree.cpp:27-84 | The in-place version ends in a heap of exactly the specified shape, over the old nodes and at most the new one, never the dummy; the new node is untouched unless it was linked, and no other key or payload changes. |
| `SplayHeap.EnterCallee` | src/drcctlib/drcctlib.cpp:1604-1619 | On payloads the heap version with registration is exactly the pure lookup-or-register, and it reports "new" iff the key had no payload. |
| `SplayHeap.SplayPayloads` | src/drcctlib/drcctlib.cpp:1604-1618 | Reading payloads off the relinked nodes gives the step on the payload tree. |
| `Cct.EnterBlockKeeps` | src/drcctlib/drcctlib.cpp:1604-1619 | Looking a block up under any caller, creating its node when new, keeps the whole store well formed and leaves on the child of that caller with that key. |
| `Cct.StepKeeps` | src/drcctlib/drcctlib.cpp:1538-1621 | In every reachable state a block step follows no missing parent, keeps all invariants of the store, disturbs no existing node, and leaves the cursor in its own thread's tree. |
| `Cct.StepRefinesStack` | src/drcctlib/drcctlib.cpp:1538-1562 | The root-to-current key path moves exactly as a pure call-stack machine: push after a call, pop one frame after a return but never below depth one, otherwise replace the top. |
| `Cct.StepMovesStack` | src/drcctlib/drcctlib.cpp:407-451 | The same law on the bits of the end state, whatever other bits are set: 0x20 restarts at the root, else any of 0x06 pushes, else 0x08 at depth two or more pops one frame, else the top is replaced. |
| `Cct.StepExits` | src/drcctlib/drcctlib.cpp:365-376 | A step exits the process iff the key is new under its caller and the fresh handles would reach 16777216. |
| `Cct.StartKeepsInv` | src/drcctlib/drcctlib.cpp:2048-2059 | A starting thread adds a root node of its own and stands on the empty path. |
| `Cct.CreateKeeps` | src/drcctlib/drcctlib.cpp:562-583 | A created node extends the handle layout: its interval follows the last one and each of its handles leads back to it. |
| `Cct.IntervalsOrdered` | src/drcctlib/drcctlib.cpp:366-376 | Handle intervals of different nodes are disjoint and in creation order. |
| `Cct.LayoutBounds` | src/drcctlib/drcctlib.cpp:366-376 | All intervals lie between handle 2 and the idle index. |
| `Cct.ExtendsPath` | src/drcctlib/drcctlib.cpp:562-583 | Later growth by any thread changes no earlier node's path or root. |
| `CctHandles.PathsIdentifyNodes` | src/drcctlib/drcctlib.cpp:1604-1620 | Two nodes are the same iff thread and key path are the same. |
| `CctHandles.HandlesAreCanonical` | src/drcctlib/drcctlib.cpp:2990-2996 | Two context handles are equal iff thread, key path and slot are equal. |
| `CctHandles.HandleIsInstruction` | src/drcctlib/drcctlib.cpp:2990-2996 | The handle of a slot is that slot's instruction: it leads back to the node, and its program counter is the one recorded for the slot. |
| `CctHandles.OwnerOfHandle` | src/drcctlib/drcctlib.cpp:575-581 | A handle inside a node's interval leads back to that node and no other. |
| `CctHandles.HandlesPartition` | src/drcctlib/drcctlib.cpp:337-376 | Between whole steps the node intervals partition the handles from 2 up to the idle index: each is one slot of one node. |
| `CctHandles.CallerOf` | src/drcctlib/drcctlib.cpp:355-363 | The caller of every handle from 2 on is smaller than the handle and at least 1. |
| `CctHandles.CallChain` | src/drcctlib/drcctlib.cpp:3014-3042 | The walk to the callers ends at handle 1. |
| `CctHandles.ChainSpellsPath` | src/drcctlib/drcctlib.cpp:3014-3042 | That walk passes the key path backwards, then the thread root and handle 1, and every caller in it is the last instruction of its block. |
| `CctHandles.BbNodeCallerHandle` | src/drcctlib/drcctlib.cpp:355-363 | The node-based lookup computes that caller. |
| `CctHandles.GetCct` | src/drcctlib/drcctlib.cpp:3014-3042 | The context list is the whole chain for a negative depth, else its first depth + 1 handles; an invalid handle is the only failure. |
| `CctHandles.SameCallPathMeansSameIps` | src/drcctlib/drcctlib.cpp:3218-3239 | The recursive comparison of two handles holds iff their full calling vectors are equal, across threads too. |
| `CctHandles.RootIffCaller` | src/drcctlib/drcctlib.cpp:3388-3399 | The walk reaches handle 1 exactly from a thread root's handle, so the two walks stop together. |
| `CctHandles.GetFullCallingIpVector` | src/drcctlib/drcctlib.cpp:3380-3400 | The loop returns the program counters of all callers, innermost first, and ends for every handle from 2 on. |
| `CctHandles.IpsAlongChain` | src/drcctlib/drcctlib.cpp:3380-3400 | That vector is the program counters along the walk to the callers, up to the thread root. |
| `CctRuns.RunRefinesStacks` | src/drcctlib/drcctlib.cpp:1538-1621 | Under every interleaving of any number of threads each thread stands on the path its own blocks lead the call-stack machine to. |
| `CctRuns.RunExtends` | src/drcctlib/drcctlib.cpp:562-583 | A handle given out once keeps its node for the rest of the run. |
| `CctBuilder.Globals.CurChildCtxtStartIdx` | src/drcctlib/drcctlib.cpp:365-376 | Takes a run of fresh handles, or exits when they would reach the maximum. |
| `CctBuilder.Globals.BbNodeCreate` | src/drcctlib/drcctlib.cpp:561-583 | The array version of node creation is exactly the specified one: every handle of the new interval, and no other, points at the new node. |
| `CctBuilder.Globals.SelectCaller` | src/drcctlib/drcctlib.cpp:1538-1562 | The branch on the previous end state computes the specified caller. |
| `CctBuilder.Globals.Enter` | src/drcctlib/drcctlib.cpp:1604-1619 | Lookup, creation and registration together are exactly the specified block entry. |
| `CctBuilder.ImmediateThread.constructor` | src/drcctlib/drcctlib.cpp:2039-2060 | Thread initialisation is the specified thread start. |
| `CctBuilder.ImmediateThread.BeforeBbFirstInstr` | src/drcctlib/drcctlib.cpp:1508-1634 | The immediate step is exactly the abstract step, and the client gets one block-start callback with the block's counts. |
| `CctBuilder.ImmediateThread.GetContextHandle` | src/drcctlib/drcctlib.cpp:2989-2996 | A slot of the current block yields a handle that leads back to the current node and has the program counter of that slot; a slot beyond the block yields none. |
| `CctBuilder.ImmediateThread.GetTwoHandles` | src/drcctlib/drcctlib.cpp:2989-2996 | Two slots of one block get the same handle iff they are the same slot. |
| `FlushMachine.PendingCompletes` | src/drcctlib/drcctlib.cpp:1125-1172 | At any time, after any flushes, the replayed part followed by the pending blocks is exactly the executed sequence. |
| `BlockBuffer.BufferedRefinesImmediate` | src/drcctlib/drcctlib.cpp:675-809 | For every block sequence and every flush schedule the final flush gives the store, handles and current node of immediate mode. |
| `BlockBuffer.LogIsVisits` | src/drcctlib/drcctlib.cpp:701-705 | A run of n blocks calls the client back n + 1 times: the virtual root, then each block once, in order, with the handle and slot count of the node visited. |
| `BlockBuffer.BufferedCallbacks` | src/drcctlib/drcctlib.cpp:1009-1018 | Those callbacks are the same for every flush schedule, and the nodes are the ones immediate mode visits. |
| `BlockBuffer.ReplayIsRun` | src/drcctlib/drcctlib.cpp:701-796 | Replaying a run of entries is running immediate mode on the same blocks. |
| `BufferedBuilder.BufferedThread.constructor` | src/drcctlib/drcctlib.cpp:2097-2122 | The empty buffer and the virtual root as the block before. |
| `BufferedBuilder.BufferedThread.ReplayBlock` | src/drcctlib/drcctlib.cpp:702-792 | One turn of the replay loop is the block-end callback followed by the abstract step. |
| `BufferedBuilder.BufferedThread.ReplayEntries` | src/drcctlib/drcctlib.cpp:701-796 | The loop replays the contiguous run from slot 1 and empties exactly it. |
| `BufferedBuilder.BufferedThread.RefreshBbCache` | src/drcctlib/drcctlib.cpp:675-809 | A flush replays all pending blocks in order, leaves every slot empty, and resets the write pointer to slot 1; with nothing pending it changes nothing. |
| `BufferedBuilder.BufferedThread.InitStackCache` | src/drcctlib/drcctlib.cpp:654-673 | The very first block moves from slot 0 to slot 1 and nothing else moves. |
| `BufferedBuilder.BufferedThread.BeforeEveryBbFirst` | src/drcctlib/drcctlib.cpp:1090-1172 | The inserted code notes the block, flushes exactly at index 1 or 256, and otherwise advances; the pending entries stay a contiguous run from slot 1. |
| `BufferedBuilder.BufferedThread.Refresh` | src/drcctlib/drcctlib.cpp:995-1007 | An on-demand refresh between blocks is the abstract flush. |
| `BufferedBuilder.BufferedThread.ThreadEnd` | src/drcctlib/drcctlib.cpp:2175-2181 | Thread end flushes, which leaves the tree of the final flush, and then calls back the last block once. |
| `MemRefBuffer.ShiftMoves` | src/drcctlib/drcctlib.cpp:966-977 | A left shift by a positive distance carries the references before the first with address 0 unchanged, empties what it passes and leaves the rest alone. |
| `MemRefBuffer.ShiftLoses` | src/drcctlib/drcctlib.cpp:966-977 | A shift by zero copies each reference before the first with address 0 onto itself and then empties it. |
| `MemRefBuffer.CarryKeepsPartial` | src/drcctlib/drcctlib.cpp:961-983 | For any addresses: after a flush the cursor is behind the references before the first with address 0, and the front soundly holds the current block's references iff it has recorded nothing, or it began behind other references and has recorded no address 0. |
| `MemRefBuffer.CarryLosesFirstRef` | src/drcctlib/drcctlib.cpp:966-977 | In any buffer: a reference recorded at entry 0 is emptied. |
| `MemRefBuffer.CarryStopsAtZero` | src/drcctlib/drcctlib.cpp:966-983 | In any buffer: a reference with address 0 stops the shift, and the cursor goes to the front. |
| `MemRefBuffer.LoseFirstRef` | src/drcctlib/drcctlib.cpp:820-984 | A thread that enters a block without references and then one with a reference loses that reference by a flush on demand. |
| `MemRefBuffer.LoseAfterZero` | src/drcctlib/drcctlib.cpp:820-984 | A thread whose second block records address 0 and then another address is left by a flush on demand with the cursor in front of both. |
| `MemRefBuffer.MemRefThread.RecordRef` | src/drcctlib/drcctlib.cpp:1189-1253 | A recorded reference, whatever its address, joins the current block, and there is room for it. |
| `MemRefBuffer.MemRefThread.EndPrevious` | src/drcctlib/drcctlib.cpp:850-943 | One turn of the flush loop calls the previous block back with its own references and then takes the step to the next block. |
| `MemRefBuffer.MemRefThread.EndAll` | src/drcctlib/drcctlib.cpp:847-947 | Each block that ended is called back with exactly its own references, in order, one step of the tree between two callbacks. |
| `MemRefBuffer.MemRefThread.CarryToFront` | src/drcctlib/drcctlib.cpp:961-983 | The two loops at the end of a flush compute the specified carry. |
| `MemRefBuffer.MemRefThread.Refresh` | src/drcctlib/drcctlib.cpp:820-984 | An on-demand flush, also mid-block, delivers every ended block with its own references; the record stays sound iff the flush was safe, which a caller can check. |
| `MemRefBuffer.MemRefThread.BlockEntry` | src/drcctlib/drcctlib.cpp:1336-1447 | For any addresses recorded so far: at a block entry a flush is always safe, it happens exactly at the first block, at a full block buffer or when the capacity test demands it, and that test leaves room for the whole block, so the buffer never overflows. |
| `MemRefBuffer.MemRefThread.ThreadEnd` | src/drcctlib/drcctlib.cpp:1009-1018 | At thread end every block has been called back with its references, except the last, which is called back with none, and the tree has taken one step for each block. |
| `RefCallbacks.RunIsAttributed` | src/drcctlib/drcctlib.cpp:849-943 | Callback i names the node that immediate mode visits with block i, so that the slots of its references give that node's handles, and has exactly block i's references; only the last block's are missing. |
| `RefCallbacks.EndThread` | src/drcctlib/drcctlib.cpp:2175-2181 | That holds at the end of every thread whose record is sound. |
| `InstrStatistics.CountBlock` | src/clients/drcctlib_instr_statistics/drcctlib_instr_statistics.cpp:29-50 | A block-end callback raises the count of exactly the block's handles by one. |
| `InstrStatistics.CountLog` | src/clients/drcctlib_instr_statistics/drcctlib_instr_statistics.cpp:29-50 | A log of callbacks gives each handle the number of callbacks that cover it. |
| `InstrStatistics.CountsAreExecutions` | src/clients/drcctlib_instr_statistics/drcctlib_instr_statistics.cpp:29-50 | A handle's count is the number of times its block node was executed, whatever the flush schedule. |
| `InstrStatistics.ReplacedIsTop` | src/clients/drcctlib_instr_statistics/drcctlib_instr_statistics.cpp:105-121 | Replacing a smallest row keeps the list a top list of the counts scanned so far. |
| `InstrStatistics.SelectTop` | src/clients/drcctlib_instr_statistics/drcctlib_instr_statistics.cpp:98-121 | After the scan no omitted count exceeds a kept one, and each non-zero row is a different handle with its count. |
| `InstrStatistics.SortRows` | src/clients/drcctlib_instr_statistics/drcctlib_instr_statistics.cpp:122-131 | The exchange sort makes the rows descending and keeps the list a top list. |
| `InstrStatistics.TopDominates` | src/clients/drcctlib_instr_statistics/drcctlib_instr_statistics.cpp:98-131 | The k-th kept count is at least the k-th of any other list of distinct handles. |
| `InstrStatistics.TopIsUnique` | src/clients/drcctlib_instr_statistics/drcctlib_instr_statistics.cpp:98-131 | Any two sorted top lists of one length show the same counts row by row: they are the N largest as a multiset. |
| `InstrStatistics.ClientExit` | src/clients/drcctlib_instr_statistics/drcctlib_instr_statistics.cpp:94-150 | What is printed is a descending list of the largest positive counts, as many as there are rows for. |
| `SharedArray.OnePageSuffices` | src/drcctlib/memory_cache.h:506-524 | With at most a page of threads no claimed index is more than a page beyond the open ones, so one opening per call covers it. |
| `SharedArray.RunIsSafe` | src/drcctlib/memory_cache.h:477-540 | Under every interleaving with at most a page of threads: no unopened page is dereferenced, the indices returned are distinct and covered, and the "full" exit needs every index to be claimed. |
| `SharedArray.NoIndexLost` | src/drcctlib/memory_cache.h:506-525 | Under any schedule every index claimed so far was handed out or is still with the call that claimed it. |
| `SharedArray.CallReturns` | src/drcctlib/memory_cache.h:506-525 | From any state and under any schedule, a call with an index has handed out that very index after at most three steps of its own, unless the process exits. |
| `SharedArray.TooManyThreadsStray` | src/drcctlib/memory_cache.h:506-540 | With one thread more some interleaving dereferences a page that is not open. |
| `SharedArray.SafeIffThreadsFit` | src/drcctlib/memory_cache.h:431-435 | All runs are safe iff a page holds at least as many objects as there are threads: the constructor's test is exactly the condition. |
| `PoolCache.MemoryCache.InitNewPage2` | src/drcctlib/memory_cache.h:136-160 | Opening a page adds exactly its objects; when all pages are open the process exits. |
| `PoolCache.MemoryCache.AddDebris` | src/drcctlib/memory_cache.h:172-183 | A piece given back goes to the end of the debris list, or is dropped, exactly when it is too short. |
| `PoolCache.MemoryCache.TakeDebris` | src/drcctlib/memory_cache.h:206-231 | The pops stay within the frames, take the latest pieces, and stop with enough objects and not one piece too many; every piece moves exactly once. |
| `PoolCache.MemoryCache.InitSubCacheFrame` | src/drcctlib/memory_cache.h:185-239 | A refill yields at least the requested number of objects and conserves every object. It opens a page iff neither the tail of the current one nor the debris, the given-up tail included, is enough, and exits iff there is no page left to open then; otherwise no more debris is taken than needed. |
| `PoolCache.TlsMemoryCache.constructor` | src/drcctlib/memory_cache.h:269-312 | A new cache starts with a first refill and nothing handed out; a cache bigger than a page makes the process exit. |
| `PoolCache.TlsMemoryCache.ReinitSubCache` | src/drcctlib/memory_cache.h:364-376 | A refill replaces the exhausted frames and conserves every object. |
| `PoolCache.TlsMemoryCache.GetNextObject` | src/drcctlib/memory_cache.h:320-339 | The object returned leaves the unused ones; every other object stays where it was or was just opened. |
| `PoolCache.TlsMemoryCache.FreeUnuseObject` | src/drcctlib/memory_cache.h:341-362 | At thread end every unused object goes back to the pool: the pieces long enough are appended to the debris list in frame order, and the frames are empty. |
| `PoolCache.NextObject` | src/drcctlib/memory_cache.h:320-339 | A request on one of many caches leaves every other cache valid, with the same unused objects. |
| `PoolCache.BeginThread` | src/drcctlib/memory_cache.h:269-312 | A new cache has frames of its own and disturbs no other cache. |
| `PoolCache.EndThread` | src/drcctlib/memory_cache.h:341-362 | A cache that gives its objects back disturbs no other cache. |
| `PoolCache.RunCaches` | src/drcctlib/memory_cache.h:185-376 | From the first page on, after any starts, requests and ends of any number of threads in any order: every request of a running thread was served, each object of every opened page is with the pool, unused in one cache, or handed out, once, and the objects handed out are all different. It exits only when all pages are open or a cache asks for more than a page. |
| `PoolCache.PoolIsConserved` | src/drcctlib/memory_cache.h:185-239 | In every such state each object is in exactly one place, and one that was handed out is nowhere else. |
| `ShadowPages.ActKeeps` | src/drcctlib/shadow_memory.h:85-125 | Every atomic action of a get-or-create call keeps the directory consistent, and each allocation published, held by one call in flight, or freed. |
| `ShadowPages.RunGrows` | src/drcctlib/shadow_memory.h:134-149 | A lookup never goes back to NULL or to another page, under any interleaving. |
| `ShadowPages.CallersAgree` | src/drcctlib/shadow_memory.h:85-125 | All calls for the same slots return the one page every later lookup finds. |
| `ShadowPages.ActProgress` | src/drcctlib/shadow_memory.h:85-125 | Every action of a call brings it nearer to its return with the slots it began with, and only a return ends a call. |
| `ShadowPages.FoundAtOnce` | src/drcctlib/shadow_memory.h:85-124 | In every consistent state a call for slots that have a page goes straight to it, and allocates, publishes and frees nothing. |
| `ShadowPages.EveryCallReturns` | src/drcctlib/shadow_memory.h:85-125 | Under every interleaving a call stays in flight, with its slots, until it returns within ten actions of its own thread, and it returns the page that its slots have for good. |
| `ShadowPages.PagesAreSeparate` | src/drcctlib/shadow_memory.h:107-124 | Different slots never share a page. |
| `ShadowPages.Destroy` | src/drcctlib/shadow_memory.h:68-83 | The destructor frees exactly the published tables and pages, each once. |
| `ShadowPages.EverythingFreedOnce` | src/drcctlib/shadow_memory.h:68-125 | With no call in flight, lost races and the destructor together free every allocation exactly once. |
| `ShadowSpace.SplitInjective` | src/drcctlib/shadow_memory.h:40-47 | Two addresses share a cell iff they are equal modulo 2^48. |
| `ShadowSpace.ShadowMemory.GetOrCreate` | src/drcctlib/shadow_memory.h:85-125 | A missing table or page appears zeroed and no value changes. |
| `ShadowSpace.ShadowMemory.Store` | src/drcctlib/drcctlib.cpp:2240-2242 | A write through the cell address changes exactly one cell. |
| `ShadowSpace.ShadowMemory.Read` | src/drcctlib/drcctlib.cpp:3265-3278 | A read yields the last value written, and the unknown object by default. |
| `ShadowSpace.ShadowMemory.InitShadowMemorySpace` | src/drcctlib/drcctlib.cpp:2229-2244 | The range writer changes exactly the cells of the range across any page boundaries and ends; a range that wraps the 64-bit word is not written. |
| `ShadowSpace.RangeBelowSpace` | src/drcctlib/drcctlib.cpp:2229-2244 | Below 2^48 these cells are exactly the addresses of the range. |
| `FmtTrie.PathsDiffer` | src/drcctlib/drcctlib_hpcviewer_format.cpp:742-760 | Siblings differ in address, so a path of program counters names at most one node. |
| `FmtTrie.Trie.constructor` | src/drcctlib/drcctlib_hpcviewer_format.cpp:1204-1220 | A fresh trie is the root alone, with zero metrics. |
| `FmtTrie.Trie.ConstructIpNode` | src/drcctlib/drcctlib_hpcviewer_format.cpp:706-739 | A constructed node is the only new record, with an ID above all others and its parent's ID, zero metrics and no children, and the only new entry in a child list, its parent's. |
| `FmtTrie.ParentIdNamesParent` | src/drcctlib/drcctlib_hpcviewer_format.cpp:706-739 | IDs of one trie differ even without their signs, whatever was marked or reset, so the parent ID of a record is the ID of its parent and of no other record. |
| `FmtTrie.Trie.FindSameIp` | src/drcctlib/drcctlib_hpcviewer_format.cpp:741-760 | The search finds the child with the address iff there is one. |
| `FmtTrie.Trie.WalkVector` | src/drcctlib/drcctlib_hpcviewer_format.cpp:885-898 | A calling vector is walked from its outer end; exactly the missing prefixes appear. |
| `FmtTrie.Trie.AddMetrics` | src/drcctlib/drcctlib_hpcviewer_format.cpp:899-901 | The metrics are added at one node and raise every total by exactly as much. |
| `FmtTrie.TouchAllAt` | src/drcctlib/drcctlib_hpcviewer_format.cpp:887-898 | Walking a path adds its prefixes with zero metrics and changes nothing else. |
| `FmtTrie.Trie.ResetLeafNodeId` | src/drcctlib/drcctlib_hpcviewer_format.cpp:904-914 | Exactly the childless nodes of the subtree get their IDs negated. |
| `FmtTrie.ResetMarksLeaves` | src/drcctlib/drcctlib_hpcviewer_format.cpp:904-914 | After the reset of a trie of positive IDs an ID is negative iff the node is childless. |
| `ThreadExport.ThreadFmt.BuildCustomCct` | src/drcctlib/drcctlib_hpcviewer_format.cpp:1145-1174 | Each build of a thread inserts into the kept trie and resets its leaves; the first makes the root and sets the counter. |
| `ThreadExport.SignIsParity` | src/drcctlib/drcctlib_hpcviewer_format.cpp:1145-1174 | After any number of builds an ID is negative iff its node was there and childless after an odd number of them. |
| `ThreadExport.MarksIffParity` | src/drcctlib/drcctlib_hpcviewer_format.cpp:1145-1174 | So negative means leaf iff for every node being childless now agrees with that parity. |
| `ThreadExport.FirstBuildMarks` | src/drcctlib/drcctlib_hpcviewer_format.cpp:1145-1174 | After the first build a negative ID means a leaf and the other way round. |
| `ThreadExport.SecondBuildBreaks` | src/drcctlib/drcctlib_hpcviewer_format.cpp:1145-1174 | After the second build this fails at some node, whatever the lists were. |
| `ThreadExport.BuildTwice` | src/drcctlib/drcctlib_hpcviewer_format.cpp:1145-1174 | The same on the thread: two builds of any lists. |
| `ThreadExport.ThreadFmt.WriteAllCct` | src/drcctlib/drcctlib_hpcviewer_format.cpp:1109-1138 | The records are one for each program-counter path of the thread's handles, with zero metrics and the sign that the traversal gives it, each once, the root first and parents before children, under distinct IDs. The node count in front is what the thread had counted before plus their number, so it is their number iff nothing was counted before. |
| `ThreadExport.ThreadFmt.WriteCustomCct` | src/drcctlib/drcctlib_hpcviewer_format.cpp:1178-1197 | The records are all nodes of the kept trie, each once, the root first and parents before children, under distinct IDs. The node count in front is their number iff no whole tree was exported since the first build. |
| `ThreadExport.ExportTwice` | src/drcctlib/drcctlib_hpcviewer_format.cpp:1109-1138 | A second export of a thread announces more nodes than it writes. |
| `PathInsertion.InsertPath` | src/drcctlib/drcctlib_hpcviewer_format.cpp:871-902 | One run node adds its joined path and its metrics at the end of it; an empty one changes nothing, and an invalid handle cuts the path short. |
| `PathInsertion.WalkHandles` | src/drcctlib/drcctlib_hpcviewer_format.cpp:879-898 | The joined calling vectors of all handles up to an invalid one form one path, which is walked from the root. |
| `PathInsertion.InsertRunsAt` | src/drcctlib/drcctlib_hpcviewer_format.cpp:1220-1224 | After any runs the paths are the prefix closure of the inserted ones, and each metric is the sum of those inserted exactly there. |
| `PathInsertion.BuildCustomCct` | src/drcctlib/drcctlib_hpcviewer_format.cpp:1204-1226 | A built trie conserves all metric totals, counts its nodes, and has negative IDs exactly at its leaves. |
| `PathInsertion.BuiltPaths` | src/drcctlib/drcctlib_hpcviewer_format.cpp:1220-1224 | A path is in a built trie iff it is empty or a prefix of an inserted one. |
| `PathInsertion.BuiltMetrics` | src/drcctlib/drcctlib_hpcviewer_format.cpp:899-901 | Each node of a built trie shows the sum of the metrics inserted at its path. |
| `CctFlatten.PcPathStep` | src/drcctlib/drcctlib.cpp:3388-3399 | The program-counter path of an instruction extends that of its caller by its own address. |
| `CctFlatten.TraverseIps` | src/drcctlib/drcctlib_hpcviewer_format.cpp:771-813 | The traversal of a callee tree leaves the marks that its list of visits produces, and a sound trie. |
| `CctFlatten.FlattenSlot` | src/drcctlib/drcctlib_hpcviewer_format.cpp:783-810 | An instruction is merged into the child of its address or added, and its callees are traversed below it. |
| `CctFlatten.FlattenThread` | src/drcctlib/drcctlib_hpcviewer_format.cpp:1109-1137 | Flattening a whole thread processes its visits in traversal order and counts its nodes on top of the thread's counter. |
| `CctFlatten.FlatPaths` | src/drcctlib/drcctlib_hpcviewer_format.cpp:762-813 | The paths of the flattened trie are exactly the program-counter paths of the thread's handles. |
| `CctFlatten.FlatSigns` | src/drcctlib/drcctlib_hpcviewer_format.cpp:795-808 | A node's ID is negative iff nothing was called from the first instruction met on its path. |
| `CctFlatten.FlatLeaves` | src/drcctlib/drcctlib_hpcviewer_format.cpp:783-810 | A node is childless iff nothing is called from any instruction on its path. |
| `CctFlatten.NegativeAndInner` | src/drcctlib/drcctlib_hpcviewer_format.cpp:783-810 | Every childless node has a negative ID; a negative ID on an inner node occurs exactly where an instruction that calls nothing was met before one with the same path that does. |
| `FlattenExample.RunReachesFinal` | src/drcctlib/drcctlib.cpp:1538-1621 | Four events, a thread start and three blocks of which two overlap, build the tree of the example. |
| `FlattenExample.NegativeInnerExists` | src/drcctlib/drcctlib_hpcviewer_format.cpp:783-810 | Every flattened form of that reachable tree has an inner node with a negative ID. |
| `CctFlatten.MarkedAt` | src/drcctlib/drcctlib_hpcviewer_format.cpp:783-810 | The first visit of a path decides, and every visited path is there. |
| `FmtWriter.TraverseNewCct` | src/drcctlib/drcctlib_hpcviewer_format.cpp:851-869 | The records of a list of siblings are exactly the nodes of their subtrees, each once, and every node follows its parent. |
| `FmtWriter.WriteCct` | src/drcctlib/drcctlib_hpcviewer_format.cpp:1136-1137 | The records after the counter are all nodes of the trie, each once, the root first and every other one after its parent, under distinct IDs. |
| `ReuseDistance.Last` | src/clients/drcctlib_reuse_distance/drcctlib_reuse_distance.cpp:88-91 | The latest sampled access to an address, and no sampled one after it. |
| `ReuseDistance.CountIsCardinality` | src/clients/drcctlib_reuse_distance/drcctlib_reuse_distance.cpp:120-133 | The count of a use, reuse and creator is the number of sampled accesses that are far reuses with that triple. |
| `ReuseDistance.ReuseBounds` | src/clients/drcctlib_reuse_distance/drcctlib_reuse_distance.cpp:93-103 | A recorded distance is above the threshold and at most the sample size. |
| `ReuseDistance.CreatorSource` | src/clients/drcctlib_reuse_distance/drcctlib_reuse_distance.cpp:104-113 | A recorded creator is negative iff some far reuse of the address in this window found a static object, and names one that was found; a positive one is the allocation path of a dynamic object found by such a reuse; while no static object was found, a far reuse records what it found itself. |
| `ReuseDistance.AverageIsFar` | src/clients/drcctlib_reuse_distance/drcctlib_reuse_distance.cpp:162-167 | The average distance always passes the filter, and for fewer than 2^32 accesses no distance sum wraps. |
| `ReuseDistance.Pack` | src/clients/drcctlib_reuse_distance/drcctlib_reuse_distance.cpp:115-115 | The packed pair unpacks to both handles. |
| `ReuseDistance.AddNodePlaces` | src/clients/drcctlib_reuse_distance/drcctlib_reuse_distance.cpp:120-133 | Recording a reuse keeps every entry in place with its creator and appends at most one, for a creator not there before. |
| `ReuseDistance.AddNodeTidy` | src/clients/drcctlib_reuse_distance/drcctlib_reuse_distance.cpp:120-133 | One entry per creator under each pair, none of them empty. |
| `ReuseDistance.ReuseThread.AddReuse` | src/clients/drcctlib_reuse_distance/drcctlib_reuse_distance.cpp:116-133 | The search through the entries of a pair raises the creator's entry or appends one. |
| `ReuseDistance.ReuseThread.UpdateUseAndReuseMap` | src/clients/drcctlib_reuse_distance/drcctlib_reuse_distance.cpp:84-145 | The update of both maps is the one the definition on the access stream demands, with new window, near, far and first access told apart. |
| `ReuseDistance.ReuseThread.DoWhatClientWantTodo` | src/clients/drcctlib_reuse_distance/drcctlib_reuse_distance.cpp:239-255 | After every access of any stream below 2^32 both maps agree with the definition; only sampled accesses touch them. |
| `ReuseDistance.ReuseThread.InstrumentPerBBCache` | src/clients/drcctlib_reuse_distance/drcctlib_reuse_distance.cpp:257-276 | The references of a block are accounted in order up to the first with a slot outside the block. |
| `ReuseDistance.EntryIsCount` | src/clients/drcctlib_reuse_distance/drcctlib_reuse_distance.cpp:120-133 | Each entry holds exactly the count and distance sum of its use, reuse and creator. |
| `ReuseDistance.ReuseHasEntry` | src/clients/drcctlib_reuse_distance/drcctlib_reuse_distance.cpp:115-133 | Every far reuse is in the entry under the key that unpacks to its handles. |
| `ReuseDistance.ReuseThread.IsPrinted` | src/clients/drcctlib_reuse_distance/drcctlib_reuse_distance.cpp:161-172 | An entry is a candidate for printing iff its creator is a heap path and its count is at least 1000. |

## Left out

- Code emission through DynamoRIO: registers, flags, clean calls, thread-local segments and the ARM and x86 variants are represented only by the buffer steps they encode.
- Signals: delivery saves one level and does not restore the previous end state, so the stack refinement does not extend over it.
- Attach and detach: compiled out, and it breaks the order of callers and handles.
- The speed-up cache, the stored node index and the debug counters, which are not compiled by default; with them the step-counting variant of the splay update and `splay_tree_size`, whose result only the counters use.
- Amortised cost of splaying: only shape, content and termination are proved.
- Weak memory orders: atomic actions are sequentially consistent.
- Opening a page of the shared array in two writes: the index limit is raised before the page is published, and the model takes both as one action under the lock.
- `CctBuilder.Globals.CurChildCtxtStartIdx`: the idle index is not raised by the call that exits, because nothing runs after it.
- `CctBuilder.Globals.Enter`: the callee tree is a value here; nodes on the heap, the dummy and the reuse of a spare node are in SplayHeap.
- `MemRefBuffer.MemRefThread.Refresh`: after an unsafe flush nothing more is promised about that thread's references.
- `MemRefBuffer.MemRefThread.EndPrevious`: the tree step of a turn is a ghost effect here; its code is that of BufferedBuilder.
- `PoolCache.RunCaches`: operations are whole, as they are under the pool's lock; the contents of objects are not modelled.
- `SharedArray.TooManyThreadsStray`: asks for at least five pages; the built arrays have far more.
- The thread-count guard of the runtime lets one thread more than `THREAD_MAX_NUM` start; the array bound is stated for the threads actually inside.
- `FmtTrie.Trie.constructor`: IDs come from one counter for all tries; here a trie starts from, and each later build catches up with, what others have drawn, but nobody draws in the middle of one build. IDs stay positive short of 2^31 nodes.
- `CctFlatten.FlattenThread`: one trie per root instruction and a thread root has one; the leaf metric of the metric-less mode is not set.
- `FmtWriter.WriteCct`: the order of records and their number; the bytes of a record and the module table are not modelled.
- `ThreadExport.ThreadFmt.WriteCustomCct`: writing a record also raises the address of a node with a positive ID by one, which the model leaves out; what it says about a kept trie that is built on after a write is therefore about IDs and counts, not about addresses.
- `InstrStatistics.CountBlock`: counts are unbounded and do not wrap at 64 bits; the scan over memory references is left out because its result is unused.
- `ReuseDistance.ReuseThread.DoWhatClientWantTodo`: streams below 2^32 accesses, after which the 32-bit access number wraps.
- `ReuseDistance.ReuseThread.IsPrinted`: the selection and sort of the candidates repeat those of the statistics client and are not modelled a second time.
- The thread-local form of the shadow memory, which is the sequential case of the concurrent one.
- The reuse clients that buffer accesses themselves, and those that repeat this one.
- String pool, symbol lookup, ELF reading, malloc wrapping and all file headers.
