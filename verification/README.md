# Floppix, modelled in Dafny

Floppix is a web server in C at an early stage. This project models the five parts of it that compute
something hard and proves what they are for:

- **the intrusive list** (`MergeSpec`, `SizedSort`, `ListModel`, `List`, `ListRuns`): a doubly linked list
  over nodes the caller owns, updated in place, with an in-place merge sort;
- **the logger** (`LoggerModel`, `LoggerInvariant`, `LoggerTheorems`, `LoggerRuns`, `Logger`): a ring of
  32 slots between any number of logging threads and one worker, with two counting semaphores and two
  mutexes, as a system of atomic steps;
- **memory pools** (`PoolSizes`, `PoolModel`, `PoolRuns`, `PoolTheorems`, `PoolReserve`, `PoolTree`,
  `PoolHeader`, `PoolForest`, `Teardowns`, `PoolAnswers`, `Pools`): page-sized memnodes, first-fit search,
  cleanups with a reserve of nodes, and a first-child, next-brother tree;
- **the configuration** (`Tokeniser`, `TokeniserTheorems`, `TokeniserLines`, `Parse`, `ProcessModel`,
  `ProcessTheorems`, `ProcessSafety`, `ProcessCycles`, `ProcessIncludes`, `ProcessOutcomes`, `Process`): a tokeniser, number, size and address
  parsers, and the walk over a directive list that grows while it is walked;
- **the path transcoder** (`Utf`, `UtfRoundTrip`): UTF-8 to UTF-16.

Code that changes state is a class or a method over arrays and fields, proved against functions on
values; what the functions mean is proved as lemmas. `Basics` holds what several modules share.
`dafny verify dfyconfig.toml` checks everything.

## Where the code is not what it seems

The model follows the code. Where that differs from what the code evidently intends, a lemma says so and
gives the exact condition under which the intent is met.

- Sorting clears the two end pointers of a list but not its size, and insertion does not count. The size
  ends right exactly when what sorting added and what insertion left out cancel
  (`ListRuns.SizeRightExactly`). The sort goes by the size: when that is too large by two or more it reads
  through NULL (`SizedSort.FaultsExactly`), as a second sort of two nodes or more does
  (`ListRuns.SortSpoilsSize`); when it is too small it takes the nodes behind as one run
  (`SizedSort.SortSizedOrdersExactly`).
- The merge takes the left head only when the comparator answers exactly -1. Ties come out reversed
  (`MergeSpec.SortReversesTies`), and a comparator sorts every list exactly when it answers no other
  negative number (`MergeSpec.SortsBySignExactly`).
- The logger's worker may log a message of its own before it fetches. If the ring is full by then it
  waits for itself (`LoggerRuns.DeadlockExactly`).
- Sizes just below the largest wrap when the memnode header is added: the block handed out is larger than
  its memnode (`PoolSizes.FreshNodeFits`, `PoolSizes.UnmanageableExactly`). On creating a pool they give
  one that is too small (`PoolTheorems.CreatedRoom`).
- The bound on the slot index lets 20 through, one past the slots 0 to 19 (`PoolSizes.SlotlessExactly`).
  The memnode is then stored where the header keeps the pointer to the parent. Nothing reads that, so the
  memnode is never found again and never given back (`PoolTheorems.LostExactly`). Its block is safe
  nevertheless: the invariants of all pools hold throughout a run exactly when no header sum wraps in it
  (`PoolTheorems.AlwaysOkExactly`).
- An allocation can miss a memnode with room, one page smaller than those it looks at
  (`PoolAnswers.MissedExactly`).
- Clearing a pool keeps its cleanup nodes in reserve although their memory is available again
  (`PoolTheorems.ClearAnchoredExactly`, `PoolTheorems.AnchoredExactly`), and blocks come to lie over them
  (`PoolReserve.ReserveIsOverwritten`).
- Destroying a pool looks at its header once for every slot, and gives back the memnode the header lies in
  on the way. It reads the header afterwards exactly when that memnode is not in the last slot, which the
  size given on creation decides (`PoolHeader.HeaderReadLateExactly`).
- Destroying a pool does not take it off its parent's list. Regions go back at most once exactly when no
  destroyed pool is destroyed again, by itself or with a pool above it (`Teardowns.OnceExactly`).
- A configuration line ends at each CR and at each LF, so a CR LF pair counts as two, and a last line
  without terminator is checked but adds nothing (`TokeniserTheorems.OnePass`).
- A least argument count of 0 cannot be told from none, so a command that takes 0 or 2 arguments takes
  only 2 (`ProcessTheorems.NoneOrTwo`). `ProcessTheorems.DeclaredAccepted` says when every declared count
  is accepted, `ProcessTheorems.UndeclaredAccepted` when an undeclared one is.
- Check runs the handler of a directive when it is called include, process runs every handler. Check
  vouches for process whatever it is given exactly when no other command that takes an argument has the
  include handler and the one called include does not import (`ProcessSafety.FaithfulExactly`). With the
  core module it does (`ProcessSafety.CoreVouches`).
- An included directory is opened and, because the result is compared with the wrong code, not read
  (`ProcessIncludes.DirectoryIsSkipped`). An error in one file of a wildcard include is forgotten
  (`ProcessIncludes.ErrorIsForgotten`). `ProcessIncludes.ReadsWholeExactly` says when neither happens.
- Nothing keeps files from including each other. The walk of such a configuration never succeeds, and
  otherwise it ends (`ProcessCycles.LevelsEndExactly`, `ProcessCycles.CyclicNeverFinishes`).
- The transcoder takes some ill-formed UTF-8 (`Utf.WellFormedExactly` and the three lemmas after it),
  so that two paths can come out the same (`UtfRoundTrip.SurrogatesMeet`); well-formed ones do not
  (`UtfRoundTrip.KeepsApart`).
- The address parser accepts some texts without writing the port (`Parse.PortUnwritten`).

## Model

| member | source | states |
|---|---|---|
| MergeSpec.SortPermutes | src/algo/list.c:178-247 | The sort rearranges: no node is lost, added or repeated. |
| MergeSpec.SortOrders | src/algo/list.c:187-198 | For any total preorder that the comparator reports through -1 the result is ordered. |
| MergeSpec.SortReversesTies | src/algo/list.c:188-197 | Nodes tied with each other come out in exactly the reverse of the order they had: the sort is anti-stable, because only -1 takes the left head. |
| MergeSpec.OrderAndTiesDetermine | src/algo/list.c:187-198 | Order and tie order leave no freedom: two ordered sequences with the same ties in the same order are equal, so the three statements above determine the sorted list. |
| MergeSpec.MergeTies | src/algo/list.c:187-210 | Merging two ordered chains puts the right chain's ties before the left chain's. |
| MergeSpec.MergeOrdered | src/algo/list.c:187-210 | Merging two ordered chains gives an ordered chain. |
| MergeSpec.SortsBySignExactly | src/algo/list.c:188 | For a comparator whose sign is a total preorder on some domain: every list over the domain comes out ordered by sign if and only if -1 is the only negative number the comparator answers there. |
| MergeSpec.OtherNegativeValuesReverse | src/algo/list.c:188 | One that never answers -1 at all reverses every list. |
| List.List.PushFront | src/algo/list.c:11-27 | On a well-formed list: the node becomes the first, the rest is unchanged, the count goes up, and the list is well formed again (links mutually inverse, right ends). |
| List.List.PushBack | src/algo/list.c:29-45 | The same at the other end. |
| List.List.Remove | src/algo/list.c:47-66 | Exactly the given node leaves the sequence, its own links stay readable, and the count goes down. |
| List.List.InsertBefore | src/algo/list.c:90-106 | The node enters directly before the given one; size is not touched, as in the code. |
| List.List.InsertAfter | src/algo/list.c:108-124 | The node enters directly after the given one; size is not touched. |
| List.List.Find | src/algo/list.c:74-88 | Returns the first node that matches, or null exactly when none does. |
| List.List.RemoveFirst | src/algo/list.c:126-150 | Refines removal of the first match, and reports whether there was one. |
| List.List.RemoveLast | src/algo/list.c:152-176 | Refines removal of the last match, and reports whether there was one. |
| List.List.MergeFrom | src/algo/list.c:178-211 | Two disjoint forward chains become one well-formed doubly linked list holding the merge of their nodes; size counts on from what it held, because only the end pointers are cleared. |
| List.List.MergeSort | src/algo/list.c:213-247 | Sorts in place by the stored size, right or wrong, as long as that does not lead it through NULL: the list ends well formed, its nodes are what the size makes of the nodes it had, and its count has grown by their number when there was something to sort. |
| SizedSort.FaultsExactly | src/algo/list.c:219-244 | Following the size and the links through all halves, the sort of n nodes reads through NULL if and only if the size is at least 2 and more than n + 1. |
| SizedSort.SortSizedPermutes | src/algo/list.c:178-247 | Otherwise it loses no node, however wrong the size. |
| SizedSort.SortSizedRight | src/algo/list.c:213-247 | With the right size it is the merge sort of the sequence. |
| SizedSort.SortSizedOrdersExactly | src/algo/list.c:219-247 | With a size below the number of nodes the result is ordered if and only if the nodes from the last one that the size counts onwards were ordered already, since they are taken as one run. |
| ListRuns.RunKeeps | src/algo/list.c:11-247 | Over any legal run of operations the nodes stay distinct and the size field is off by exactly the insertions less what sorting added. |
| ListRuns.SizeRightExactly | src/algo/list.c:11-247 | Over any legal run that starts with the right size, it is right at the end if and only if the insertions and what sorting added cancel out. |
| ListRuns.SizeStaysRight | src/algo/list.c:11-66 | In particular after any legal run without insertions and sorts. |
| ListRuns.SortSpoilsSize | src/algo/list.c:185 | A list sorted by the right size is sorted; sorting it once more reads through NULL if and only if it has two nodes or more, because its size is now twice its length. |
| ListRuns.SortBySize | src/algo/list.c:219-247 | When a sort is legal, that it permutes, and exactly when it orders, in terms of the stored size a list has come to. |
| ListRuns.PushPositions | src/algo/list.c:11-45 | A pushed node is at position 0 or behind the last, the others keep their order, and the count goes up by one. |
| ListRuns.InsertPositions | src/algo/list.c:90-124 | A node inserted before or after the k-th is at position k or k + 1, between the same neighbours, and is not counted. |
| ListRuns.RemovePositions | src/algo/list.c:47-66 | Of the removed node only its own position goes, and the count goes down by one. |
| ListRuns.RemoveFirstIsExact | src/algo/list.c:126-150 | The sequence loses the one element at the first matching position, or nothing matches and nothing changes; the count follows. |
| ListRuns.RemoveLastIsExact | src/algo/list.c:152-176 | The sequence loses the one element at the last matching position, or nothing matches and nothing changes; the count follows. |
| LoggerInvariant.ProduceKeeps | src/core/log.c:426-459 | Every atomic step of any depositing thread keeps the invariant of the whole system. |
| LoggerInvariant.WorkKeeps | src/core/log.c:119-137 | Every atomic step of the worker keeps it. |
| LoggerTheorems.TokensConserved | src/core/log.c:119-137 | In every reachable state, with any number of threads: sem_empty plus sem_full plus the threads between a wait and the matching post is 32. |
| LoggerTheorems.WriterIsAlone | src/core/log.c:430-457 | In every reachable state a thread that writes a slot is the only writer, the slot holds no unfetched message, and the worker is not reading it. |
| LoggerTheorems.RingIsFifo | src/core/log.c:433-458 | The ring refines an unbounded queue: a thread enters its message at the step that claims a slot and at no other, the worker removes the oldest one at the step that formats it and at no other. |
| LoggerTheorems.FetchedIsPrefix | src/core/log.c:120-137 | What has been fetched is a prefix of what has been deposited, whole and in order, at most 32 behind, although sem_full is posted after the mutex is released. |
| LoggerTheorems.FewBefore | src/core/log.c:430-435 | When a message is entered, at most 31 others are still to be fetched before it. |
| LoggerTheorems.DepositsFollowScripts | src/core/log.c:415-459 | Each thread's messages enter in its own order, none twice and none skipped. |
| LoggerTheorems.StuckExactly | src/core/log.c:105-137 | A reachable state has no step left if and only if everything is delivered or the worker is blocked on its own start-up message with the ring full. |
| LoggerTheorems.NoDeadlockOnceFetching | src/core/log.c:119-137 | Once the worker is fetching, the system never gets stuck while a thread has something left to log. |
| LoggerTheorems.QuietIsComplete | src/core/log.c:119-137 | In the final state every script has been fetched and each log holds exactly the messages its level lets through, in deposit order. |
| LoggerTheorems.PassedExactly | src/core/log.c:130-133 | A log of a level holds a message as often as it was logged when its level is not above that, and never otherwise. |
| LoggerTheorems.PassedInOrder | src/core/log.c:130-133 | And its messages are in the order in which they were logged. |
| LoggerRuns.StepCosts | src/core/log.c:119-137 | Every step of any thread uses up exactly one unit of a measure. |
| LoggerRuns.RunsAreBounded | src/core/log.c:415-459 | No interleaving takes more than a fixed number of steps per message. |
| LoggerRuns.DeadlockExactly | src/core/log.c:105-120 | The start-up deadlock can be reached if and only if the worker logs on starting and all threads together have more than 32 messages. |
| LoggerRuns.MaximalRunsDeliver | src/core/log.c:119-137 | Outside that case every run that cannot be prolonged has delivered every message to every log that wants it. |
| Logger.Logger.constructor | src/core/log.c:215-249 | The logger starts in the initial state: 32 free slots, none full, both mutexes free. |
| Logger.Logger.Claim | src/core/log.c:433-435 | In place: the slot at rear is claimed, rear moves on by one round the ring, the message enters the queue; the memory stays one that some run reaches. |
| Logger.Logger.StoreText | src/core/log.c:437-448 | Only the text of the claimed slot changes, and that slot is the writer's alone. |
| Logger.Logger.StoreTime | src/core/log.c:450-452 | The same for the time. |
| Logger.Logger.StoreLevel | src/core/log.c:454 | The same for the level. |
| Logger.Logger.Deposit | src/core/log.c:429-458 | The whole of fpx_log_error without interruption: the message stands whole in the slot that was at rear and no other slot has changed, one token has moved from sem_empty to sem_full, the mutex is free, and the message is last in the queue. |
| Logger.Logger.FormatSlot | src/core/log.c:126-128 | What is formatted is the oldest message not yet formatted, whole, although it is read from a slot. |
| Logger.Logger.CallHandler | src/core/log.c:130-133 | The k-th log gets the message at its end if its level lets it through, and no other log changes. |
| Logger.Logger.Turn | src/core/log.c:119-137 | A whole turn of the worker without interruption: the message at front is the oldest deposited one not yet fetched, every log whose level lets it through gets it exactly once, front moves on, one token has moved from sem_full to sem_empty, and the mutex is free. |
| PoolSizes.AlignedExactly | src/system/pool.c:57-70 | The aligned size is the least multiple of the word that is at least the request and the minimum; it is the failure value exactly for the last seven sizes of size_t. |
| PoolSizes.FreshNodeFits | src/system/pool.c:72-84 | A fresh memnode of fpx_get_npages pages holds the request, with at most one page to spare, if and only if adding the node header does not wrap. |
| PoolSizes.UnmanageableExactly | src/system/pool.c:75 | The requests for which that addition wraps are exactly 48 consecutive sizes just below the failing ones. |
| PoolSizes.SlotlessExactly | src/system/pool.c:194 | The sizes that the bound check lets through with slot index 20, one past the array, and those that have a slot. |
| PoolTheorems.CreatedExactly | src/system/pool.c:184-200 | Creation succeeds exactly when request and both headers stay below 21 pages, one more than there are slots for, or their sum wraps. |
| PoolTheorems.CreatedRoom | src/system/pool.c:202-237 | A created pool has a memnode with room for the requested size if and only if that sum does not wrap and stays below 20 pages. |
| PoolRuns.StepKeepsExactly | src/system/pool.c:259-342 | An operation keeps the pool's invariants (memnode fields agree, no two memnodes share memory, blocks lie inside memnodes and apart or in regions of their own, the bytes add up) if and only if it is not a request for which the header sum wraps. |
| PoolTheorems.LostExactly | src/system/pool.c:313-327 | Every region a request takes from the system becomes the pool's to give back if and only if its memnode has a slot; otherwise it is lost. |
| PoolTheorems.AlwaysOkExactly | src/system/pool.c:170-561 | Over any run of creating pools and of operations on any pools of a process, the invariants of all pools hold throughout, with no region shared by two pools, if and only if the run has no such request. |
| PoolTheorems.BlocksAreSafe | src/system/pool.c:259-342 | After any such run, the blocks handed out since the last clear are pairwise disjoint, word-aligned, long enough, and inside one memnode clear of the headers, or in a region of their own: what the system allocator gave, or the part of a memnode without a slot behind its header. |
| PoolTheorems.PoolsAreApart | src/system/pool.c:259-342 | And no block of one pool shares a region with a block of another. |
| PoolTheorems.BytesAreConserved | src/system/pool.c:466-518 | After any such run, free size plus bytes handed out from the pool's memnodes is the pool's size, and the total size is the sum of what the memnodes were allocated with. |
| PoolTheorems.AnchoredIsSafe | src/system/pool.c:356-381 | While every cleanup node lies in a block handed out since the last clear, no other block touches one. |
| PoolTheorems.ClearAnchoredExactly | src/system/pool.c:142-144 | Clear keeps that so if and only if the pool has no cleanups and no reserve. |
| PoolTheorems.ReserveLiesAvailable | src/system/pool.c:549-556 | Otherwise every cleanup node kept in the reserve lies in memory that clear has made available again. |
| PoolReserve.ReserveIsOverwritten | src/system/pool.c:142-144 | And for every pool and every one of its cleanup nodes some number of further requests ends with a block lying over the node, which is still in the reserve. |
| PoolTheorems.AnchoredExactly | src/system/pool.c:128-561 | Over a whole run, cleanup nodes keep memory of their own if and only if no pool that has cleanup nodes is ever cleared. |
| PoolTree.ClearRunsInPreorder | src/system/pool.c:520-547 | Clear runs each registered cleanup of the subtree exactly once, in preorder: a pool's own last-added first, then its children newest first. |
| PoolTree.DestroyRunsInPreorder | src/system/pool.c:579-588 | So does destroy. |
| PoolTree.DestroyFreesInPostorder | src/system/pool.c:579-597 | The memnodes go back in postorder: those of all pools below a pool before its own, slot by slot and newest first. |
| PoolTree.DestroyReleasesOwned | src/system/pool.c:579-597 | The regions destroy gives back are, with multiplicity, those owned by the pools of the tree. |
| PoolTree.DestroyReleasesOnce | src/system/pool.c:563-598 | After any such run, destroying a tree gives back every memnode and every oversized block of its pools exactly once and nothing else. |
| PoolTree.ClearLeavesAllFull | src/system/pool.c:549-556 | After clear every pool of the tree has no cleanups and every memnode is full. |
| PoolHeader.LateInTree | src/system/pool.c:579-597 | In the teardown of a whole tree a pool's header is read after its memory has gone back if and only if its memnode is not in the last slot. |
| PoolHeader.HeaderReadLateExactly | src/system/pool.c:170-598 | For a pool created with any size, after any such run and in any tree of the process: destroy reads its header after giving it back if and only if size and headers stay below 19 pages or wrap. |
| PoolForest.BelowIsDistinct | src/system/pool.c:150-168 | The order in which a teardown goes through the pools below one, along child and brother pointers, comes to none of them twice. |
| Teardowns.NewChildIsNext | src/system/pool.c:150-168 | A teardown of its parent comes to a new pool right after the parent, and then to the pools it came to before, in the same order. |
| Teardowns.OnceExactly | src/system/pool.c:170-598 | Over any run of creating, using, clearing and destroying pools, in which destroying a pool leaves it on its parent's list, every region goes back to the system at most once if and only if no destroyed pool that has a memnode is destroyed again, by itself or with a pool above it. |
| Teardowns.OnceFromStart | src/system/pool.c:170-598 | In particular from the start of a process. |
| Teardowns.ChildThenParent | src/system/pool.c:579-597 | Destroying a child that has a memnode and then its parent gives a region back twice. |
| Teardowns.ClearGivesNew | src/system/pool.c:520-561 | Clearing a pool never gives back anything a second time, whatever destroyed pools are below it. |
| Pools.MemPool.Search | src/system/pool.c:299-310 | The nested loops find the first memnode with room, from the starting slot on, or none. |
| PoolAnswers.TakesFirstRoom | src/system/pool.c:298-310 | When some memnode from the slot of the request on has as many bytes available as the request rounds up to, palloc takes no memory from the system: it answers the first free byte of the first such memnode, in slot order and then chain order, uses up that many bytes of it, and changes nothing else. |
| PoolAnswers.MakesRoom | src/system/pool.c:312-327 | When none has, it takes one region of as many 4096-byte pages as the request needs, puts the memnode in front of its slot, answers the byte behind the 48 bytes of its header, and changes nothing else. |
| PoolAnswers.IssuesExactly | src/system/pool.c:298-327 | So a request that has a slot takes a new region if and only if no memnode from that slot on has room. |
| PoolAnswers.FailsExactly | src/system/pool.c:268-271 | palloc fails, and leaves everything as it is, exactly for the last seven sizes. |
| PoolAnswers.BeyondSlots | src/system/pool.c:280-291 | Which requests get a region that no memnode of the pool knows of, and which one of their own, from its first byte, with its release registered as a cleanup. |
| PoolAnswers.RegisterAnswers | src/system/pool.c:356-381 | A cleanup is put on top of the others; its node is the first of the reserve or, when that is empty, what palloc answers for 24 bytes. |
| PoolAnswers.UnregisterAnswers | src/system/pool.c:383-464 | Of the cleanups for a task the last-added one is taken out from between the others and its node goes to the front of the reserve; without one nothing changes. |
| PoolAnswers.ClearAnswers | src/system/pool.c:128-148 | Clearing empties every memnode where it is and puts the nodes of all cleanups before the reserve, the node of the cleanup that ran last first. |
| PoolAnswers.CreateAnswers | src/system/pool.c:170-257 | For which sizes a pool is created, and its one memnode: which slot it is in, with how many bytes behind the two headers of 48 and 200 bytes, or that there is none. |
| PoolAnswers.MissedExactly | src/system/pool.c:278-327 | palloc takes a new region although some memnode of the pool has room if and only if none from the slot of the request on has, request and header fill whole pages, and a memnode of the next smaller slot is wholly unused and of just the size. |
| Pools.MemPool.Palloc | src/system/pool.c:259-342 | In place: the new state, the address returned and the regions used are those of the value model, for failing, small and oversized requests; the lemmas of PoolAnswers say which these are. |
| Pools.MemPool.CleanupAdd | src/system/pool.c:356-381 | The cleanup goes on top; its node comes from the reserve if there is one and from the pool otherwise. |
| Pools.MemPool.CleanupRun | src/system/pool.c:383-423 | The last-added cleanup that matches is run once and its node goes to the reserve; without a match nothing happens. |
| Pools.MemPool.CleanupRemove | src/system/pool.c:425-464 | The same without running it. |
| Pools.MemPool.CleanupRunAll | src/system/pool.c:128-148 | All cleanups run, last-added first, and all their nodes go to the reserve. |
| Pools.MemPool.Create | src/system/pool.c:170-257 | The new pool is the value model's; it becomes its parent's first child, in front of the older ones. |
| Pools.MemPool.AddChild | src/system/pool.c:150-168 | The tree below the parent is the new child with its subtree, then the older children. |
| Pools.MemPool.GetSize | src/system/pool.c:466-482 | The sum of the memnodes' sizes. |
| Pools.MemPool.GetFreeSize | src/system/pool.c:484-500 | The sum of what is available. |
| Pools.MemPool.GetTotalSize | src/system/pool.c:502-518 | The sum by slots. |
| Pools.MemPool.Clear | src/system/pool.c:520-561 | Terminates on any finite tree; runs the cleanups in the order above and leaves each pool of the tree cleared as in the value model, in place. |
| Pools.MemPool.Destroy | src/system/pool.c:563-598 | Terminates on any finite tree; runs the cleanups and gives back the memnodes in the order above. |
| Tokeniser.Config.SaveDirective | src/core/command.c:18-47 | One directive is added. Its arguments are copied to a vector that was not there before, so it shares none with an older directive or with the parser, which goes on to overwrite its own. |
| Tokeniser.Config.Look | src/core/command.c:85-132 | What each character does, tab, space, LF, CR, NUL and # by name, to the flags and the start of a word, and when it is a syntax error. |
| Tokeniser.Config.Parse | src/core/command.c:49-182 | The loop, which writes the words of all lines to one vector, adds exactly the directives of the character-by-character pass and ends as it does; at the end each directive has the arguments of its own line, no two share a vector, and those stored before are unchanged. |
| TokeniserTheorems.OnePass | src/core/command.c:79-181 | On every text the pass equals the declarative reading: split lines at each CR and each LF, cut comments, split at blanks, drop empty lines, number the lines; a last line without terminator is only checked. The lemmas of TokeniserLines say the same by the characters. |
| TokeniserLines.ReadsLines | src/core/command.c:79-181 | A text of lines that each end in CR or LF and hold at most eight words of characters up to 0x7f, separated and surrounded by any mixture of tabs and spaces, and perhaps a comment at the start or after a blank, gives for each line with words the directive of these words, numbered by line. |
| TokeniserLines.StopsAtOtherLine | src/core/command.c:109-156 | After such lines a terminated line that cannot be laid out so, whether for a # behind a word, a character from 0x80 or an eighth argument, is a syntax error at its line, with the directives of the lines before it. |
| TokeniserLines.RestIsChecked | src/core/command.c:79-181 | What follows the last CR or LF gives no directive, and is a syntax error if and only if it cannot be laid out; a word that reaches the end of the text does not count towards the eight. |
| TokeniserTheorems.ErrorKeepsEarlierLines | src/core/command.c:109-156 | On a syntax error exactly the directives of the earlier lines have been added. |
| TokeniserTheorems.ReadPrint | src/core/command.c:79-181 | Printing directives one per line and reading them gives the same list with consecutive line numbers. |
| TokeniserTheorems.ReadIsPrintable | src/core/command.c:120-156 | Every directive that reading adds can be printed. |
| TokeniserTheorems.ReadPrintRead | src/core/command.c:79-181 | Printing what was read and reading it again changes nothing but the line numbers. |
| Process.CheckArguments | src/core/command.c:218-244 | The count is accepted exactly when it is the least positive one allowed or between that and the greatest; a lower bound of 0 counts as none. |
| ProcessTheorems.DeclaredAccepted | src/core/command.c:218-244 | Every declared argument count is accepted if and only if 0 is not declared together with another. |
| ProcessTheorems.UndeclaredAccepted | src/core/command.c:218-244 | An undeclared count is accepted if and only if it lies between two declared ones, 0 not counted among these, or is 0 and none is declared. |
| ProcessTheorems.NoneOrTwo | src/core/command.c:218-244 | The smallest case: a command that takes 0 or 2 arguments takes only 2. |
| Process.Server.FindCommand | src/core/command.c:184-200 | The nested search returns the first command of that name in the first module that has one. |
| ProcessOutcomes.FindExactly | src/core/command.c:184-200 | A lookup finds a command if and only if some module has one of that name, and then it is the first of that name in the first such module. |
| ProcessOutcomes.AcceptsExactly | src/core/command.c:218-244 | A count is accepted if and only if it lies between two positive counts below eight that the mask declares, or is 0 and the mask declares no positive one. |
| ProcessOutcomes.CoreTakes | src/core/server.c:244-255 | The names of the core commands, and that each takes exactly one argument except log, which takes two or three. |
| ProcessOutcomes.IncludeFails | src/core/command.c:624-654 | The include handler fails if and only if there is no absolute path, the path names nothing, or it names a file that cannot be read or is ill formed. |
| ProcessOutcomes.ImportFails | src/core/module.c:11-165 | The import handler fails if and only if there is no absolute path, nothing can be loaded from it, or a module of that name is there already. |
| ProcessOutcomes.StopsExactly | src/core/command.c:363-461 | Over every run of check and process: at the end of the list the walk finishes; before it, it stops at a directive as unknown if and only if no command has its name, for the wrong count if and only if its command does not accept the count, as failed if and only if its command accepts the count and its handler is run and refuses it, with handlers other than include and import refusing what the world does not accept; otherwise it goes to the next directive. |
| ProcessOutcomes.TurnLeaves | src/core/command.c:363-461 | What a turn that goes on has changed: an import has appended its module, an include what it reads, and otherwise nothing. |
| ProcessOutcomes.ProcessOutcome | src/core/command.c:412-461 | When process stops, every directive before the one it stops at has a command that accepts its count and has been served by its handler, the status gives the reason that stopped it, and it finishes if and only if all directives have gone through. |
| Process.Server.AddModule | src/core/module.c:11-28 | A module is appended unless one of its name is there. |
| Process.Server.Include | src/core/command.c:624-654 | What the included files say is appended to the directive list, and the files to the list of files, in order, also when reading then fails; of a directory nothing is. |
| Process.Server.WalkList | src/core/command.c:363-461 | Check and process, walking the list while it grows, end with the lists, the modules and the error that the turn-by-turn model ends with, whenever that ends at all; the lemmas of ProcessOutcomes say which error that is. |
| ProcessTheorems.FindAppend | src/core/command.c:184-200 | A command once found stays the one found, whatever modules are appended. |
| ProcessTheorems.CheckedIsSafe | src/core/command.c:363-461 | If check succeeds, process on the same input never stops on an unknown directive or a wrong argument count, though it imports modules on the way; and if it finishes it has walked the same list. |
| ProcessSafety.AliasEscapesCheck | src/core/command.c:390-392 | With the include handler under another name, check passes and process stops on a directive check never saw. |
| ProcessSafety.ImportEscapesCheck | src/core/command.c:390-392 | So it is when the import handler is called include and loads a module with such a name. |
| ProcessSafety.FaithfulExactly | src/core/command.c:363-461 | Check vouches for process in every world, for every directive list and any number of turns, if and only if, among the commands that are found and take some arguments, only include has the include handler and include does not import. |
| ProcessSafety.CoreVouches | src/core/server.c:244-255 | The core module meets that, and every theorem about levels applies to it as long as no loadable module gives the include handler another name. |
| ProcessTheorems.WalkedByLevels | src/core/command.c:424-458 | A walk that finishes has visited the main file, then the files it includes in order, then theirs, level by level, each occurrence once. |
| ProcessTheorems.StopsInTime | src/core/command.c:424-458 | Once a level is empty, the walk stops after as many turns as the levels before it hold directives, and one. |
| ProcessCycles.LevelsEndExactly | src/core/command.c:424-458 | Some level of includes is empty if and only if the includes do not lead, however far from the main file, into a cycle of files including each other. |
| ProcessCycles.AcyclicEnds | src/core/command.c:424-458 | Without such a cycle the levels end within two levels more than there are include directives in the files. |
| ProcessCycles.AcyclicStops | src/core/command.c:424-458 | Then check and process stop, within a number of turns known beforehand. |
| ProcessTheorems.FinishesOnlyIf | src/core/command.c:424-458 | Without an empty level neither check nor process ever succeeds. |
| ProcessCycles.CyclicNeverFinishes | src/core/command.c:424-458 | So with such a cycle neither ever succeeds: it goes on for ever unless an error stops it. |
| ProcessIncludes.ListIsContents | src/core/command.c:246-301 | As long as no handler has failed the directive list is the main file followed by what the files read so far hold, in order. |
| ProcessIncludes.ReadsWholeExactly | src/core/command.c:464-654 | A check or process that succeeds has read whole every file its includes stand for if and only if none of the includes visited names a directory with a file in it, or a pattern with a match that is such a directory or a file that cannot be read or is ill formed. |
| ProcessIncludes.DirectoryIsSkipped | src/core/command.c:472-474 | The smallest case: with a directory that has a file in it process succeeds and has not read the file. |
| ProcessIncludes.ErrorIsForgotten | src/core/command.c:603-618 | And with a pattern that matches one ill-formed file it succeeds. |
| Utf.Decode | src/system/filesys.c:433-484 | For every buffer and every n: the value of the character, or which of the two errors, and where the pointer stops, past the character, past the first byte that does not follow, or not moved at all when n is too small. |
| Utf.PathToWide | src/system/filesys.c:486-531 | Succeeds if and only if the text is taken and its code units with the terminator fit outlen; then writes exactly these; never writes past outlen. |
| Utf.WideOfText | src/system/filesys.c:497-529 | Well-formed UTF-8 (section 3 of RFC 3629) comes out as the UTF-16 encoding of the same text (section 2.1 of RFC 2781) and a terminator. |
| UtfRoundTrip.Utf16Units | src/system/filesys.c:521-529 | A character beyond 16 bits is a high unit with its upper ten bits and a low one with its lower ten, less 0x10000; any other is one unit. |
| UtfRoundTrip.PathKeepsText | src/system/filesys.c:486-531 | A path that a decoder of its own, after section 4 of RFC 3629, reads as a text is taken, and what comes out before the terminator, read by a decoder of its own after section 2.2 of RFC 2781, is that text. |
| UtfRoundTrip.KeepsApart | src/system/filesys.c:486-531 | So well-formed paths that come out the same are the same. |
| UtfRoundTrip.SurrogatesMeet | src/system/filesys.c:446-450 | Ill-formed ones need not be: a character in four bytes and its two surrogates in three bytes each come out the same. |
| Utf.DecodesUtf8 | src/system/filesys.c:433-484 | The decoder undoes the encoder on every scalar beyond ASCII. |
| Utf.NeverOverlong | src/system/filesys.c:479-483 | For any input, whatever is accepted is in the shortest form for its value. |
| Utf.WellFormedExactly | src/system/filesys.c:433-531 | An input is taken without meeting an ill-formed byte or a surrogate if and only if it is well-formed UTF-8 and its terminator. |
| UtfRoundTrip.CleanSpells | src/system/filesys.c:433-531 | That is, if and only if the separate decoder reads it as a text. |
| Utf.CleanIsUtf8 | src/system/filesys.c:433-484 | A character that uses no such byte is the RFC's encoding of its value. |
| Utf.AcceptsSurrogate | src/system/filesys.c:446-450 | A surrogate in three bytes gets through. |
| Utf.AcceptsLongLead | src/system/filesys.c:441-445 | So does a lead byte from 0xf8. |
| Utf.AcceptsLatin | src/system/filesys.c:470-474 | So does a following byte from 0xc0. |
| Parse.Atoi | src/util/string.c:6-70 | The value of the digits if there are only digits, at least one, and it fits the type, -1 otherwise. |
| Parse.Strchr | src/util/string.c:153-167 | The first occurrence in the text, or none. |
| Parse.ParseSize | src/core/parse.c:9-59 | The size the text is worth if it is worth one of at most 0x7fff_ffff_ffff_ffff, -1 otherwise. |
| Parse.PrintedSize | src/core/parse.c:24-56 | A printed number is worth itself, and 1024 times as much before K or k, 1048576 times before M or m, 1073741824 times before G or g. |
| Parse.SizeExactly | src/core/parse.c:24-56 | A text is worth a size if and only if it is digits and perhaps one of these six letters behind them; a text that ends in anything else is worth none. |
| Parse.DigitBehind | src/util/string.c:6-70 | The value of a text of digits is to base ten. |
| Parse.SizeIsUnique | src/core/parse.c:24-56 | A text is worth at most one size. |
| Parse.ParseAddrPort | src/core/parse.c:61-137 | The scanning parser computes the declarative reading of the text. |
| Parse.TakePort | src/core/parse.c:97-106 | The text after a position is copied as the port exactly when it is a number from 1 to 65535. |
| Parse.PlainRoundTrip | src/core/parse.c:91-129 | A printed plain address with a port parses back to kind, address and port text. |
| Parse.BracketRoundTrip | src/core/parse.c:91-120 | So does a bracketed one; the address may be empty. |
| Parse.PortAlone | src/core/parse.c:78-89 | Corollary of the reading: a bare number from 1 to 65535 is a port on every IPv4 address; other bare numbers and the empty text are invalid. |
| Parse.WithPort | src/core/parse.c:91-130 | A text that ends in a colon and digits is refused when nothing stands before the colon or the digits are not from 1 to 65535; otherwise it is read by its host: one that starts with [ is refused unless it ends with ], and its address runs to the first ]; any other is refused if it has a ], and is the address itself. |
| Parse.WithoutPort | src/core/parse.c:109-130 | Any other text that is not all digits is read as a host in the same way, without a port. |
| Parse.AcceptedIsReproduced | src/core/parse.c:109-130 | Printing what was read from a text with a colon and a port gives the text back if and only if it is a plain address or it has only one ]. |
| Parse.PortUnwritten | src/core/parse.c:91-136 | Corollary of the reading: the text is accepted without the port being written if and only if it has no colon followed by digits to its end and its brackets are right. |

## Left out

- Sockets, listeners, connections, event loops, the server cycle, processes, signals and command-line flags: calls into the operating system.
- The error messages of parsers and handlers: they go through the logger and change nothing else here. The logger's own handlers do not log.
- Message formatting, timestamps, log files and the forked-process logger: a message is a value of three fields, a handler one step.
- More than one logging worker, thread cancellation and the start-up sleep.
- Failure of the operating system's allocator: every allocation is a new region, named by the order of issue.
- Locking in the pool, and the header fields it adds: the pool is used by one thread.
- Pages of another size than 4096 bytes and machines that are not LP64.
- What an overwritten cleanup node in reserve does to the reserve: the model says that blocks come to lie over it, and keeps the reserve as it was.
- Reading files, walking directories and globbing: maps from paths to contents and from include arguments to what they name.
- Loading and initialising modules: a map from paths to modules; fpx_preinit_modules changes nothing the walk looks at.
- `src/algo/array.c`, the red-black tree, error strings: nothing hard.
- The chains of memnodes, the cleanup lists and the directive and module lists are sequences held in fields; their own links are not modelled, since the list part covers linked lists.
- List.List.MergeSort: requires that the stored size does not lead it through NULL, since nothing can be said of what the code does then; `SizedSort.FaultsExactly` gives these sizes.
- List.List.InsertBefore: on a list whose links are right, as the code takes it to be; so for the other list operations.
- Pools.MemPool.Palloc: a memnode without a slot is not stored anywhere, where the code stores it over the pointer to the parent; nothing reads that pointer, and that the two share their place rests on the layout of the struct. The same holds for Pools.MemPool.Create.
- PoolTheorems.BlocksAreSafe: for runs in which no header sum wraps; `PoolTheorems.AlwaysOkExactly` shows that this is the exact condition for all invariants together.
- Teardowns.OnceExactly: for runs in which no header sum wraps and nobody uses a destroyed pool otherwise than by clearing or destroying it or a pool above it; what destroy leaves in memory stays there, and regions are not issued again.
- Pools.MemPool.CleanupRun: records that the handler ran; a handler that itself uses the pool is not modelled.
- Pools.MemPool.Destroy: says nothing about the pool objects afterwards, which must not be used again; it can still look at a header after the memory has gone back, because the fields of a pool object are kept apart from the memnode.
- Pools.MemPool.GetSize: the sum is unbounded, because the memory of live memnodes cannot exceed the address space; so are the other two.
- Process.Server.WalkList: requires that the walk stops, since a method has to; `ProcessCycles.AcyclicStops` says that it does without a cycle of includes, and with one it does only on an error.
- Tokeniser.Config.Parse: takes the file name for directives and errors as an argument, where the code reads it from the header of the list of files.
- Process.Server.Include: takes an include without arguments for a failure, where the code reads an argument that is not there.
- Process.Server.FindCommand: stands also for the search for the module of a command, which goes the same way.
- Utf.PathToWide: the input is NUL-terminated, as every caller provides.
