# Verified model of hcore

hcore is a C library of data structures and codecs in the style of nginx. This project models the
parts of it that rest on pointer surgery, arithmetic or a protocol, and proves what they promise.
`dafny verify dfyconfig.toml` checks everything.

| part | modules | what it is |
|---|---|---|
| red-black tree | `RbShape`, `RbKeys`, `RbNodes`, `RbTree`, `RbRuns` | the intrusive tree on linked nodes, with parent pointers and one sentinel, plain keys or wrap-around timer keys |
| pack codec | `ItemList`, `PackFormat`, `PackStream`, `PackRuns`, `PackAccept`, `Pack`, `PackTransfer` | the growing list with binary-search insertion, the wire format, the resumable parser, the printer, the add and get functions, and whole transfers |
| time | `Calendar`, `Time`, `Duration` | `hcore_gmtime` and `hcore_parse_time` |
| queue | `Queue` | the circular doubly linked queue with its stable in-place sort |
| text | `Numerals`, `Format`, `FormatNumbers`, `Astring` | number parsers and printers, the bounded formatter, the string that grows |
| CRC-32 | `Crc32Tables`, `Crc32` | two table-driven forms against the bitwise definition |
| mutex | `Shmtx` | the shared-memory spin lock as interleaved steps |
| pages | `SlabPages` | the layout of a slab pool and its page runs |
| addresses | `Inet` | IPv4 endpoints and port ranges, read and printed |
| output | `OutputRuns`, `OutputChain` | buffer chains gathered into I/O vectors and sent, byte by byte |

`Wrappers`, `Sequences`, `Powers` and `Bytes` hold what several of these share.

Code that updates its data in place is modelled by classes and arrays, with ghost values that say
what the heap holds: the shape and in-order sequence of a tree, the elements of a pack, the walk
around a queue, the runs of a page table. Each method is proved against these values, and lemmas
prove what the source promises about them. Integer widths are explicit: `Key` and `Uint32` wrap at
2^32, `Duration.Int` is the 32-bit `int`, so that every operation on it is proved not to overflow,
and CRC words are bit vectors.

A tree is described by a `Shape` of nodes and, where a loop works in its middle, by a `Path` that
leads there from the root. The fix-up loops of insert and delete are proved step by step to move
along such a path; every rotation and recolouring has a value-level lemma in `RbShape` and a
heap-level method in `RbTree`.

## Where the code meets its promise only under a condition

* Timer keys: the signed difference is an order on a set of keys if and only if all of them lie in one
  half turn of the counter (`RbKeys.WindowIffOrder`); `RbKeys.ComparisonCycles` is a cycle.
* `hcore_gmtime` keeps the day number in 32 bits. `Time.InstantIsExact` says exactly for which time
  stamps that does no harm, `Time.InstantCutOff` gives one for which it does.
* `hcore_shmtx_force_unlock` keeps the lock safe exactly when it is not aimed at another process in its
  critical section (`Shmtx.StepKeepsSafe`, `Shmtx.SafeExactlyWhenRestricted`);
  `Shmtx.UnrestrictedForceUnlockFails` is an execution with two processes in the critical section.
* A process that always finds the lock taken comes to the end of its round of back-off exactly when
  `spin` is at most 2^31 (`Shmtx.BackOffEnds`), although `hcore_shmtx_init` leaves a `spin` of 2^32 - 1
  as it is.
* The size of a printed pack is the size computed in advance exactly when no added string holds a
  NUL byte (`Pack.Pack.Write`); `PackRuns.NulExample` is a pack for which it is not.
* The loop of `hcore_tcp_send_chain` ends with an error or a short write only; nothing in it says that the
  chain has been sent. `hcore_writev` repeats a call that would block, so the sender's branch for such a
  call (src/hcore_connection.c:376-383) is never taken. While the system takes something of every call,
  the loop is left if and only if some answer is below the bytes that its round can reach
  (`OutputRuns.LeftWhenShort`), and it is stuck, whatever the system takes, if and only if the buffers in
  reach of a round hold no bytes (`OutputRuns.StuckIffNothingInReach`). Once everything has been sent
  this is so: one byte that the first call takes is an example (`OutputRuns.OneByteLoops`). It is also so with
  bytes left behind as many empty buffers as the vector has entries (`OutputRuns.EmptyBuffersBlock`);
  some answers of the system get the whole chain sent if and only if no such series stands at the start of
  the chain or behind a buffer with bytes (`OutputRuns.SendsAllIffClear`), so always when no buffer is empty
  and the vector has two entries (`OutputRuns.NoEmptyBuffersIsClear`).
* 255.255.255.255 and port 0 are printed but not read back (`Inet.EndpointRoundTrip`).

`RbRuns.Drive`, `Queue.SplitAndAdd` and the methods of `PackTransfer` stand for callers: they put the
operations of the library one after the other.

## Model

| member | source | states |
|---|---|---|
| `RbTree.Tree.constructor` | include/hcore_rbtree.h:47-51 | a new tree is a valid red-black tree without nodes |
| `RbTree.Tree.Insert` | src/hcore_rbtree.c:31-109 | inserting any node that is not in the tree keeps search structure, black root, no red node with a red child, equal black heights, child links and parent links below the root; the in-order node sequence gains just that node, behind all keys that are not greater and in front of all greater ones |
| `RbTree.Tree.FindPlace` | src/hcore_rbtree.c:111-163 | the descent of either insert function ends at an empty link on the side that the comparison names, and the place of that link in the in-order sequence is behind the keys that are not greater and in front of the greater ones |
| `RbTree.Tree.InsertFixup` | src/hcore_rbtree.c:54-108 | from a tree whose only flaw is one red node that may have a red parent, the loop ends in a red-black tree with the same nodes in the same order |
| `RbTree.Tree.FixLeft` | src/hcore_rbtree.c:58-81 | one round below a left child keeps the loop's invariant and the order of the nodes, and moves up |
| `RbTree.Tree.FixRight` | src/hcore_rbtree.c:82-105 | the mirrored round keeps the same and moves up |
| `RbTree.Tree.LeftRotateAt` | src/hcore_rbtree.c:333-358 | rotating anywhere in a tree, at the root too, leaves exactly the links of the turned tree: same nodes, same order, every parent link right |
| `RbTree.Tree.RightRotateAt` | src/hcore_rbtree.c:360-385 | the mirrored rotation |
| `RbTree.Tree.Delete` | src/hcore_rbtree.c:165-331 | deleting any node of a valid tree leaves a valid red-black tree; node and key sequences lose just that entry, so every other node keeps its identity and key; the removed node's links are cleared |
| `RbTree.Tree.PickSubstitute` | src/hcore_rbtree.c:176-195 | the node unlinked is the node itself or, with two children, its in-order successor, which has no left child |
| `RbTree.Tree.TakeOut` | src/hcore_rbtree.c:211-246 | unlinking the substitute and putting it in the node's place, adjacent or not, leaves the heap of the tree without the node, even where the shared sentinel's parent is overwritten |
| `RbTree.Tree.DeleteFixup` | src/hcore_rbtree.c:256-330 | from a tree in which one subtree is one black node short, the loop ends in a red-black tree with the same nodes in the same order |
| `RbTree.Tree.FixShortLeft` | src/hcore_rbtree.c:260-293 | one round keeps the shortage in one place and the order of the nodes, and gets closer to the end, the round that turns a red sibling included |
| `RbTree.Tree.FixShortRight` | src/hcore_rbtree.c:294-327 | the mirrored round |
| `RbShape.InsertDone` | src/hcore_rbtree.c:54-108 | when the insert loop's condition fails, blackening the root makes the tree red-black |
| `RbShape.TakenNextFits` | src/hcore_rbtree.c:211-246 | taking the successor out and recolouring it as the node leaves all black heights right but the one below the gap |
| `RbShape.SiblingLiftedFits` | src/hcore_rbtree.c:287-291 | with a red far nephew the rotation pays the missing black node back: the whole tree is red-black |
| `RbTree.Tree.Next` | src/hcore_rbtree.c:387-411 | returns the in-order successor, or null behind the last node, also when the root's parent link is stale |
| `RbTree.Tree.Min` | include/hcore_rbtree.h:68-73 | returns the first node of a subtree in order |
| `RbTree.Tree.Traverse` | src/hcore_rbtree.c:387-411 | from the minimum, next visits every node exactly once, in order, and then stops |
| `RbTree.Tree.HeightIsLogarithmic` | src/hcore_rbtree.c:31-331 | 2^height is at most (n + 1)^2 in every valid tree |
| `RbKeys.ComparesByRank` | src/hcore_rbtree.c:133-163 | inside a half turn of the counter the signed difference compares times of expiry |
| `RbKeys.WindowIffOrder` | src/hcore_rbtree.c:133-163 | on any timer keys the signed difference is asymmetric and transitive if and only if some instant has all of them in the half turn behind it |
| `RbKeys.ComparisonCycles` | src/hcore_rbtree.c:133-163 | without such a window, three timer keys can be each to the left of the next |
| `RbKeys.RankOrderIsStable` | src/hcore_rbtree.c:133-163 | two keys compare the same from every instant whose window holds both |
| `RbKeys.SortedInsert` | src/hcore_rbtree.c:111-163 | a key put where the descent ends keeps the keys in order |
| `RbRuns.RunStaysSorted` | src/hcore_rbtree.c:31-331 | in every run of inserts and deletes from the empty tree, the in-order keys are in order of value or expiry, while the clock goes round any number of times |
| `RbRuns.Drive` | src/hcore_rbtree.c:31-411 | any legal sequence of insert and delete calls on a real tree, followed by a traversal, yields just the nodes inserted and not deleted again, each once, with their keys in order of value or expiry |
| `ItemList.List.constructor` | src/hcore_list.c:22-40 | a new list is empty and counts as sorted. Here and in every operation below: when the flag `sorted` is set, a list with a comparator is ordered, for comparators that are total preorders on the items |
| `ItemList.List.Add` | src/hcore_list.c:89-123 | appends the item, whether or not there is room, and marks the list as unsorted |
| `ItemList.List.Insert` | src/hcore_list.c:139-221 | puts the item at the place of the binary search, after sorting when needed, so that the flag still means ordered; without a comparator it appends |
| `ItemList.List.Delete` | src/hcore_list.c:223-269 | removes the first occurrence and nothing else, or reports that there is none; an ordered list stays ordered |
| `ItemList.List.DeleteAll` | src/hcore_list.c:271-289 | empties the list |
| `ItemList.List.Search` | src/hcore_list.c:291-324 | on an ordered list finds an equal item exactly when there is one; an unsorted list is sorted first, and the flag then means ordered |
| `ItemList.InsertedOrdered` | src/hcore_list.c:139-221 | the place of the binary search keeps any ordered list ordered, for every comparator that is a total preorder on the items |
| `ItemList.InsertedStrictly` | src/hcore_list.c:139-221 | and strictly ordered when no item is equal |
| `ItemList.PlaceFindsEqual` | src/hcore_list.c:139-221 | the search stops at an equal item when there is one |
| `PackFormat.CmpNameOrder` | src/hcore_pack.c:425-443 | on names below 2^31 bytes the comparison by type, length and bytes is a strict total order whose zero is equality |
| `PackFormat.CmpNameDecides` | src/hcore_pack.c:425-443 | the type decides, then the length, then the first byte that differs |
| `PackFormat.CmpPreorder` | src/hcore_pack.c:425-443 | so the list may search and sort by it |
| `PackStream.ParseTwice` | src/hcore_pack.c:120-327 | parsing `a` and then what is left with `b` behind it is parsing `a + b`, failure included |
| `PackStream.FeedIsParse` | src/hcore_pack.c:120-327 | from any reachable state, feeding chunks, with unread bytes presented again, is parsing the whole stream |
| `PackStream.Fragmentation` | src/hcore_pack.c:120-327 | two ways of cutting a stream end in the same parser state and elements with the same count of bytes used, or both fail |
| `PackStream.ReceivedInOrder` | src/hcore_pack.c:120-327 | whatever bytes a new pack has read, its elements are in the order of the comparison as long as all their names are below 2^31 bytes |
| `PackStream.PrintedIsReceived` | src/hcore_pack.c:120-327 | the printed form of any list of elements that respects the limit, in any order, with names more than once and with NUL bytes, is consumed exactly and read as just these elements, each put in its place, strings cut off at the first NUL |
| `PackAccept.AcceptsJustPrinted` | src/hcore_pack.c:120-327 | a stream is accepted if and only if it begins with the printed form of a non-empty list of elements with known types, at least one value each, and no more elements than the limit; what is used of it and the elements are those of the list |
| `PackAccept.LimitIsKept` | src/hcore_pack.c:160 | at no point of any stream does a parser hold more elements than its limit |
| `PackAccept.PrintedExample` | src/hcore_pack.c:41-105 | the bytes of a pack with an int and a text |
| `PackStream.RoundTrip` | src/hcore_pack.c:41-327 | the printed form of any strictly sorted list of elements, with anything behind it, is consumed exactly and read back as that list |
| `PackRuns.AddedReflects` | src/hcore_pack.c:635-709 | an accepted add call keeps the list strictly sorted, one element for each type and name, holding just the values added under it in order |
| `PackRuns.UnderIsInOrder` | src/hcore_pack.c:635-709 | the values under a type and name are those of all the calls with it, one for each, in the order of the calls |
| `PackRuns.AddedAccounted` | src/hcore_pack.c:635-709 | and the size kept while adding is the exact length of the printed form plus what was cut off at a NUL |
| `PackRuns.NothingDropped` | src/hcore_pack.c:347-365 | nothing is cut off if and only if no string that was added holds a NUL byte |
| `PackRuns.NulSpoilsSize` | src/hcore_pack.c:347-365 | a string with a NUL byte anywhere makes the size of the whole pack too large for what is printed |
| `PackRuns.NulExample` | src/hcore_pack.c:347-365 | the pack of one string of a single NUL byte, whose size is one too large |
| `PackRuns.ReceivedAsAdded` | src/hcore_pack.c:41-327 | whatever was added, a receiver with a sufficient limit reads the printed form as the same elements, so finds under each type and name the values added |
| `PackRuns.Canonical` | src/hcore_pack.c:635-709 | two packs print the same bytes whenever the same values were added under each type and name, however the calls were interleaved |
| `Pack.Pack.constructor` | include/hcore_pack.h:293-309 | a new pack is the initial parser state and an empty filled pack |
| `Pack.Pack.Read` | src/hcore_pack.c:120-327 | on any buffer and from any reachable state the loop terminates, fails exactly when the parser does, and otherwise reaches the parser's state and elements and returns its count of bytes |
| `Pack.Pack.Round` | src/hcore_pack.c:134-321 | one round of the loop is one step of the parser in each of its phases, the rounds of zero bytes included |
| `Pack.Pack.CreateElem` | src/hcore_pack.c:728-766 | a new element gets its place in the list and is the one being filled from then on |
| `Pack.Pack.Get` | src/hcore_pack.c:711-726 | finds an element with a type and name exactly when there is one, in filled packs and in all received ones, also where several elements share type and name |
| `Pack.Pack.GetArray` | src/hcore_pack.c:463-488 | returns precisely the values added under the type and name in insertion order, in a filled pack or one that has received them; an error when there are none |
| `Pack.Pack.AddValue` | src/hcore_pack.c:635-709 | is refused exactly when the element would be new and the limit is reached, and then changes nothing; otherwise the list gains just that value and the invariant of filled packs holds; a pack within its limit stays so |
| `Pack.Pack.AddTo` | src/hcore_pack.c:329-378 | the value goes behind the others and the size grows by its printed length |
| `Pack.Pack.Write` | src/hcore_pack.c:41-105 | fills a buffer of the precomputed size with the printed form; the sizes agree if and only if no added string holds a NUL byte; an empty pack gives no buffer and a second call returns the first buffer |
| `PackTransfer.FeedPack` | src/hcore_pack.c:120-327 | repeated calls of the reader on one pack, unread bytes presented again in front of the next chunk, reach the parser's state on the whole stream, or fail when that fails |
| `PackTransfer.Transfer` | src/hcore_pack.c:41-709 | a pack filled by any add calls, written, cut into any chunks and read chunk by chunk holds under every type and name just the values added, in the order of the calls |
| `Bytes.DecodeEncode` | src/hcore_pack.c:107-118 | reading an int gives what was written |
| `Bytes.LowByteFirst` | src/hcore_pack.c:107-118 | the low byte of an int comes first |
| `Calendar.DateIsUnique` | src/hcore_time.c:25-127 | no two dates have the same day number |
| `Calendar.MarchIsDayNumber` | src/hcore_time.c:63-75 | Gauss' formula counts the days to the first of March in every year, by induction over the years of the calendar |
| `Calendar.EstimatedYear` | src/hcore_time.c:66-82 | the estimate of the year is right or one too many, for every day number |
| `Calendar.MonthAndDay` | src/hcore_time.c:84-117 | the formula for month and day inverts the table of month lengths on every day of a year counted from March |
| `Time.DateOf` | src/hcore_time.c:63-117 | delivers the Gregorian date with the given day number, although the day number wraps below 0 on the way |
| `Time.YearOf` | src/hcore_time.c:66-82 | year and day of year, with the estimate corrected once |
| `Time.Gmtime` | src/hcore_time.c:25-127 | the fields are date, time of day and weekday of the instant, for every time stamp |
| `Time.LastDay` | src/hcore_time.c:38-47 | the constants of the clamp are December 31, 9999 and its last second |
| `Time.InstantIsExact` | src/hcore_time.c:33-47 | the instant is the time stamp, clamped to the years from 1970 to 9999, if and only if its day count fits 32 bits or the low 32 bits come to the same clamp |
| `Time.InstantCutOff` | src/hcore_time.c:33-47 | a time stamp that is shown as the beginning of 1970 |
| `Time.FieldsGiveInstant` | src/hcore_time.c:25-127 | the formula of section 4.16 of IEEE Std 1003.1-2017 takes the fields back to the instant |
| `Time.FieldsAreUnique` | src/hcore_time.c:25-127 | no other fields show that instant |
| `Time.WeekdayOfDate` | src/hcore_time.c:52 | the weekday is what Zeller's congruence gives for year, month and day, which counts no days |
| `Duration.ParseTime` | src/hcore_time.c:150-297 | returns the exact sum of numbers times units, or an error exactly when a unit is unknown or out of order, there is no digit, or the sum exceeds 2^31 - 1; no 32-bit operation overflows |
| `Duration.ReadUnit` | src/hcore_time.c:195-270 | recognises a unit, the two-letter ones first, with its factor, the largest number that may stand before it, and whether it may follow |
| `Duration.AddTerm` | src/hcore_time.c:272-278 | the guards before multiplying and adding are exact |
| `Duration.ShownMeansTotal` | src/hcore_time.c:150-297 | a list of terms in a legal order, written out with any blanks behind the units, is read as its total |
| `Duration.ReadIffDescending` | src/hcore_time.c:150-297 | terms written out, with blanks behind them and a number without a unit at the end or not, are read if and only if there is a number, each unit is shorter in milliseconds than the one before it, nothing follows a unit that is a blank, milliseconds occur only when not in seconds, and years and months only in seconds; and then as the sum of their lengths |
| `Queue.Init` | include/hcore_queue.h:25-27 | a sentinel linked to itself is an empty queue |
| `Queue.IsEmpty` | include/hcore_queue.h:29 | tells empty queues |
| `Queue.InsertAfter` | include/hcore_queue.h:31-43 | links a node in at any place, keeping one closed walk in both directions |
| `Queue.Remove` | include/hcore_queue.h:55-69 | takes just the one node out of the walk |
| `Queue.Split` | include/hcore_queue.h:71-77 | cuts a ring in front of a node into two rings |
| `Queue.Add` | include/hcore_queue.h:79-83 | joins two rings in sequence |
| `Queue.SplitAndAdd` | include/hcore_queue.h:71-83 | adding undoes a split at any node |
| `Queue.AddHead` | include/hcore_queue.h:87-91 | joins them the other way round |
| `Queue.Middle` | src/hcore_queue.c:20-43 | the two-speed walk stops at the node with the index n / 2 |
| `Queue.Sort` | src/hcore_queue.c:45-71 | in place, the ring becomes a ring of the nodes inserted one after the other, for every comparator |
| `Queue.SortedItems` | src/hcore_queue.c:45-71 | that has the same nodes |
| `Queue.SortedIsStable` | src/hcore_queue.c:45-71 | it is ordered, and nodes that are equal keep their order, for every total preorder |
| `Queue.StableSortIsUnique` | src/hcore_queue.c:45-71 | no other sequence is, so the result is the stable sort |
| `Crc32Tables.Table16IsFour` | src/hcore_crc32.c:31-34 | every entry of the small table is four steps of the bitwise division |
| `Crc32Tables.Table256IsEight` | src/hcore_crc32.c:37-80 | every entry of the large table is eight steps |
| `Crc32.LongStepIsByte` | include/hcore_crc32.h:42-55 | one lookup in the large table shifts one byte in, bit by bit with the polynomial 0xEDB88320 |
| `Crc32.ShortStepIsByte` | include/hcore_crc32.h:23-39 | two lookups in the small table do the same |
| `Crc32.Short` | include/hcore_crc32.h:23-39 | the loop computes the bitwise CRC of section 3.4 of RFC 2083 |
| `Crc32.Long` | include/hcore_crc32.h:42-55 | so does this one, hence both agree on every text |
| `Crc32.Register.Init` | include/hcore_crc32.h:58 | all bits set |
| `Crc32.Register.Update` | include/hcore_crc32.h:61-74 | shifts the text into what the register holds |
| `Crc32.Register.Final` | include/hcore_crc32.h:77 | complements the register |
| `Crc32.PiecesMakeTheWhole` | include/hcore_crc32.h:58-77 | init, updates with any pieces and final give the CRC of the whole text |
| `Crc32.DetectsOneByte` | include/hcore_crc32.h:23-77 | changing one byte changes the CRC |
| `Shmtx.StepKeepsSafe` | src/hcore_shmtx.c:40-102 | every step of every process keeps the invariant of the lock, `force_unlock` if and only if it is not aimed at another process in its critical section; a holder may force its own lock |
| `Shmtx.RunIsSafe` | src/hcore_shmtx.c:40-102 | so it holds throughout every interleaving |
| `Shmtx.SafeExactlyWhenRestricted` | src/hcore_shmtx.c:40-102 | an execution of any calls is safe in every state if and only if each `force_unlock` in it is restricted that way |
| `Shmtx.MutualExclusion` | src/hcore_shmtx.c:40-90 | at most one process is in its critical section, and the lock word is its id |
| `Shmtx.UnrestrictedForceUnlockFails` | src/hcore_shmtx.c:92-102 | an execution from the initial state, all of whose calls are restricted except the one `force_unlock`, ends with two processes in the critical section |
| `Shmtx.ForcedOwnerIsNotAlone` | src/hcore_shmtx.c:92-102 | the same from any safe state: whoever forces the lock of a live owner can join it |
| `Shmtx.UnlockByOther` | src/hcore_shmtx.c:83-90 | unlocking without owning the lock changes nothing |
| `Shmtx.StuckUntilForced` | src/hcore_shmtx.c:40-90 | after the owner has crashed nobody enters, in any run without `force_unlock` |
| `Shmtx.ForcedIsFree` | src/hcore_shmtx.c:92-102 | `force_unlock` on a crashed owner frees the lock safely |
| `Shmtx.FreeLockIsTaken` | src/hcore_shmtx.c:40-81 | an undisturbed attempt on a free lock succeeds |
| `Shmtx.TakenLockIsLeft` | src/hcore_shmtx.c:76-81 | `trylock` on a taken lock reads the lock word once and leads back to the same state |
| `Shmtx.LostRaceIsLeft` | src/hcore_shmtx.c:76-81 | and so it does when the lock is taken between its reading and its compare-and-set |
| `Shmtx.TrylockEnds` | src/hcore_shmtx.c:76-81 | in every interleaving `trylock` is over after at most two more steps without a pause or a yield: the process has the lock if it was free at the last of them, and otherwise is where it was with the lock word untouched |
| `Shmtx.LockGoesOn` | src/hcore_shmtx.c:40-74 | in every interleaving a process that has called `lock` goes on trying until it has the lock |
| `Shmtx.RoundEnds` | src/hcore_shmtx.c:46-73 | with a `spin` of at most 2^31, in every interleaving, a process that has taken enough steps without getting the lock has yielded |
| `Shmtx.NobodyYields` | src/hcore_shmtx.c:46-73 | with a larger `spin` no process ever yields, in any execution, because the length of the pauses is a power of two or has wrapped around to 0 for good |
| `Shmtx.BackOffEnds` | src/hcore_shmtx.c:46-73 | a process that always finds the lock taken yields at some step of the interleaved machine if and only if `spin` is at most 2^31 |
| `Shmtx.BackOffRound` | src/hcore_shmtx.c:54-62 | the number of pauses is one less than the power of two that `spin` is rounded up to |
| `Shmtx.PausesOfRound` | src/hcore_shmtx.c:46-73 | so often does a process of the interleaved machine pause in its round |
| `Numerals.Atoi` | src/hcore_string.c:222-251 | the value of a decimal numeral of at most 2^31 - 1, and -1 for any other text: the overflow test is exact |
| `Numerals.Atosz` | src/hcore_string.c:191-220 | the same up to 2^63 - 1 |
| `Numerals.Hextoi` | src/hcore_string.c:253-293 | the same for hexadecimal numerals in either case |
| `Numerals.ReadIffPrinted` | src/hcore_string.c:191-293 | a text is read as a number if and only if it is the number printed, with any zeros in front and in any case, and the number is not too large |
| `Numerals.ParseSize` | src/hcore_string.c:56-107 | the exact product of number and suffix, or -1 exactly when there is none or it does not fit |
| `Numerals.SizeIsRead` | src/hcore_string.c:56-107 | a number with the letter of a power of 1024 behind it, or with none, is read as the product, or as an error when that does not fit |
| `Numerals.DigitsRoundTrip` | src/hcore_string.c:637-727 | a printed number is a numeral of its base with that value |
| `Format.DigitsOf` | src/hcore_string.c:637-727 | the digits stored backwards fit the 20 bytes of the buffer and are the number's numeral |
| `Format.PutNumber` | src/hcore_string.c:637-727 | padding and digits come out as far as there is room |
| `Format.ReadSpec` | src/hcore_string.c:335-394 | width, precision and modifiers of a directive |
| `Format.PutDirective` | src/hcore_string.c:330-625 | one directive's output, cut off at the end of the buffer, and the arguments left |
| `Format.Vslprintf` | src/hcore_string.c:309-635 | writes exactly the prefix of the whole output that fits before `last`, returns its end, and leaves the rest of the buffer alone |
| `Format.CutOff` | src/hcore_string.c:309-635 | once the buffer is full, what is left of the output does not matter |
| `FormatNumbers.NumberIsReadBack` | src/hcore_string.c:335-625 | for every width, padding, letters and conversion, and every number in range, what is printed is a minus sign if and only if the number is negative, then padding up to the width or none, then a numeral without leading zeros, in the base and case asked for, that is read as the number |
| `FormatNumbers.TextIsPrinted` | src/hcore_string.c:399-426 | `%V` prints a text as it is, and `%s` up to its first NUL |
| `FormatNumbers.FrontIsPrinted` | src/hcore_string.c:408-426 | with a length in front of it `%s` prints just that many characters |
| `FormatNumbers.CharacterIsPrinted` | src/hcore_string.c:583-606 | `%c`, `%Z`, `%N` and `%%` print the character given, a NUL, a line feed and a percent sign |
| `FormatNumbers.PlainText` | src/hcore_string.c:318-634 | outside of directives a format prints itself |
| `Astring.Astring.constructor` | src/hcore_astring.c:93-122 | an empty string with the given room, or 64 bytes |
| `Astring.Astring.Asnprintf` | src/hcore_astring.c:48-91 | the loop of doubling and printing again terminates and appends the whole output exactly once, behind the old content and in front of a NUL inside the buffer, with at most twice the room needed |
| `SlabPages.Pool.constructor` | src/hcore_shpool.c:298-365 | the pages start at a multiple of the page size behind the descriptors, all of them end inside the pool, and all form one free run; they start at the first such place, at most one page is lost to the alignment, and none unless it does not fit |
| `SlabPages.Layout` | src/hcore_shpool.c:298-365 | the arithmetic of that layout: alignment costs at most one page |
| `SlabPages.MostPages` | src/hcore_shpool.c:327-332 | as many pages are estimated as fit into the pool with their descriptors, and no fewer |
| `SlabPages.Pool.AllocPages` | src/hcore_shpool.c:885-946 | takes the first long enough run of the free list from its front, or fails exactly when no free run is long enough; free and allocated runs still tile the table, the doubly linked free list holds exactly the free runs, and `pfree` counts their pages |
| `SlabPages.Pool.Unlink` | src/hcore_shpool.c:885-946 | an exactly fitting run leaves the free list, all other links consistent |
| `SlabPages.Pool.Relink` | src/hcore_shpool.c:885-946 | the rest of a longer run takes its place in the list |
| `SlabPages.TakenTiles` | src/hcore_shpool.c:885-946 | dividing a free run keeps the tiling and takes just its pages from the free ones |
| `Inet.InetAddr` | src/hcore_inet.c:246-288 | the address of exactly four decimal octets of at most 255 between dots, 255.255.255.255 standing for an error as well; an empty part counts as 0 |
| `Inet.ParseInetSock` | src/hcore_inet.c:123-244 | succeeds exactly on texts that stand for an endpoint and delivers it; a failure on a non-empty text leaves a message |
| `Inet.SockNtop` | src/hcore_inet.c:33-41 | prints address and port in decimal, cut off at the length given |
| `Inet.OutputIsShow` | src/hcore_inet.c:37-38 | the format directives come to the text of the endpoint |
| `Inet.AddrRoundTrip` | src/hcore_inet.c:246-288 | every printed address is read as itself |
| `Inet.DottedIsRead` | src/hcore_inet.c:246-288 | numbers between dots, of which some may be missing, are an address if and only if they are four and none is above 255; a missing one is 0 |
| `Inet.OnlyDigitsAndDots` | src/hcore_inet.c:246-288 | a text with any other character is none |
| `Inet.EndpointRoundTrip` | src/hcore_inet.c:123-244 | a printed endpoint is read as itself if and only if its address is not 255.255.255.255 and its port is from 1 to 65535 |
| `Inet.AnyAddress` | src/hcore_inet.c:123-244 | a port alone, or with a star for the address, is read by a listener if it is from 1 to 65535, and by nobody else |
| `Inet.ParsePortRange` | src/hcore_inet.c:312-349 | succeeds exactly on one port or two ports in order |
| `Inet.PortsRoundTrip` | src/hcore_inet.c:312-349 | two numbers with a dash between them, or one, are read as themselves if they are ports from 1 to 65535 and not upside down, and are an error otherwise |
| `OutputChain.Gather` | src/hcore_connection.c:425-468 | the vector describes exactly the bytes of the buffers in reach, which are as many as its entries can take when adjoining buffers share one; no two neighbouring entries adjoin, and something is left over only when all entries are used |
| `OutputChain.Update` | src/hcore_connection.c:400-423 | what is left in the chain is its content without the bytes sent, for every number of them, with the buffers that the value-level loop has left |
| `OutputChain.WriteV` | src/hcore_io.c:25-36 | a call that would block is made again until it takes something or fails |
| `OutputChain.SendChain` | src/hcore_connection.c:349-398 | on any chain, vector and answers of the system the loop runs as `OutputRuns.Sending` says: same buffers left, same end, count sent exact; bytes taken and bytes left are the original content, and the connection's flags tell a short write and an error |
| `OutputRuns.RetriesDoNotMatter` | src/hcore_io.c:25-36 | a run does not depend on the calls that would block |
| `OutputRuns.LoopsWhileTaken` | src/hcore_connection.c:363-397 | after any answers, retried calls aside, the loop is still going if and only if each of them has taken all that was in reach of its round |
| `OutputRuns.LeftWhenShort` | src/hcore_connection.c:363-397 | when something is taken of every call, the loop is left, after a short write, if and only if some answer is below the bytes in reach of its round |
| `OutputRuns.StuckIffNothingInReach` | src/hcore_connection.c:363-397 | the loop goes on for ever and sends nothing, however much the system takes, if and only if the buffers in reach hold no bytes |
| `OutputRuns.ConsumedKeepsLooping` | src/hcore_connection.c:363-397 | a chain that is sent without a short write leaves the loop stuck |
| `OutputRuns.OneByteLoops` | src/hcore_connection.c:363-397 | such a run on one buffer of one byte |
| `OutputRuns.SendsAllIffClear` | src/hcore_connection.c:363-397 | some answers get the whole chain sent if and only if bytes are in reach, when any are left, at the start and behind every buffer that holds bytes |
| `OutputRuns.NoEmptyBuffersIsClear` | src/hcore_connection.c:363-397 | which holds for every chain without empty buffers and a vector of at least two entries |
| `OutputRuns.EmptyBuffersBlock` | src/hcore_connection.c:363-397 | and fails, for a vector of any size, on a chain of one byte behind as many empty buffers: the loop is stuck with the byte unsent |

## Left out

- `ItemList.List.Sort`: stands for `qsort` with the contract of the library function, so no stability is claimed.
- `ItemList.List.Search`: the search itself stands for `bsearch`, so it may find any of several equal items.
- Memory allocation always succeeds, and freed memory is not tracked; `hcore_array` is a sequence that grows. Errors of allocation and `NULL` arguments are not modelled.
- Ints on the wire are little-endian with 32 bits, as on the machines for which the code copies them as they are.
- The two insert functions of the tree share one descent, with the comparison as a parameter.
- The branch of the deletion for a successor with a left child (src/hcore_rbtree.c:190) cannot be reached and is not in the model. The parent link of the root is left open, as in the code.
- `ItemList.List.Insert`: positions are unbounded integers, so lists of more than 2^31 items are not modelled; comparators are functions of the items.
- `Pack.Pack.AddValue`: names of 2^31 bytes and more, where the difference of lengths wraps around, are excluded, and so is adding to a pack that has received elements, whose printed size the parser does not keep.
- `Pack.Pack.Get`: names of 2^31 bytes and more are excluded, and where several received elements share type and name it is not said which of them is found.
- `PackTransfer.Transfer`: at least one and fewer than 2^32 add calls, since an empty pack has no printed form and counts on the wire have 32 bits.
- `Pack.Pack.Read`: the state after a failure is not described.
- The scalar getters of a pack return the first entry of what the array getter returns and are not modelled apart.
- String values with a NUL are cut off there, as the printer that copies them does; the assertion on their length is not a failure in the model but the condition on the size in `Pack.Pack.Write`.
- `Queue.Remove`: the links of the removed node are left as they are, which is the form without debugging.
- `Queue.Sort`: the comparator is a function of the two nodes and does not change the ring.
- `hcore_localtime` and the monotonic clock.
- `Format.Vslprintf`: floating-point conversions, size formatting and formats that do not fit their arguments have no output in the model; characters are bytes, and negating the least 64-bit number is taken to wrap around.
- The error flag of a string after a failed reallocation.
- The alignment of the CRC table in memory.
- `Shmtx.RunIsSafe`: steps are sequentially consistent and process ids are not reused; a process calls `unlock` outside of its own attempts to lock.
- `Shmtx.BackOffRound`: stated for a `spin` of at most 2^31, because above that the round has no end (`Shmtx.BackOffEnds`).
- `Shmtx.PausesOfRound`: the same.
- `SlabPages.Pool.constructor`: the number of slots is a parameter, because the shift it comes from starts at -1; pools have at least eight pages, as the code that creates them makes sure.
- List heads of slots, chunks, the freeing of pages and the `prev` words of pages inside a run.
- `Inet.ParseInetSock`: texts are shorter than 2^32 bytes, and the wording of the messages is not stated.
- IPv6 and Unix sockets, masks and MAC addresses.
- `OutputChain.SendChain`: the answers of the system to its calls are a list, and the method stops when the list is used up; an error is reported beside the chain and not in its place, and buffers do not begin at the null address.
- `hcore_htb`, `hcore_pool`, `hcore_map`, version parsing, tokenising, logging, paths, events, connections and configuration.
