# Verified model of the limit order book, matching engine and feed pipeline

A Dafny model of the single-symbol exchange core: the order book and the four
containers it is built from, the matching engine on top of it, the ITCH codec and
synthetic feed generator in front of it, and the two-thread pipeline that feeds it.
`dafny verify dfyconfig.toml` checks all of it.

Each stateful component is a class with the original's fields and loops. Its methods
are proved against a specification on plain values, and the theorems are about that
specification, so that they hold of the class.

| file | what it holds |
|---|---|
| `Words`, `Bits`, `Options`, `ItchTypes` | unsigned arithmetic with its wrap-around, powers of two and masks, small types |
| `HashMap`, `ObjectPool`, `IntrusiveList` | the tombstoned hash map, the index-linked pool, the doubly linked list over a node memory |
| `Orders`, `BookSpec` | orders in arrival order; what each book operation means; cached best prices and when they are true |
| `BookCore`, `OrderBook` | the invariant tying levels, queues, counters, index and pool together; the book itself (module `Book`) |
| `Reference` | the plain-map reference book and the refinement theorems |
| `BookWalk` | the read-only walk over levels |
| `EngineSpec`, `EngineRuns`, `EngineLaws` | matching, Fill-Or-Kill, conservation; what fills and events promise in terms of the orders submitted |
| `Crossing`, `Engine` | when the book crosses; the engine itself |
| `Itch`, `Feed`, `Synth` | codec and framing; messages on a book; the generator |
| `RingBuffer`, `Pipeline` | the single-producer single-consumer queue; the two-thread protocol with acquire and release views |
| `EndToEnd` | generator, codec, pipeline and book together |

## Main results

- **The linked book is the simple book.** Every operation of `Book.OrderBook` computes exactly
  the corresponding function of `BookSpec`, wrapped counters and cached bests included, and keeps all
  linked structures consistent. Over every run it answers and holds what the plain-map reference
  of its capacity does, and it shows the same at every point if and only if no rescan misses a
  level whose 32-bit counter has wrapped to zero (`RunAgreesExactly`, `HiddenLevelExample`).
- **Matching is greedy.** For every self-trade setting and whatever has wrapped, the fills are the
  greedy prefix of the orders the walk sees (`MatchTakesSeen`); these are the reachable orders as long as
  no rescan misses a level while shares are still wanted (`MatchIsGreedy`). Without self-trade
  prevention Fill-Or-Kill is all or nothing on every book; with it, exactly when the shares its walk
  sees are not strictly between nothing and the quantity while the dry run says yes.
- **Fills are what the orders allow.** Each joins the order submitted with one of the other side, at that
  order's price and within the limit; over every run no fill joins two submitted orders of one trader while
  prevention is on, and an order without a trader never meets it (`RunFillsAreReal`, `NoSelfTrade`,
  `NoTraderNoPrevention`). They come in price-time priority wherever no visible level beats the cached best
  (`FillsInPriority`), and pass nothing over as long as no rescan misses a level while shares are still
  wanted (`NonePassedOver`, `NothingLeftBehindExactly`).
- **Runs conserve shares** exactly when every rest that is announced is accepted, and **stay uncrossed** exactly
  when no submission leaves a rest that crosses, a condition on the book before it: barred orders
  (`OwnOrderExample`) and missed levels (`CrossedExample`) are the two ways to meet it.
- **The pipeline is safe and finishes.** In every interleaving, with loads as stale as acquire ordering
  allows: no race on a slot, bounded occupancy, popped a prefix of pushed, and on exit every message
  of the stream's complete records applied exactly once in order. Work is bounded by a measure, and every
  fair run ends.
- **End to end**, the generator turns each draw into one message, and the book holds the generator's live
  orders at every message boundary.

Where the documentation and the code disagree the model follows the code. `DESIGN.md` (lines
122-134) and the comments in `engine/matching_engine.hpp` (lines 39 and 53-54) call Fill-Or-Kill atomic. With
self-trade prevention active it is not: `FokPartialExample` is a book and an order that is
filled in part and then killed, and `FokAtomicExactly` says precisely when that happens.
`containers/spsc_ring_buffer.hpp` (lines 40-43) says the indices never wrap; they are 64-bit and
the model lets them wrap.

## Model

| member | source | states |
|---|---|---|
| Bits.RoundUpIsLeastPowerOfTwo | containers/hash_map.hpp:27-32 | the rounding is a power of two, not below the hint, and the least such |
| Bits.MaskIsRemainder | containers/hash_map.hpp:151-153 | masking with a power of two less one is the remainder by it |
| Bits.MaskOfWrappedIndex | containers/spsc_ring_buffer.hpp:66-72 | however often a 64-bit counter wrapped, its masked value is the true count modulo the capacity |
| Bits.WrappedDifference | containers/spsc_ring_buffer.hpp:66-70 | the unsigned difference of the wrapped counters is the true occupancy |
| HashMap.Table.PlaceAdds | containers/hash_map.hpp:155-164 | writing a new key at a free slot of its probe path keeps every key reachable without meeting Empty, keys unique, and adds exactly that key to the finite map |
| HashMap.Table.BuryRemoves | containers/hash_map.hpp:120-126 | turning a key's slot into a tombstone removes exactly that key and breaks no other key's probe path |
| HashMap.Table.AllProbed | containers/hash_map.hpp:68-91 | a round of probes that met only occupied slots has seen every slot: the table is full |
| HashMap.NextProbe | containers/hash_map.hpp:84 | stepping with the mask is the next cyclic probe |
| HashMap.OpenAddressingHashMap.constructor | containers/hash_map.hpp:53-55 | an empty map of the rounded capacity, every slot Empty |
| HashMap.OpenAddressingHashMap.Locate | containers/hash_map.hpp:94-107 | the probe loop ends at the key's recorded slot, or nowhere exactly when the key is absent |
| HashMap.OpenAddressingHashMap.Find | containers/hash_map.hpp:94-107 | the finite map's answer, for any hash function |
| HashMap.OpenAddressingHashMap.FindFreeSlot | containers/hash_map.hpp:64-92 | where a new key goes: the first tombstone on its path, else the Empty slot ending it; none exactly when the key is present or every slot is occupied |
| HashMap.OpenAddressingHashMap.Insert | containers/hash_map.hpp:64-92 | fails exactly when the key is present or all slots are occupied; otherwise adds it, and spends an Empty slot only if there was no tombstone to reuse |
| HashMap.OpenAddressingHashMap.Erase | containers/hash_map.hpp:113-131 | removes exactly the key, leaves a tombstone, never touches the Empty count |
| HashMap.OpenAddressingHashMap.EraseThenReinsert | containers/hash_map.hpp:64-131 | erasing and reinserting a present key leaves size, tombstone and Empty counts as they were |
| ObjectPool.InitialExact | containers/object_pool.hpp:31-40 | the constructor's chain lists every slot once |
| ObjectPool.AcquireKeepsExact | containers/object_pool.hpp:51-62 | taking the head keeps the free list acyclic and listing exactly the slots not handed out |
| ObjectPool.ReleaseKeepsExact | containers/object_pool.hpp:66-73 | giving a live slot back does too |
| ObjectPool.OwnedPlusFree | containers/object_pool.hpp:31-73 | every slot is owned once or free once, so the two counts add up to the capacity |
| ObjectPool.LiveWritesKeepExact | containers/object_pool.hpp:83-87 | changing live objects in place does not disturb the free list |
| ObjectPool.ObjectPool.constructor | containers/object_pool.hpp:31-40 | a pool with every slot free |
| ObjectPool.ObjectPool.Acquire | containers/object_pool.hpp:51-62 | fails exactly when nothing is free; otherwise hands out a slot that was free |
| ObjectPool.ObjectPool.Release | containers/object_pool.hpp:66-73 | the slot becomes the head of the free list |
| ObjectPool.ObjectPool.SizeIsLiveCount | containers/object_pool.hpp:75-78 | `size` counts the slots handed out |
| IntrusiveList.AppendedIsList | containers/intrusive_list.hpp:23-33 | the relinked memory is the list with the node at its back |
| IntrusiveList.UnlinkedIsList | containers/intrusive_list.hpp:48-62 | the relinked memory is the list without the node, all others in order |
| IntrusiveList.FrameList | containers/intrusive_list.hpp:20-62 | a list none of whose nodes were touched is still that list |
| IntrusiveList.PushBack | containers/intrusive_list.hpp:23-33 | appends to the sequence and relinks nothing outside the list |
| IntrusiveList.Remove | containers/intrusive_list.hpp:48-62 | removes one element of the sequence and relinks nothing outside it |
| Orders.FilterWithShares | book/order_book.cpp:197-219 | changing an order's shares moves no order between levels, sides or places in a queue |
| Orders.SumRemove | book/order_book.cpp:120-134 | removing an order takes exactly its shares out of the total |
| Orders.LookupWithout | book/order_book.cpp:126-134 | once an order is removed its reference finds nothing, and every other finds what it found |
| Orders.LookupWithShares | book/order_book.cpp:207-213 | after a change of shares a reference finds the same order with the new shares, every other what it found |
| BookSpec.StepWellFormed | book/order_book.cpp:147-257 | every operation keeps live references distinct, shares positive, the count within capacity, and the cached best on a level with orders |
| BookSpec.ReplaceSucceeds | book/order_book.cpp:238-257 | a replacement succeeds exactly when its own checks pass; the inner add cannot fail |
| BookSpec.AddStores | book/order_book.cpp:147-195 | refused exactly for zero shares, a live reference or a full book, and then unchanged; otherwise its reference finds the order as it came, price, shares, side and trader, and every other reference what it found |
| BookSpec.ReduceOrders | book/order_book.cpp:197-219 | refused exactly for an unknown reference, no shares or too many; otherwise the order lost just these, or is gone with the last, and no other reference is touched |
| BookSpec.StepOrders | book/order_book.cpp:147-257 | what every reference finds after any of the five operations, given what it found before: orders keep price, side and trader for life; a replacement takes over only the side |
| BookSpec.TimePriority | book/order_book.cpp:147-257 | every queue stays in arrival order: additions and replacements go to the back, a partial execution or cancellation keeps its place, a removal closes the gap, a refusal changes nothing |
| BookSpec.RemoveAfterZero | book/order_book.cpp:207-217 | an order reduced to zero and then removed is removed as if it had kept its shares |
| BookSpec.RescanExact | book/order_book.cpp:70-118 | the rescan over counters finds the true best if and only if that level's counter did not wrap to zero |
| BookSpec.SmallSideHidesNothing | book/order_book.cpp:174-177 | below 2^32 live shares on a side no counter wraps and no level hides |
| BookSpec.TrueBestsAreExtremes | book/order_book.cpp:56-118 | the cached prices are true if and only if the bid is the highest price bid and the ask the lowest price asked, each none exactly if its side is empty |
| BookSpec.AddKeepsBest | book/order_book.cpp:56-68 | adding keeps the cached best prices true |
| BookSpec.RemoveKeepsBestExactly | book/order_book.cpp:136-144 | removing keeps them true if and only if no rescan was needed or the rescan can see the new best level |
| BookSpec.StepKeepsBestExactly | book/order_book.cpp:56-145 | any of the five operations leaves the cached bests true if and only if it does not miss: it is accepted, takes the last order at the cached best, the level that is then best has a zero counter, and, for a replacement, the new price is strictly worse than that level; all of it read off the state before |
| BookSpec.ReplacementExact | book/order_book.cpp:238-257 | the same for a replacement, whose re-add can make up for a missed rescan |
| BookSpec.SmallSidesNeverMiss | book/order_book.cpp:70-118 | below 2^32 live shares a side no operation misses |
| BookSpec.ReduceTotals | book/order_book.cpp:197-219 | a reduction takes exactly its shares out of the book and adds to neither side |
| BookCore.FreshConsistent | book/order_book.cpp:7-22 | a fresh book's structures agree, with wrapped prices in slots outside the 32-bit range |
| BookCore.QueueNode | containers/intrusive_list.hpp:69-90 | the i-th node of a level's queue holds the i-th order of that level in arrival order and points on to the next |
| BookCore.AddedConsistent | book/order_book.cpp:159-193 | storing, queueing, counting and indexing a new order keeps every queue, counter, level pointer and index entry in agreement with the live orders |
| BookCore.ReducedConsistent | book/order_book.cpp:207-213 | so does taking shares off an order and its level's counter |
| BookCore.RemovedConsistent | book/order_book.cpp:126-134 | so does unlinking, uncounting, unindexing and releasing an order |
| BookCore.UnlinkedConsistent | book/order_book.cpp:126-134 | the same, step by step through the intermediate memory |
| BookCore.VisibleIffCounted | book/order_book.cpp:73-97 | a scan sees a level exactly when its stored counter is not zero |
| BookCore.QualifyingSlot | book/order_book.cpp:16-33 | a flat slot that a scan accepts stands for a real price, in its own place, even where unused slots hold wrapped prices |
| BookCore.FirstSlotIsBest | book/order_book.cpp:72-86 | the first accepted slot from the better end has the best price of the window |
| BookCore.OutlierStep | book/order_book.cpp:88-97 | looking at one more outlier keeps the best of those seen |
| BookCore.BetterOfBoth | book/order_book.cpp:99-105 | the better of window and outlier best is the best of all |
| Book.OrderBook.constructor | book/order_book.cpp:7-22 | an empty valid book whose index is at least as large as its pool |
| Book.OrderBook.LevelForMutation | book/order_book.cpp:35-45 | the level of the price, creating an outlier if need be, changing no other level |
| Book.OrderBook.LevelForQuery | book/order_book.cpp:47-54 | the stored level of the price, nothing if there is none, which then holds no orders |
| Book.OrderBook.Admit | book/order_book.cpp:164-194 | queues and indexes the acquired order; the roll-back branch cannot be reached |
| Book.OrderBook.AddOrder | book/order_book.cpp:147-195 | result, live orders and cached bests are those of `BookSpec.Add`, and an accepted order is found under its reference with the price, shares, side and trader given; `BookSpec.AddStores` says when it is refused and that nothing else changes |
| Book.OrderBook.UpdateBestOnAdd | book/order_book.cpp:56-68 | the cached best becomes the better of itself and the price |
| Book.OrderBook.BestInFlat | book/order_book.cpp:71-86 | the best qualifying price inside the window |
| Book.OrderBook.BestOutlier | book/order_book.cpp:88-97 | the best qualifying price among the outliers |
| Book.OrderBook.ScanBest | book/order_book.cpp:332-372 | the best visible price, or the best strictly worse than a given one |
| Book.OrderBook.RecomputeBest | book/order_book.cpp:70-118 | the side's cached best becomes the best visible price |
| Book.OrderBook.Unlink | book/order_book.cpp:120-134 | takes the order out of queue, counter, index and pool, and nothing else |
| Book.OrderBook.RemoveOrderFully | book/order_book.cpp:120-145 | the state is `BookSpec.RemoveFully`: rescanned only if the emptied level was the best |
| Book.OrderBook.TakeShares | book/order_book.cpp:207-213 | the order and its level's wrapped counter lose the shares, in place; the order stays in its slot, its queue and the index |
| Book.OrderBook.ReduceShares | book/order_book.cpp:197-219 | result and state are `BookSpec.Reduce` |
| Book.OrderBook.ExecuteOrder | book/order_book.cpp:221-223 | result and state are `BookSpec.Reduce` |
| Book.OrderBook.CancelOrder | book/order_book.cpp:225-227 | result and state are `BookSpec.Reduce` |
| Book.OrderBook.DeleteOrder | book/order_book.cpp:229-236 | result and state are `BookSpec.Delete` |
| Book.OrderBook.ReplaceOrder | book/order_book.cpp:238-257 | result and state are `BookSpec.Replace`: side kept, trader dropped, behind every order of its new level |
| Book.OrderBook.Apply | book/order_book.cpp:259-300 | the state after a decoded message is `Feed.ApplyMessage` of the state before, whose effect for each payload is `Feed.MessageMeaning` |
| Book.OrderBook.SharesAtPrice | book/order_book.cpp:310-316 | the 32-bit sum of the live shares at the price |
| Book.OrderBook.OrderCount | book/order_book.hpp:62 | the number of live orders |
| Book.OrderBook.BestLevel | book/order_book.cpp:318-324 | the stored level the cached best names |
| Book.OrderBook.NextLevelAfter | book/order_book.cpp:326-373 | the level of the nearest visible strictly worse price, none if there is none |
| Reference.ReferenceOrderBook.AddOrder | book/tests/reference_order_book.hpp:16-22 | map and result after an add |
| Reference.ReferenceOrderBook.ReduceShares | book/tests/reference_order_book.hpp:73-83 | map and result after an execution or cancellation |
| Reference.ReferenceOrderBook.DeleteOrder | book/tests/reference_order_book.hpp:32 | map and result after a deletion |
| Reference.ReferenceOrderBook.ReplaceOrder | book/tests/reference_order_book.hpp:34-49 | map and result after a replacement |
| Reference.ReferenceOrderBook.SharesAtPrice | book/tests/reference_order_book.hpp:54-62 | the scan's total, in whatever order the map is walked, is the 32-bit sum at the price |
| Reference.ReferenceOrderBook.BestPrice | book/tests/reference_order_book.hpp:85-96 | the scan finds the best price of the side |
| Reference.StepAgrees | book/order_book.cpp:147-257 | one operation: same result as the reference, except that an add is also refused exactly when `capacity` orders are live; same orders afterwards; a refusal changes nothing |
| Reference.TotalsAgree | book/tests/reference_order_book.hpp:54-62 | both books hold the same total at every price |
| Reference.PricesAgree | book/tests/reference_order_book.hpp:85-96 | both books have orders at the same prices |
| Reference.ObservationsAgree | book/tests/test_order_book_differential.cpp:20-41 | with true cached bests: same best bid and ask, order count, and shares at every price |
| Reference.ObservationsAgreeExactly | book/tests/test_order_book_differential.cpp:20-41 | on any well-formed book the two show the same if and only if the cached bests are true |
| Reference.RunAnswers | book/order_book.cpp:147-257 | every run of a well-formed book, full books and false cached bests included, gives the results and the orders of a reference with the same capacity |
| Reference.RunAgreesExactly | book/tests/test_order_book_differential.cpp:45-134 | over every run, results and all observations agree at every point with a reference of the same capacity if and only if no operation's rescan misses |
| Reference.RunAgrees | book/tests/test_order_book_differential.cpp:45-134 | with the source's unlimited reference: if and only if, moreover, no addition it accepts comes to a full book |
| Reference.SmallRunsAgree | book/tests/test_order_book_differential.cpp:45-134 | while each side's live shares stay below 2^32 the two agree at every point of every run |
| Reference.HiddenLevelExample | book/order_book.cpp:70-118 | a run of additions and one deletion after which the cached ask is 102 though 101 has 2^32 shares |
| BookWalk.WalkVisitsRest | book/order_book.cpp:326-373 | from any level on: that level and exactly the visible levels strictly worse than it, each once, strictly worsening |
| BookWalk.WalkFromBest | book/order_book.cpp:318-373 | from a cached best that no visible level beats: exactly the cached best and the visible levels |
| BookWalk.WalkVisitsExactly | book/order_book.cpp:318-373 | from a true cached best: exactly the levels with orders, if and only if none behind the best has a counter wrapped to zero |
| BookWalk.WalkVisitsEveryLevel | book/order_book.cpp:318-373 | in particular, when no counter of the side wrapped to zero, every level with orders exactly once, strictly worsening |
| EngineSpec.NextRestingIsLive | engine/matching_engine.hpp:119-142 | the order peeked is live, on the other side, at the best price, crossing, with positive shares: so its execution succeeds and the walk's measure falls |
| EngineSpec.WalkKeepsBestExactly | engine/matching_engine.hpp:116-149 | a walk leaves the cached bests true if and only if none of its executions' rescans misses |
| EngineSpec.SmallWalkNeverMisses | engine/matching_engine.hpp:116-149 | below 2^32 shares on the side walked none does |
| EngineSpec.MatchExecutesFills | engine/matching_engine.hpp:138-149 | on any well-formed book the walk's book is the book after just its fills |
| EngineSpec.MatchIsGreedy | engine/matching_engine.hpp:116-149 | for any self-trade setting the fills of a walk that misses no best level while shares are still wanted are the greedy prefix of the reachable orders; the book is the book after just its fills; cached bests stay true exactly if it misses none at all |
| EngineSpec.MatchTakesSeen | engine/matching_engine.hpp:116-149 | whatever wrapped or is missed: the fills of every walk whose cached best leads are the greedy prefix of the orders on the cached level and the visible ones behind it |
| EngineSpec.ConsumeTakesMin | engine/matching_engine.hpp:138-149 | the greedy prefix fills the smaller of what is wanted and what is reachable |
| EngineSpec.FrontFilled | engine/matching_engine.hpp:119-143 | once the front order is filled, the reachable orders are the rest of the list |
| EngineSpec.DryRunNeverOverstates | engine/matching_engine.hpp:82-110 | whatever wraps or hides, the dry run claims no more than there is |
| EngineSpec.DryRunStopsInTime | engine/matching_engine.hpp:81-110 | the dry run ends with the level that brings it to the quantity, so nothing further back can wrap its sum away |
| EngineSpec.DryRunMeasures | engine/matching_engine.hpp:82-110 | below 2^32 shares it reaches the quantity if and only if that much is there |
| EngineSpec.DryRunExact | engine/matching_engine.hpp:37 | the same for a whole order, from the best level |
| EngineSpec.ReachableTotal | engine/matching_engine.hpp:95-106 | reachable shares are at most the liquidity the dry run counts; equal if and only if no order stands behind a level with a barred one |
| EngineSpec.ReachableExact | engine/matching_engine.hpp:134-136 | the same for a whole order; always equal without self-trade prevention |
| EngineRuns.MatchSplits | engine/matching_engine.hpp:116-149 | the walk's fills come out of the book share for share, and it stops only where nothing can be taken |
| EngineRuns.CallAccountsForQuantity | engine/tests/test_matching_engine_conservation.cpp:90-115 | fills, rest and kill add up to the quantity; not both rest and kill; only limit orders rest |
| EngineRuns.CallConservesExactly | engine/matching_engine.hpp:49-51 | a submission accounts for at most its shares, and for all of them if and only if the rest that was announced, if any, was really accepted by the book |
| EngineRuns.FreshRestAccepted | engine/matching_engine.hpp:50-51 | with a fresh reference and room, an announced rest is in the book |
| EngineRuns.FokExact | engine/matching_engine.hpp:36-57 | what a Fill-Or-Kill order does, from the dry run and the orders its walk sees, on every book whose cached best leads: refused untouched, filled, or filled in part and killed |
| EngineRuns.SmallSideRefusal | engine/matching_engine.hpp:36-41 | below 2^32 shares on the side walked it is refused if and only if the liquidity falls short |
| EngineRuns.FokAtomicExactly | engine/matching_engine.hpp:36-47 | on every such book it is all or nothing if and only if the dry run refuses it or the shares seen are not strictly between nothing and the quantity |
| EngineRuns.FokAtomicUnshadowed | engine/matching_engine.hpp:95-136 | hence always when no order that could trade stands behind a barred one |
| EngineRuns.SeenAreReachable | book/order_book.cpp:326-373 | where no level hides, the orders seen are the reachable ones |
| EngineRuns.FokAtomicBelowWrap | engine/matching_engine.hpp:36-47 | below 2^32 shares on the side walked: if and only if not 0 < reachable < quantity <= liquidity |
| EngineRuns.ChainIsFilled | engine/matching_engine.hpp:116-149 | without self-trade prevention the walk fills all that the dry run adds up, on every book, whatever wrapped or hides |
| EngineRuns.FokAtomicWithoutStp | engine/matching_engine.hpp:36-47 | without self-trade prevention Fill-Or-Kill is all or nothing on every well-formed book, with no bound and no assumption on cached bests |
| EngineRuns.FokPartialExample | engine/matching_engine.hpp:95-136 | a concrete Fill-Or-Kill order filled in part and then killed |
| EngineRuns.DryRunWrapExample | engine/matching_engine.hpp:93 | a concrete book on which the 32-bit sum wraps and understates the liquidity |
| EngineRuns.RunConservesExactly | engine/matching_engine.hpp:31-57 | over every run from any well-formed book: the book's growth plus twice the fills plus the kills is at most what was submitted, and all of it if and only if every announced rest was accepted |
| EngineRuns.FreshRestsAccepted | engine/matching_engine.hpp:49-51 | with fresh references and room every rest of a run is accepted |
| EngineRuns.RunConserves | engine/tests/test_matching_engine_conservation.cpp:90-115 | hence conservation over whole runs with fresh references and room |
| EngineRuns.RefusedRestExample | engine/matching_engine.hpp:49-51 | an order that reuses a live reference: its rest is announced, refused, and its shares are nowhere |
| EngineLaws.BarredExactly | engine/matching_engine.hpp:62-67 | in the walk and in the dry run, an order is barred if and only if prevention is on, the incoming order has a trader, and it is the same trader |
| EngineLaws.NoTraderNoPrevention | engine/matching_engine.hpp:60-67 | for an order without a trader the whole submission, book and events, is the same with prevention on and off |
| EngineLaws.FillsAreReal | engine/matching_engine.hpp:116-149 | each fill of a submission joins it with a live order of the other side, at that order's price and within the limit, for at most its shares, and never one of its own named trader while prevention is on |
| EngineLaws.Announced | engine/matching_engine.hpp:31-57 | zero shares: no event and no change; otherwise fills first, and what they leave is announced once, at the end, as a rest under the order's own terms or as a kill |
| EngineLaws.RestIsStored | engine/matching_engine.hpp:49-51 | an accepted rest is found in the book under the order's reference, with its price, side and trader and the shares announced |
| EngineLaws.SeenPrioritised | engine/matching_engine.hpp:112-136 | the orders a walk sees are in price-time priority |
| EngineLaws.ReachableComplete | engine/matching_engine.hpp:112-136 | the reachable orders leave out nothing that may trade and is ahead of one of them |
| EngineLaws.FillsInPriority | engine/matching_engine.hpp:112-149 | price-time priority: the orders filled come best price first, then in order of arrival, and each but the last is filled completely; on every book whose cached best leads |
| EngineLaws.NonePassedOver | engine/matching_engine.hpp:112-149 | an order that may trade and is ahead of one that was filled was itself filled before, completely, as long as the walk misses no level with shares still wanted |
| EngineLaws.RunFillsAreReal | engine/matching_engine.hpp:31-149 | over every run from every book each fill joins the order being submitted with one that was there at the start or rests from an earlier submission, on the other side, at its price, and never of the same named trader while prevention is on |
| EngineLaws.NoSelfTrade | engine/matching_engine.hpp:60-67 | the same on the submitted orders alone: in every run from the empty book, of the two orders a fill joins the resting one came first, on the other side, at its limit price and within the limit of the other, and with prevention on they have not the same trader, unless none |
| Crossing.WalkTakesLiquidity | engine/matching_engine.hpp:116-149 | a walk takes exactly its fills from the shares that may trade with the order, and, counting barred ones too, from the shares it crosses |
| Crossing.WalkTakesCrossing | engine/matching_engine.hpp:138-146 | a walk takes exactly its fills from the shares that the order crosses, barred or not |
| Crossing.NothingLeftBehindExactly | engine/matching_engine.hpp:116-149 | when a submission that its dry run lets through ends short of its quantity, no order that may trade with it is left if and only if none stood behind a barred one, as long as the walk misses no level with shares still wanted |
| Crossing.SeenAllTaken | engine/matching_engine.hpp:116-149 | a walk that wants more than it sees takes exactly the orders it sees out of the book |
| Crossing.AcceptedIfFits | engine/matching_engine.hpp:49-51 | such a rest is accepted if and only if, once the orders seen are gone, there is room and its reference is free |
| Crossing.SubmitUncrossedExactly | engine/matching_engine.hpp:43-56 | for every self-trade setting a submission leaves an uncrossed book uncrossed if and only if not: a limit order wants more than its walk sees, more than that crosses it, and its rest fits; all read off the book before |
| Crossing.ExecutionKeepsLeads | book/order_book.cpp:136-144 | an execution at the cached best leaves no visible level better than the cached best, on either side |
| Crossing.AddKeepsLeads | book/order_book.cpp:56-68 | neither does an addition |
| Crossing.SubmitKeepsLeads | engine/matching_engine.hpp:31-57 | nor a submission, so the Fill-Or-Kill and crossing theorems hold all along engine runs |
| Crossing.RunKeepsLeads | engine/matching_engine.hpp:31-57 | nor any run of submissions |
| Crossing.RunUncrossedExactly | engine/matching_engine.hpp:43-56 | over every run, for every self-trade setting: uncrossed at every point if and only if no submission's rest crosses |
| Crossing.RunStaysUncrossed | engine/matching_engine.hpp:43-56 | runs in which none does end with the best bid strictly below the best ask |
| Crossing.OnlyStraysCross | engine/matching_engine.hpp:116-149 | without self-trade prevention, from true cached bests, a rest crosses only if the walk missed a level with shares still wanted |
| Crossing.SmallRunNeverCrosses | engine/matching_engine.hpp:43-56 | below 2^32 shares a side and without self-trade prevention none does |
| Crossing.SmallRun | engine/matching_engine.hpp:84-93 | it is enough that all shares ever submitted stay below 2^32 |
| Crossing.RunFromEmpty | engine/matching_engine.hpp:31-57 | from the empty book, for every run and setting: no visible level beats a cached best; conserved if and only if every rest was accepted; uncrossed throughout if and only if no rest crosses |
| Crossing.SmallRunFromEmpty | engine/matching_engine.hpp:31-57 | the ordinary case: conserved, uncrossed, cached bests true |
| Crossing.OwnOrderExample | engine/matching_engine.hpp:62-67 | with self-trade prevention a bid rests against its own trader's ask and crosses the book |
| Crossing.CrossedExample | engine/matching_engine.hpp:43-51 | a book with 2^32 shares at one price that a single bid leaves crossed, because its walk misses that level |
| Crossing.HarmlessMissExample | engine/matching_engine.hpp:43-51 | on the same book a smaller bid misses the level too, and leaves the book uncrossed |
| Crossing.LeadLostExample | book/order_book.cpp:197-219 | a cancellation made directly on a level whose counter wrapped to zero uncovers it, better than the cached best |
| Engine.MatchingEngine.AddQueue | engine/matching_engine.hpp:95-100 | following a queue's links adds up its eligible shares in 32 bits |
| Engine.MatchingEngine.FirstEligible | engine/matching_engine.hpp:126-133 | following the links finds the first order that is not barred |
| Engine.MatchingEngine.AvailableLiquidity | engine/matching_engine.hpp:82-110 | the dry run over the real book is the specified one, early exit and wrap included, and changes nothing |
| Engine.MatchingEngine.FindResting | engine/matching_engine.hpp:120-136 | one look-up of the walk over the real book |
| Engine.MatchingEngine.ExecuteMatch | engine/matching_engine.hpp:116-149 | the walk on the real book: book, fills in order, and result |
| Engine.MatchingEngine.SubmitOrder | engine/matching_engine.hpp:31-57 | a submission to the real book: book and events, in order, are those of `EngineSpec.Submit`, the subject of the laws above |
| Itch.ReadWrite | itch/byteorder.hpp:12-74 | big-endian reading undoes writing for any width the number fits |
| Itch.ReadWriteLow | itch/byteorder.hpp:55-63 | a number too large for its field keeps exactly its low bits |
| Itch.DecodesExactly | itch/decode.cpp:156-189 | a span decodes if and only if it starts with a known letter and is at least as long as that type |
| Itch.BigEndian | itch/byteorder.hpp:12-74 | the most significant byte comes first |
| Itch.WireLayout | itch/decode.cpp:20-152 | letter, length and place of every field of every type, on bytes that are their own offsets; one byte less does not decode |
| Itch.DecodeIgnoresRest | itch/decode.cpp:156-189 | bytes beyond the length of the type change nothing, and no letter but the ten decodes |
| Itch.PaddedAt | itch/synth.cpp:49-53 | the text comes first, cut at the width, and spaces fill the rest |
| Itch.HeaderReadsBack | itch/decode.cpp:20-29 | locate, tracking number and the low 48 bits of the time survive the header |
| Itch.AddReadsBack | itch/decode.cpp:61-79 | an encoded Add Order, with or without attribution, has its wire length and decodes to its fields |
| Itch.ExecutedReadsBack | itch/decode.cpp:81-91 | the same for Order Executed |
| Itch.ExecutedWithPriceReadsBack | itch/decode.cpp:93-106 | the same for Order Executed With Price |
| Itch.CancelReadsBack | itch/decode.cpp:108-117 | the same for Order Cancel |
| Itch.DeleteReadsBack | itch/decode.cpp:119-124 | the same for Order Delete |
| Itch.ReplaceReadsBack | itch/decode.cpp:126-137 | the same for Order Replace |
| Itch.TradeReadsBack | itch/decode.cpp:139-152 | the same for Trade |
| Itch.FramesThenMore | pipeline/itch_pipeline.hpp:33-51 | walking complete frames yields their messages and goes on with whatever follows; `Itch.TailIsDropped` says what a tail that is no complete frame yields |
| Itch.FramedMessages | pipeline/itch_pipeline.hpp:33-51 | a stream of complete frames decodes to its messages in order |
| Itch.FrameBytes | itch/synth.cpp:66-71 | a frame is the length in two bytes, high byte first, and the message |
| Itch.TailIsDropped | pipeline/itch_pipeline.hpp:34-51 | after complete frames, a tail of fewer than two bytes, or shorter than the length it declares, yields nothing |
| Itch.StreamSplits | pipeline/itch_pipeline.hpp:34-51 | every byte stream is complete frames followed by such a tail |
| Itch.StreamSplitsOnce | pipeline/itch_pipeline.hpp:34-51 | and in one way only |
| Itch.StreamMessages | pipeline/itch_pipeline.hpp:34-51 | hence the messages of any stream are those of its complete records |
| Itch.RecordsDecodeAlone | pipeline/itch_pipeline.hpp:43-48 | a record that does not decode is skipped and takes no other with it |
| Feed.MessageMeaning | book/order_book.cpp:259-300 | each message by its payload, on the map of live orders: both execution messages and the cancellation take exactly their shares, whatever match number, printable flag and execution price say; addition, refused by a full book, deletion and replacement as in the reference; the other three change nothing |
| Feed.ApplyAllWellFormed | book/order_book.cpp:259-300 | a book fed any messages at all stays well-formed |
| Feed.ReplayOnBook | book/order_book.cpp:259-300 | a stream the reference accepts within the capacity is accepted by the book, message by message, and leaves the same orders |
| RingBuffer.RoundedIsRingSize | containers/spsc_ring_buffer.hpp:20-25 | any hint up to 2^63, zero included, rounds to a usable capacity of at least one |
| RingBuffer.CountersAreExact | containers/spsc_ring_buffer.hpp:65-86 | the tests and the slot computed from the wrapped counters are those of the true counts |
| RingBuffer.SlotsDiffer | containers/spsc_ring_buffer.hpp:71 | counts less than a full buffer apart use different slots |
| RingBuffer.SpscRingBuffer.constructor | containers/spsc_ring_buffer.hpp:55-57 | an empty queue of the rounded capacity |
| RingBuffer.SpscRingBuffer.Push | containers/spsc_ring_buffer.hpp:65-74 | appends to the queue, failing exactly when it holds `capacity` values, for unboundedly many operations |
| RingBuffer.SpscRingBuffer.Pop | containers/spsc_ring_buffer.hpp:77-86 | takes the oldest value, failing exactly when there is none |
| Pipeline.Counters | containers/spsc_ring_buffer.hpp:66-84 | with any stale value a load may return, the full and empty tests decide the true counts |
| Pipeline.StreamKeptByProducer | pipeline/itch_pipeline.hpp:33-53 | pushed, in flight and undecoded together are always the stream's messages; when the producer is through, it pushed those of the complete records |
| Pipeline.CellsKeptByProducer | containers/spsc_ring_buffer.hpp:65-74 | the producer's slot write is ordered after the last read of the slot and overwrites no waiting item |
| Pipeline.CellsKeptByConsumer | containers/spsc_ring_buffer.hpp:77-86 | the consumer's slot read is ordered after the write of the item it takes |
| Pipeline.AppliedKeptByConsumer | pipeline/itch_pipeline.hpp:55-82 | what is popped is the next item pushed, and the book is the fold of what was popped |
| Pipeline.StepKeeps | pipeline/itch_pipeline.hpp:32-82 | every step of either thread, whatever its loads return, keeps the invariant |
| Pipeline.EveryRunIsSafe | pipeline/itch_pipeline.hpp:32-82 | at every point of every interleaving: no race, at most `capacity` waiting, popped a prefix of pushed a prefix of the messages, book the fold of those processed |
| Pipeline.ExitIsComplete | pipeline/itch_pipeline.hpp:72-86 | when the consumer has left, the producer has stopped, every message was applied exactly once in order, and the count is their number; the messages are those of the stream's complete records, nothing of a truncated last one |
| Pipeline.SecondPopMatters | pipeline/itch_pipeline.hpp:63-75 | for every stream with a message there is a run where the done flag is seen with everything pushed and the last message still waiting, so leaving without the second pop would lose it |
| Pipeline.LockStep | pipeline/itch_pipeline.hpp:32-82 | the two threads can process any number of messages one at a time |
| Pipeline.StepsWorkOrWait | pipeline/itch_pipeline.hpp:34-81 | a waiting step leaves the measure as it is, every other step strictly lowers it |
| Pipeline.WorkIsBounded | pipeline/itch_pipeline.hpp:34-81 | no run takes more working steps than the measure allows |
| Pipeline.RoundMakesProgress | pipeline/itch_pipeline.hpp:34-81 | with fresh loads, a round of one producer step and two consumer steps, in any order, unless a thread ends, includes a working one, unless all had ended |
| Pipeline.FairRunEnds | pipeline/itch_pipeline.hpp:34-86 | every run of at least as many such rounds as the measure counts has ended |
| Pipeline.CanFinish | pipeline/itch_pipeline.hpp:84-86 | from every reachable state both threads can end |
| Synth.AppendBE | itch/synth.cpp:22-43 | the shifting loop appends the big-endian bytes |
| Synth.AppendPadded | itch/synth.cpp:49-53 | the loop appends the string cut or padded to the width |
| Synth.AppendHeader | itch/synth.cpp:55-64 | the eleven header bytes |
| Synth.DirectoryReadsBack | itch/synth.cpp:107-125 | a directory entry decodes to the padded symbol and the twenty bytes of fixed codes |
| Synth.FaithfulGrows | itch/synth.cpp:131-235 | one more message whose operation the reference accepts keeps the output decodable, the replay successful, and one live map per boundary |
| Synth.AddTracked | itch/synth.cpp:162-164 | a fresh reference is accepted and recorded |
| Synth.TakeTracked | itch/synth.cpp:169-192 | taking at most the remaining shares, at least one, is accepted; an order left with none disappears on both sides |
| Synth.ReplaceTracked | itch/synth.cpp:200-218 | replacing by a fresh reference is accepted and keeps the side |
| Synth.StampedGrows | itch/synth.cpp:55-96 | the k-th message has tracking number k + 1 in 16 bits and time 1000 (k + 1) in 48 |
| Synth.StreamsGrow | itch/synth.cpp:131-235 | one more turn, on the next draw, continues the stream |
| Synth.Generator.WriteFramed | itch/synth.cpp:66-71 | appends the length prefix and the message |
| Synth.Generator.NextHeader | itch/synth.cpp:55-96 | the header with the current tracking number and the time a thousand later; both then wrap in their widths |
| Synth.Generator.EmitSystemEvent | itch/synth.cpp:98-104 | a System Event message with the code, the live orders unchanged |
| Synth.Generator.EmitStockDirectory | itch/synth.cpp:107-125 | a Stock Directory message with the symbol, the fixed codes and the next stock locate |
| Synth.Generator.EmitAdd | itch/synth.cpp:136-166 | the message and the live orders of an addition |
| Synth.Generator.EmitExecuted | itch/synth.cpp:168-180 | the message and the live orders of an execution of at most the remaining shares |
| Synth.Generator.EmitCancel | itch/synth.cpp:181-192 | the message and the live orders of a cancellation |
| Synth.Generator.EmitDelete | itch/synth.cpp:193-199 | the message and the live orders of a deletion |
| Synth.Generator.EmitReplace | itch/synth.cpp:200-218 | the message and the live orders of a replacement |
| Synth.Generator.EmitTrade | itch/synth.cpp:219-234 | a Trade message with a reference of its own, the live orders unchanged |
| Synth.Generator.OrderFlow | itch/synth.cpp:131-235 | one turn: the message sent and the next state are those of the draw, in kind, symbol, side, shares, price and attribution, on some live order where the action needs one |
| Synth.Generator.Open | itch/synth.cpp:98-125 | the start event and one directory entry for each symbol, in order |
| Synth.Generator.Generate | itch/synth.cpp:75-244 | for any choices: start event, directory, then one message for each draw as `OrderFlow` says, until `numOrders` orders were added or the draws ran out, with no turn more than needed; end event if finished; stamped throughout; the output decodes to the messages sent, and their replay succeeds and ends in the generator's live orders |
| EndToEnd.BookFollowsGenerator | itch/synth.cpp:127-235 | a book with room for `numOrders` accepts every message, and at every boundary its live orders are the generator's |
| EndToEnd.PipelineFollowsGenerator | pipeline/itch_pipeline.hpp:25-87 | through the pipeline, in every interleaving, the book follows the generator's orders, and at the end holds the final ones |

## Left out

- EngineSpec.MatchIsGreedy: its greedy half asks that the walk misses no level while shares are still wanted, because one that does passes over a level; `EngineSpec.MatchTakesSeen` gives the fills of every walk.
- EngineSpec.DryRunExact: asks for less than 2^32 shares on the side walked, because beyond it the dry run's 32-bit sum can fall short of the liquidity (`EngineRuns.DryRunWrapExample`).
- EngineRuns.FokAtomicExactly: asks that no visible level is better than the cached best, as does `Crossing.SubmitUncrossedExactly`. Engine runs keep this (`Crossing.RunKeepsLeads`); a cancellation made directly on a hidden level can break it (`Crossing.LeadLostExample`). `EngineRuns.FokAtomicWithoutStp` asks for nothing of the kind.
- Crossing.SmallRunNeverCrosses: asks for the 2^32 bound and no self-trade prevention, because either can cross the book (`Crossing.CrossedExample`, `Crossing.OwnOrderExample`); `Crossing.RunUncrossedExactly` asks for neither.
- Synth.Generator.Generate: the source's loop ends only with probability one, so it is bounded by the length of the choice sequence, and `finished` tells whether that was enough; fewer than 2^64 - 1 choices, so that order references do not wrap.
- EngineLaws.FillsInPriority: asks that no visible level is better than the cached best, as engine runs keep; `EngineLaws.NonePassedOver` and `Crossing.NothingLeftBehindExactly` ask for true cached bests and no level missed with shares still wanted, because a level whose counter wrapped to zero is passed over (`Crossing.CrossedExample`).
- RingBuffer.SpscRingBuffer.constructor: hints above 2^63 are excluded, as the source's shift is undefined for them; the hash map's capacity hint likewise.
- Pipeline.RoundMakesProgress: is stated for loads that return the latest value; with loads that lag forever nothing can be promised, and `Pipeline.WorkIsBounded` still bounds the work.
- `mix64`: any hash function is allowed; its spread and any average cost are not modelled.
- Pointers and the pool's union: a node is a slot number, and a slot is either a value or a next-free index.
- The template event handler: events are appended to a sequence in order.
- `push_front` and `front`/`back` of the list, `load_factor`, the stale price kept beside a false `has_best_*` flag: not observable through the book.
- The two scans of the book, and the probe loops of `find` and `erase`, are written once here and shared, where the source repeats them.
- The iteration order of the outlier map and of the generator's and reference's maps: any order.
- The level index is computed in unbounded integers: reference prices and half widths for which the 64-bit offsets overflow are not modelled.
- Stock Directory contents: kept as one run of bytes once decoded, not split into their fields.
- Memory-mapped file reading, benchmarks, the latency histogram, the smoke program, the allocation guard, thread pinning and cache-line padding.
- Random distributions: arbitrary choices in the same ranges; the price jitter may be any integer.
- Threads: interleaved steps with acquire and release views, not hardware.
