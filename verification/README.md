# A verified model of SMCP

SMCP is a C implementation of the Constrained Application Protocol (RFC 7252).
This project models its transaction engine, its intrusive binary tree and timer
list, its option codec with the message builder and reader, its path helpers, its
duplicate filter, and the block-wise transfer between its client and the server of
its plug test, and proves what they promise.

The configuration is: not embedded, transactions in the binary tree, Block2 and
Observe enabled, message ids of a release build (assertions off), no cascade count.
16- and 32-bit fields have their widths written out; the unsigned 32-bit and 64-bit
sums that cannot overflow are plain integers.

## How the parts fit together

| files | part |
|---|---|
| `BtreeShape`, `BtreeBalance`, `BtreeOrder`, `Btree` | the binary tree: shapes with one subtree taken out, restructuring on shapes, the tree as a finite map, and the pointer operations on the heap |
| `TimeVal`, `TimerQueue`, `TimerTable` | times and periods; the intrusive sorted list of timers; that list as the timers of the transactions |
| `Power`, `MsgId` | powers of two; the message id generator and the period of congruential generators modulo 2^k |
| `Retransmit`, `Transactions`, `TransactionTree` | retransmission delays; the engine: begin, firing, response, end, release, and whole runs; the binary tree as its tree |
| `Block2`, `BlockTransfer`, `BlockRequest`, `BlockAnswer`, `BlockClient` | integers as option values, the stateless Block2 server, the transfer as a protocol over a lossy network, the options in requests and in the packets of the answers, and the engine as its client |
| `Options`, `OptionBuffer`, `Packet`, `Outbound`, `Inbound` | the option format, insertion in a live buffer, packets, building and reading |
| `UrlPath`, `PathBuffer` | paths as option values and back, and the same in memory |
| `FastHash`, `DupeFilter` | the incremental hash and the ring of recent packets |

Code that changes state is modelled by classes and methods whose contracts give the
whole new state, mostly through a function on values (a `Shape`, a list of timers, a
list of options); what the code is for is then proved about these functions. The
engine holds its tree and its timers as finite maps. `TransactionTree.Store`, on the
binary tree, and `TimerTable.Table`, on the linked list, have the same operations on
pointers, and their contracts say that these are the operations on the maps. The key
of an item is constant, so a transaction that changes its id gets a new item there,
which takes over the links. Which links a transaction keeps that is thrown out depends on
the shape of the tree; the engine leaves it open.

What comes from outside is a parameter: the time of every call, the random numbers,
what the network delivers, and what the user's code does (`Transactions.User`).
A callback may end its own transaction.

Results that need a word:

* Some promises are false without a condition, and the condition is part of the
  theorem. `Begin` keeps the engine in order exactly if the message id that is left
  over in the transaction is not in the tree (ids of 0 do occur, see
  `MsgId.EveryIdIsUsed`) and the transaction is clean (`Clean`): one that another has
  thrown out of the tree keeps its links, and hung up with children it makes the tree a
  cycle. A path comes back from its options exactly if all its
  segments are in canonical form. A block transfer can complete exactly if the
  resource is not empty. A period in milliseconds is close to the true difference
  exactly if that fits 32 bits, and the timeout and the firing of timers are right
  exactly if cutting does no harm to the first timer. `Tickle` keeps the engine in order exactly if the
  transaction is active.
* The Block2 server has two loops that need not end, and both conditions are exact:
  an option value of 256 bytes or more overflows an 8-bit counter (`Block2.Countable`),
  and a wanted block that ends at offset 2^32 has a stop of 0 (`Block2.Endless`). There
  is one such offset per block size, and because offsets wrap several block numbers lead
  to it. The transfer never asks for either (`BlockTransfer.ServerAnswersInRuns`).
* A packet of 1032 bytes has room for blocks of up to 512 bytes, so a client that asks for a
  later block in 1024 bytes is never served (`BlockTransfer.LargeBlocksFail`); the transfer
  never does, and can always be completed (`BlockTransfer.RunsCanFinish`).
* A plus sign is not escaped but is decoded to a space, so an option value comes back from a
  path exactly if it has none (`UrlPath.DecodeOfEncode`).
* A timer may fire up to a millisecond before its time, because periods are truncated
  (`TimerQueue.NoneFiresEarly`).
* `smcp_inbound_get_path` writes behind its buffer for some options; the exact condition
  and two such options are in `PathBuffer`.
* Retransmission delays are exact up to ten attempts; from the twelfth delay on the
  32-bit product can overflow, and `Retransmit.TwelfthDelay` says when.
* Section 3 of RFC 7252 calls a content marker with nothing behind it an error; the
  code accepts it as empty content, and so does the model. The 14-form of an option
  length wraps at 16 bits, as in the code.
* A notification that is taken for stale ends its transaction, unless that has
  NO_AUTO_END: the status of the skipped response is treated like a failure
  (src/smcp/smcp-transaction.c:593-600, 722-726, `Transactions.Engine.StaysActive`).
* A signed overflow in period arithmetic is modelled as wrap-around.
* `ll_sorted_insert` and the other list functions are modelled at the list of timers,
  their only use here.

## Model

| member | source | states |
|---|---|---|
| `Btree.Tree.Insert` | src/smcp/btree.c:59-110 | the item takes its place in the search order, and the map gets the one entry key -> item; another item with an equal key is handed out once, with its links still set; an item that is in the tree already leaves the tree as it is; the result is the depth of the item; the pointers are those of an ordered tree afterwards if and only if the item was in the tree, found its key there, or had no children and, in an empty tree, no parent |
| `Btree.Planted` | src/smcp/btree.c:104-107 | hanging an item into an empty slot leaves a tree if and only if its child links are null and its parent link is the owner of the slot |
| `Btree.Tree.Find` | src/smcp/btree.c:112-132 | finds exactly the item that the map has for the key |
| `Btree.Tree.Remove` | src/smcp/btree.c:134-177 | the map loses exactly the entry of the key, no other item is lost, also with two children, and the removed item has no links left |
| `Btree.Tree.Settle` | src/smcp/btree.c:86-107 | the item gets the children and the place of the one with an equal key, which keeps its own links, or the empty slot with the children it had |
| `Btree.Tree.Detach` | src/smcp/btree.c:145-168 | the two subtrees of the removed item are joined in its place and the links of all others agree |
| `BtreeOrder.PlantedDict` | src/smcp/btree.c:104-107 | an item hung where its search ended keeps the order and extends the map |
| `BtreeOrder.ReplacedDict` | src/smcp/btree.c:86-103 | an item with an equal key in the same place keeps the order and replaces one entry |
| `BtreeOrder.RemovedDict` | src/smcp/btree.c:149-164 | joining the subtrees keeps the order and removes one entry |
| `BtreeBalance.JoinKeeps` | src/smcp/btree.c:157-164 | hanging the right subtree below the last item on the left keeps all items in order, each once |
| `Btree.Tree.First` | src/smcp/btree.c:179-188 | the first item of the subtree in the order of the whole tree |
| `Btree.Tree.Last` | src/smcp/btree.c:208-217 | the last item of the subtree in the order of the whole tree |
| `Btree.Tree.Next` | src/smcp/btree.c:190-206 | steps from position i of the order to position i + 1, and from the last to nothing |
| `Btree.Tree.Prev` | src/smcp/btree.c:219-235 | steps from position i of the order to position i - 1, so it undoes Next |
| `Btree.Tree.Forward` | src/smcp/btree.c:179-206 | stepping from the first item visits every item once, in order, and stops |
| `Btree.Tree.Backward` | src/smcp/btree.c:208-235 | stepping back from the last item visits every item once, in reverse order, and stops |
| `Btree.Tree.Range` | src/smcp/btree.c:348-353 | the first item of an inner subtree, and the one item that stands behind its last one |
| `Btree.Tree.Count` | src/smcp/btree.c:237-257 | counts the items of a subtree |
| `Btree.Tree.RotateRight` | src/smcp/btree.c:259-272 | the pointers follow the rotation of the shape and all parent links agree |
| `Btree.Tree.RotateLeft` | src/smcp/btree.c:274-287 | the pointers follow the rotation of the shape and all parent links agree |
| `BtreeBalance.RotRKeeps` | src/smcp/btree.c:259-272 | a right rotation keeps the items and their order |
| `BtreeBalance.RotLKeeps` | src/smcp/btree.c:274-287 | a left rotation keeps the items and their order |
| `Btree.Tree.Unbalance` | src/smcp/btree.c:289-307 | ends, leaves a right-only chain of the same items in the same order, and returns n minus the length of the right spine |
| `BtreeBalance.ChainShape` | src/smcp/btree.c:297-303 | the chain has the items in order and all of them on its right spine |
| `Btree.Tree.Splay` | src/smcp/btree.c:309-345 | ends with the item at the slot and returns exactly its depth |
| `BtreeBalance.MoveToTopKeeps` | src/smcp/btree.c:309-345 | moving an item up keeps the items and their order |
| `BtreeBalance.OneStepUp` | src/smcp/btree.c:317-331 | one rotation below any context brings the item one level up and does not change the result of the climb |
| `Btree.Tree.FindMedian` | src/smcp/btree.c:371-385 | the slow iterator stops at position n/2 of the subtree |
| `Btree.Tree.GetBalance` | src/smcp/btree.c:347-365 | n/2 minus the number of items on the left |
| `Btree.Tree.Rebalance` | src/smcp/btree.c:367-397 | ends, keeps the items, and the subtree becomes the halved tree of its items in order |
| `BtreeBalance.RebalanceAchieves` | src/smcp/btree.c:367-397 | every subtree of n items has n/2 on its left, the order is kept, the balance is 0, the height is floor(log2 n) + 1, and a second rebalance makes no rotation |
| `BtreeBalance.HalvedIsBalanced` | src/smcp/btree.c:387-393 | the halved trees are exactly the results of a rebalance |
| `BtreeBalance.HalvedHeight` | src/smcp/btree.c:387-393 | a halved tree has the least possible height |
| `BtreeBalance.HalvedCostsNothing` | src/smcp/btree.c:387-393 | rebalancing a halved tree costs no rotation |
| `TimeVal.ConvertCmsToTimeval` | src/smcp/smcp-timer.c:75-92 | the time after a period, with divisions that truncate toward zero |
| `TimeVal.AfterIsExact` | src/smcp/smcp-timer.c:75-92 | the time lies exactly that many milliseconds away, also in the past, and is normal when it lies ahead |
| `TimeVal.PeriodIsCutOnce` | src/smcp/smcp-timer.c:94-100 | wrapping every intermediate result is the same as wrapping the final one |
| `TimeVal.PeriodUndoesAfter` | src/smcp/smcp-timer.c:75-100 | the period between a time and the time c milliseconds after it is c, for every 32-bit c |
| `TimeVal.PeriodIsClose` | src/smcp/smcp-timer.c:94-100 | the period is within a millisecond of the true difference if and only if it fits 32 bits |
| `TimeVal.PeriodMonotone` | src/smcp/smcp-timer.c:94-115 | truncation toward zero keeps the order of times |
| `TimeVal.LongOverdueLooksAhead` | src/smcp/smcp-timer.c:94-115 | a time that does not fit: overdue by 2147484 s it seems to lie ahead |
| `TimeVal.CompareIsMicros` | src/smcp/smcp-timer.c:117-137 | the comparison of seconds and microseconds is the order of time |
| `TimerQueue.InsertAfter` | src/smcp/ll.h:117-132 | the links become those of the list with the item behind its neighbour |
| `TimerQueue.Insert` | src/smcp/ll.h:134-150 | the links become those of the list with the item before its neighbour |
| `TimerQueue.Bypass` | src/smcp/ll.h:198-214 | the links become those of the list without the item; an item without links changes nothing |
| `TimerQueue.Queue.SortedInsert` | src/smcp/ll.h:162-196 | the item is put behind everything that fires no later and before everything that fires later |
| `TimerQueue.OrderedWith` | src/smcp/ll.h:162-196 | such an insertion keeps the list sorted, with ties in the order of arrival |
| `TimerQueue.Queue.IsScheduled` | src/smcp/smcp-timer.c:155-161 | the three tests on the links tell exactly whether the timer is in the list |
| `TimerQueue.Queue.Schedule` | src/smcp/smcp-timer.c:163-208 | gives an unqueued timer the time that lies its delay ahead, to the microsecond, with a negative one as none, puts it in its sorted place and keeps the list sorted, linked and in order of arrival; a queued one and all links stay as they are |
| `TimerQueue.Queue.Invalidate` | src/smcp/smcp-timer.c:210-237 | takes exactly this timer out; for an unqueued one list and links stay as they are |
| `TimerQueue.Queue.GetTimeout` | src/smcp/smcp-timer.c:256-273 | it looks at the first timer only; it is no longer than the true time left of any queued timer if and only if cutting to 32 bits does not lengthen the time of the first one, and it is the minimum of 30000 and all true times left if and only if cutting does not change that one up to 30000 |
| `TimerQueue.TimeoutTooLong` | src/smcp/smcp-timer.c:256-299 | a first timer that is overdue by 2147484 s is not due for the code, and the timeout exceeds the time left of the next one |
| `TimerQueue.Queue.HandleTimers` | src/smcp/smcp-timer.c:275-299 | fires the first timer if and only if its period is not positive; that tells whether any timer is due in truth if and only if cutting does not change whether the first one is |
| `TimeVal.CutLeft` | src/smcp/smcp-timer.c:94-115 | when the cut time left of a time is no longer than, the same as, or zero together with the true one |
| `TimeVal.DueWhenOver` | src/smcp/smcp-timer.c:75-115 | a delay counts as over only when less than a millisecond of it is left, and from its end on until 2^31 ms later |
| `TimerQueue.Queue.Run` | src/smcp/smcp-timer.c:163-299 | over any run of calls the links stay those of a sorted list, and the list and the timers that have fired are exactly what the calls make of a list of entries |
| `TimerQueue.NothingIsLost` | src/smcp/smcp-timer.c:163-299 | over any run, what was queued plus what was scheduled while unqueued is what is queued plus what was invalidated while queued or has fired |
| `TimerQueue.NoneFiresEarly` | src/smcp/smcp-timer.c:163-299 | over any run, a timer that fires has been queued ever since it was scheduled, and less than a millisecond of that delay is left, unless the clock has been set back behind the call that scheduled it |
| `TimerQueue.FiresInTime` | src/smcp/smcp-timer.c:275-299 | a first timer whose delay is over, by no more than 2^31 ms, fires at the next call |
| `TimerQueue.EntriesWith` | src/smcp/ll.h:162-196 | the place that the links give a timer is the one behind all entries that fire no later |
| `TimerQueue.Queue.Release` | src/smcp/smcp.c:138-144 | the loop empties the list and calls the cancel function of every queued timer that has one exactly twice |
| `TimerTable.Table.Schedule` | src/smcp/smcp-timer.c:163-208 | on the list of timers of transactions, scheduling is adding an entry to a finite map unless it is there |
| `TimerTable.Table.Invalidate` | src/smcp/smcp-timer.c:210-237 | invalidating is removing the entry |
| `TimerTable.Table.Fire` | src/smcp/smcp-timer.c:275-299 | firing removes an entry with the earliest date, if that is due; when it does not, no entry is due in truth if and only if cutting does not change that for an earliest one |
| `MsgId.Ids.Next` | src/smcp/smcp.c:348-364 | the id of a release build, seeded from the low 16 bits of a random number when the last one was 0; the product fits its 32-bit int |
| `MsgId.Ids.Take` | src/smcp/smcp.c:348-364 | in any run of calls no id comes twice between two seeds |
| `MsgId.ReturnsAfter` | src/smcp/smcp.c:358-361 | a congruential generator modulo 2^k with a = 1 mod 4 and odd c returns to its value after n steps if and only if 2^k divides n |
| `MsgId.FullPeriod` | src/smcp/smcp.c:358-361 | the values at two steps are equal if and only if 2^k divides the distance of the steps |
| `MsgId.FullCycle` | src/smcp/smcp.c:358-361 | every value below 2^k comes within 2^k steps |
| `MsgId.SumFactors` | src/smcp/smcp.c:358-361 | 1 + a + ... + a^(n-1) has as many factors of two as n |
| `MsgId.IdsBetweenSeedsDiffer` | src/smcp/smcp.c:348-364 | ids between two seeds are pairwise distinct, which is what the freshness assertion at src/smcp/smcp-transaction.c:181 relies on |
| `MsgId.EveryIdIsUsed` | src/smcp/smcp.c:348-364 | among 65536 ids in a row from one seed every id comes, 0 among them |
| `Retransmit.DelayBounds` | src/smcp/smcp-transaction.c:145-160 | up to ten attempts no 32-bit overflow, and a delay from 1500 * 2^r to less than half more, up to the cap of 14 s |
| `Retransmit.BacksOff` | src/smcp/smcp-transaction.c:145-160 | the first delay is 1.5 s times the random factor, and up to ten attempts each is twice the one before, to the millisecond, up to 14 s |
| `Retransmit.TwelfthDelay` | src/smcp/smcp-transaction.c:145-160 | the twelfth delay overflows and is negative if and only if the random factor is at least 700/512 |
| `Transactions.Engine.Begin` | src/smcp/smcp-transaction.c:372-460 | an inactive transaction, new or used before, is active under a fresh id with its timer queued for its first firing; one with the same id is thrown out, told so, freed if it was allocated here, and keeps tree links unless it was the only one; everything is in order afterwards if and only if the old id of the transaction was not in the tree and the transaction was clean: its new id was in the tree, or it had no children left from being thrown out before and, in an empty tree, no parent |
| `Transactions.Engine.FirstFiring` | src/smcp/smcp-transaction.c:413-441 | a transaction that sends a request fires at once, one that only waits when its time is up, and a kept-alive one no later than after 45 s |
| `Transactions.Engine.ThrownOutAndBack` | src/smcp/smcp-transaction.c:372-460 | a transaction that was thrown out with children and is started again without being set up anew leaves the engine out of order, although nothing has its old id |
| `Transactions.Engine.NewMsgId` | src/smcp/smcp-transaction.c:162-197 | the transaction moves to its new id, whatever has that id is thrown out with its timer and told so, and all others stay |
| `Transactions.Engine.End` | src/smcp/smcp-transaction.c:462-497 | the transaction leaves tree and timers and its callback, if still set, is told once; ending it again changes nothing |
| `Transactions.Engine.Delete` | src/smcp/smcp-transaction.c:107-143 | the timer goes, the transaction is inactive, the callback is told of the invalidation, and a transaction that was allocated here is freed, never a second time |
| `Transactions.Engine.Tickle` | src/smcp/smcp-transaction.c:358-370 | the timer is due at once, and the engine stays in order if and only if the transaction is active |
| `Transactions.Engine.Retry` | src/smcp/smcp-transaction.c:210-251 | one more attempt or none, the delay until the next one, and the attempt counter, which stops at 15 |
| `Transactions.Engine.Timeout` | src/smcp/smcp-transaction.c:199-318 | a firing tries again, starts an observation over under a new id, or reports and ends; the engine is in order afterwards |
| `Transactions.Engine.Firings` | src/smcp/smcp-transaction.c:199-318 | when a firing sends, starts over, reports a timeout or does nothing, its status, the next attempt, and the next delay, which is the least of the time left, the retransmission delay and 45 s as far as they apply |
| `Transactions.Engine.Fire` | src/smcp/smcp-timer.c:275-299 | the timer of a transaction leaves the queue and the firing changes no other transaction, except that a restarted observation throws out the one whose id it takes |
| `Transactions.Engine.FindHandler` | src/smcp/smcp-transaction.c:524-560 | the one transaction a response is for, by id with its token or else by token and smallest id, and from the right address; none only if it is for none |
| `Transactions.Engine.ForWhom` | src/smcp/smcp-transaction.c:518-550 | whom a response is for, in terms of the active transactions alone: by id, token and address |
| `Transactions.Engine.FindViaToken` | src/smcp/smcp-transaction.c:91-105 | the transaction with the smallest id among those with this token |
| `Transactions.Engine.Observed` | src/smcp/smcp-transaction.c:588-649 | a stale value changes nothing, a newer one is told, and the timer is set to its age limit |
| `Transactions.Engine.Answered` | src/smcp/smcp-transaction.c:651-717 | the callback is told once; the transaction asks for the next block under a new id, waits for the next value, or ends |
| `Transactions.Engine.HandleResponse` | src/smcp/smcp-transaction.c:499-728 | whatever comes in, the engine stays in order; a response to nobody is reset if and only if it is not an acknowledgement or reset, and is heard by nobody; otherwise its transaction replies as `ReplyStatus`, `StaysActive` and `NewCalls` say, the one whose id it takes for the next block is thrown out and told so, and no other changes |
| `Transactions.Engine.Replies` | src/smcp/smcp-transaction.c:576-728 | what is returned, what the callback hears, whether the transaction goes on and whether it asks for the next block: without authentication, for a stale notification, and for each kind of transaction |
| `Transactions.Engine.AgeLimit` | src/smcp/smcp-transaction.c:585-647 | the next value is waited for as long as the last one is fresh, for ever or 30 s when no age is given, and a kept-alive transaction fires after 45 s at the latest |
| `Transactions.Engine.Run` | src/smcp/smcp-transaction.c:107-728 | over any run of events that are allowed where they come, each of them does what `Event.Happens` says, to the tree, the timers, the ids, what the callbacks hear and what is sent, and to no other transaction; the engine stays in order, and a callback whose transaction has ended hears nothing more until it is started again |
| `Transactions.Engine.Step` | src/smcp/smcp-transaction.c:107-728 | one event, and that one that is not allowed does nothing |
| `Transactions.WhatCanHappen` | src/smcp/smcp-transaction.c:107-728 | what a run may consist of: responses at any time, ends of what is not freed, tickles of what is active, firings of queued timers, and starts of what is inactive, not freed and has an id that nothing has |
| `Transactions.Engine.TreeAndTimers` | src/smcp/smcp-transaction.c:107-728 | in every such state the tree holds exactly the active transactions under pairwise distinct ids, those that end by themselves have a timer, and ended ones have none |
| `Transactions.Engine.CallbackPromise` | src/smcp/smcp-transaction.c:128-134 | a transaction without flags hears exactly one call between its begin and its end, and one with ALWAYS_INVALIDATE hears of the invalidation exactly once and last |
| `Transactions.Engine.Silence` | src/smcp/smcp-transaction.c:199-318 | a transaction that hears nothing is sent, under its one id, at every firing until its time is up and timed out once at the first firing after that |
| `Transactions.Engine.NextDelayBounds` | src/smcp/smcp-transaction.c:235-239 | no delay exceeds the time left or 14 s, and up to ten attempts it is no shorter than 1500 * 2^r unless one of these is |
| `Transactions.Engine.Release` | src/smcp/smcp.c:133-136 | the loop ends, tree and timers are empty, and every callback that was still set has been told once |
| `TransactionTree.Store.Find` | src/smcp/smcp-transaction.c:71-89 | on the tree of transactions by message id, finding is looking up a finite map |
| `TransactionTree.Store.Insert` | src/smcp/smcp-transaction.c:186-192 | entering a transaction with the links it has is overwriting one entry of the map and handing out the transaction that had it, and leaves a tree if and only if the transaction was clean; the one that is handed out has links left if and only if it was not the only one |
| `TransactionTree.ThrownOutAndBack` | src/smcp/btree.c:59-110 | three items with which the pointers end up as no tree: an item that was thrown out hangs itself below its own child |
| `TransactionTree.Store.Remove` | src/smcp/smcp-transaction.c:171-179 | removing is removing one entry of the map, and the transaction has no links then |
| `TransactionTree.Store.FindViaToken` | src/smcp/smcp-transaction.c:91-105 | stepping through the tree finds the transaction with the smallest id among those with this token |
| `Block2.UintRoundTrip` | src/smcp/smcp-outbound.c:391-399 | an integer option is read back as its value |
| `Block2.UintLength` | src/smcp/smcp-outbound.c:69-83 | it takes n bytes or fewer if and only if the integer is below 256^n |
| `Block2.UintSize` | src/smcp/smcp-outbound.c:69-83 | the last bytes that are sent are the shortest encoding of the four-byte value |
| `Block2.DecodeUint32` | src/smcp/coap.c:338-346 | shifts in as many bytes as the length modulo 256 says, cut to 32 bits |
| `Block2.StopIsAhead` | src/smcp/coap.c:266-272 | a block ends where its size says, or at 2^32, which wraps to 0 |
| `Block2.SizeIsPower` | src/smcp/coap.c:266-272 | a block has 2^(e+4) bytes, e from 0 to 7 |
| `Block2.FitBlock` | src/plugtest/plugtest-server.c:307-320 | unless the wanted block ends at 2^32, the loop ends with the shrunk option, its start, and a stop one block behind it |
| `Block2.ShrinkFits` | src/plugtest/plugtest-server.c:307-320 | the loop takes the last option, from the wanted one downwards, whose first block fits, or 0 |
| `Block2.EndlessIff` | src/plugtest/plugtest-server.c:307-320 | the loop goes on for ever if and only if the wanted block, before any shrinking and for any room, ends at offset 2^32 |
| `Block2.EndlessBlocks` | src/plugtest/plugtest-server.c:307-320 | two option values of one size for which it does |
| `Block2.CounterEnds` | src/plugtest/plugtest-server.c:288-291 | the 8-bit counter gets through an option value if and only if that has fewer than 256 bytes |
| `Block2.LongValue` | src/plugtest/plugtest-server.c:288-291 | 256 zero bytes, for which that loop does not end although they ask for an ordinary block |
| `Block2.ReadValue` | src/plugtest/plugtest-server.c:288-291 | a value that can be counted through is read as its integer |
| `Block2.LargeHandler` | src/plugtest/plugtest-server.c:263-354 | for every request on which its two loops end, it answers with the asked block of the text and says whether more follow, or fails |
| `BlockAnswer.Answer` | src/plugtest/plugtest-server.c:263-354 | the whole handler on a real packet: its options, the room that they leave, the block option and the content |
| `BlockAnswer.BlockArrives` | src/plugtest/plugtest-server.c:263-354 | for every token and every request for a block of the text in up to 512 bytes, the client reads from the packet exactly that block, its number, its size, and whether more follow |
| `BlockTransfer.ServesBlock` | src/plugtest/plugtest-server.c:307-348 | the answer to a request for block k is exactly block k of the resource, and its flag tells whether block k + 1 exists |
| `BlockTransfer.ServesExactly` | src/plugtest/plugtest-server.c:307-348 | the server answers a request for block k if and only if the block exists and there is more space than it takes; number, flag, size and payload of the answer, also where the first block is made smaller |
| `BlockTransfer.LargeBlocksFail` | src/plugtest/plugtest-server.c:335-335 | in a packet, a block behind the first one that is asked for in 1024 bytes or more is never served |
| `BlockTransfer.AnswersCurrent` | src/smcp/smcp-transaction.c:524-538 | a response that is taken by its message id answers the current request, however late or often it comes |
| `BlockTransfer.StaysDeliverable` | src/smcp/smcp-transaction.c:499-550 | whatever has been sent can be answered or delivered at any later time and any number of times |
| `BlockTransfer.StepKeeps` | src/smcp/smcp-transaction.c:669-680 | every step of client, server and network keeps what was delivered exact |
| `BlockTransfer.TransferIsExact` | src/smcp/smcp-transaction.c:669-680 | in every state of every run the delivered payloads are a prefix of the resource; complete, they are all of it, in ceil(L/size) blocks |
| `BlockTransfer.ServerAnswersInRuns` | src/plugtest/plugtest-server.c:288-320 | no request of any run keeps the server in one of its loops, and it reads from the wire what the client asks |
| `BlockTransfer.CanFinish` | src/smcp/smcp-transaction.c:669-680 | from every state in which it is active, with blocks of up to 512 bytes, a transfer of a resource that is not empty can be completed by answers in packets of 1032 bytes |
| `BlockTransfer.RunsCanFinish` | src/smcp/smcp-transaction.c:669-680 | so it can in every state of every run whose answers stand in packets of 1032 bytes |
| `BlockTransfer.EmptyNeverCompletes` | src/plugtest/plugtest-server.c:322-322 | an empty resource is never transferred |
| `BlockRequest.AddRequestOption` | src/smcp/smcp-outbound.c:307-389 | whatever options the user adds in whatever order, the packet of a request holds the option of the next block exactly once, from the first option with a higher number on, one of the user's does not replace it, and all other options are added as they come |
| `BlockRequest.FinishOptions` | src/smcp/smcp-outbound.c:656-668 | if there was room for it, the server reads from the finished options exactly the block that the transaction asks for |
| `BlockClient.Starts` | src/smcp/smcp-transaction.c:372-460 | a transaction that starts simulates the start of the protocol |
| `BlockClient.SendsRequest` | src/smcp/smcp-transaction.c:223-240 | a firing that sends is the protocol's sending of the current request under its id |
| `BlockClient.Delivers` | src/smcp/smcp-transaction.c:499-728 | any response that the network delivers, new, old or double, does to the transaction what the protocol says |
| `BlockClient.ServerWorks` | src/plugtest/plugtest-server.c:263-354 | the server answers any request that is on its way, and the client does not notice |
| `BlockClient.Expires` | src/smcp/smcp-transaction.c:293-315 | a firing that finds the time up is the protocol's giving up |
| `BlockClient.SimulationIsExact` | src/smcp/smcp-transaction.c:651-717 | where engine and protocol stand together, the callback has been given a prefix of the resource, at the end all of it in ceil(L/size) calls |
| `BlockTransfer.IdsFromOneSeed` | src/smcp/smcp.c:348-364 | the ids from one seed on are distinct as the transfer needs them |
| `Options.HeaderDecodes` | src/smcp/coap.c:53-118 | an encoded option header decodes to its delta and length, in all forms |
| `Options.HeaderForms` | src/smcp/coap.c:131-161 | the bytes of an option header in all its forms |
| `Options.ExtEncodes` | src/smcp/coap.c:131-161 | the decoded value of an extended field encodes to its bytes again |
| `Options.DecodedIsEncoded` | src/smcp/coap.c:53-170 | what decodes is the encoding of what was decoded, when its forms are the shortest |
| `Options.KeysAscend` | src/smcp/coap.c:120-170 | options that can be encoded with deltas have ascending numbers |
| `Options.InsertAtRank` | src/smcp/coap.c:185-198 | the new option stands after all options of equal or smaller number and before all others |
| `OptionBuffer.EncodeOption` | src/smcp/coap.c:120-170 | writes the encoding of the option, with the byte cast before the subtraction of 13, and nothing else |
| `OptionBuffer.FindPlace` | src/smcp/coap.c:185-198 | the loop stops at the place of the new option |
| `OptionBuffer.SizeDiff` | src/smcp/coap.c:204-224 | the sum of the size changes is the growth, also when it passes below zero on the way |
| `OptionBuffer.InsertBefore` | src/smcp/coap.c:200-236 | the new option and the changed header of its neighbour stand before the neighbour's value and everything behind it |
| `OptionBuffer.GrowthBounds` | src/smcp/coap.c:204-224 | the options grow by no less than 0 and no more than the length of the value plus 5 |
| `OptionBuffer.GrowthCanBeZero` | src/smcp/coap.c:226-228 | an insertion that does not grow the options at all |
| `OptionBuffer.InsertOption` | src/smcp/coap.c:172-244 | the bytes become the encoding of the list with the option in its sorted place, the returned growth is exact, and the rest of the buffer stays |
| `Packet.WalkIsHasOptions` | src/smcp/coap.c:300-334 | walking over the options succeeds if and only if they tile the packet up to its end or a marker |
| `Packet.DecodeInPrefix` | src/smcp/coap.c:300-334 | what lies behind the packet does not change how an option in it decodes |
| `Packet.VerifyPacket` | src/smcp/coap.c:274-336 | ends and accepts exactly the packets of 4 to 1240 bytes, of version 1, with a token of up to 8 bytes, and nothing behind the header if the code is 0, whose options tile them; a property of the first packet_size bytes alone |
| `Packet.MessageParses` | src/smcp/coap.c:274-336 | a message that was put together is accepted if and only if its code allows it, and parses to its token, options and content |
| `Inbound.Reader.NextOption` | src/smcp/smcp-inbound.c:126-142 | gives the options of the packet one by one and the reserved number at their end |
| `Inbound.Reader.Scan` | src/smcp/smcp-inbound.c:405-459 | sees all options up to one with the reserved number, and splits off the content |
| `Inbound.SeesAll` | src/smcp/smcp-inbound.c:413-413 | the scan sees all options if and only if none has the reserved number |
| `Inbound.SeesUpTo` | src/smcp/smcp-inbound.c:413-413 | otherwise it sees exactly those before the first one with that number |
| `Outbound.Builder.AddOption` | src/smcp/smcp-outbound.c:261-305 | succeeds if and only if 8 bytes more than the value are left, and then the packet holds the options sorted with the new one; content does not move with them: it stays what it was if there was none or the options do not grow, and otherwise the options run into it |
| `Outbound.Builder.AppendContent` | src/smcp/smcp-outbound.c:627-654 | succeeds if and only if more than the value is left, and then the content is longer by it |
| `Outbound.Builder.SendLength` | src/smcp/smcp-plat-bsd.c:221-225 | what is sent is the message, without a marker if it has no content, and never longer than the limit |
| `Outbound.SortedIsStableSort` | src/smcp/smcp-outbound.c:261-305 | options added in any order end up as their stable sort by number |
| `Outbound.StableSortIsUnique` | src/smcp/smcp-outbound.c:261-305 | nothing else is a stable sort |
| `Outbound.Transfer` | src/smcp/smcp-inbound.c:366-459 | what was built is accepted and read back: the same token, the options stably sorted, the same content |
| `UrlPath.SegmentBack` | src/smcp/url-helpers.c:166-321 | a path segment is the encoding of its decoding if and only if it is in canonical form |
| `UrlPath.EscapeDecodes` | src/smcp/url-helpers.c:215-224 | an escape decodes to its byte, whether its digits are upper or lower case |
| `UrlPath.NoDigitDecodes` | src/smcp/url-helpers.c:215-224 | in an escape, what is no hexadecimal digit counts as 0 |
| `UrlPath.PlainDecodes` | src/smcp/url-helpers.c:297-312 | anything else stands for itself and a plus sign for a space; so does a percent sign before 00 or near the end |
| `UrlPath.CharEncodes` | src/smcp/url-helpers.c:137-213 | letters, digits and eleven other characters are written as they are, all others as escapes in upper case |
| `UrlPath.DecodeOfEncode` | src/smcp/url-helpers.c:166-321 | a string comes back from its encoding if and only if it has no plus sign, which becomes a space |
| `UrlPath.SplitJoin` | src/smcp/url-helpers.c:434-469 | segments without slashes are found again after joining |
| `UrlPath.ComponentsAreSegments` | src/smcp/smcp-outbound.c:574-590 | the components with an empty one for a slash at the end are all pieces between the slashes |
| `UrlPath.JoinOntoIsJoin` | src/smcp/smcp-inbound.c:235-242 | the loop joins the encoded options with slashes |
| `UrlPath.PathRoundTrip` | src/smcp/smcp-outbound.c:574-590 | a path without a leading slash comes back from its options if and only if all its segments are canonical, empty ones and slashes at the end included |
| `UrlPath.LeadingSlash` | src/smcp/smcp-outbound.c:574-590 | a slash at the front changes nothing, unless it is the whole path |
| `PathBuffer.UrlDecode` | src/smcp/url-helpers.c:272-321 | decodes to the same place or another one alike, writes nothing outside, and returns the length, or the size when not everything fits |
| `PathBuffer.DecodeInPlace` | src/smcp/url-helpers.c:323-326 | leaves the decoded string where the string stood |
| `PathBuffer.NextComponent` | src/smcp/url-helpers.c:434-469 | cuts off and decodes the first component and leaves the rest of the path as it was |
| `PathBuffer.SetPath` | src/smcp/smcp-outbound.c:574-590 | the loop adds exactly the options of a path in memory to the packet, up to the first one for which there is no room |
| `PathBuffer.UrlEncode` | src/smcp/url-helpers.c:166-213 | writes as much of the encoded string as fits, without splitting an escape, and tells by its result whether that was all |
| `PathBuffer.JoinPath` | src/smcp/smcp-inbound.c:206-243 | for all options, the loop writes exactly `Written` and a zero from the start of its buffer on and nothing behind them |
| `PathBuffer.StaysInBuffer` | src/smcp/smcp-inbound.c:235-242 | that lies in the 1025 bytes of the buffer if and only if no option starts at offset 1024 |
| `PathBuffer.WrittenIsJoined` | src/smcp/smcp-inbound.c:235-242 | it is the joined path if and only if that has fewer than 1024 characters or an empty option comes when it has 1023 |
| `PathBuffer.WrittenBehindBuffer` | src/smcp/smcp-inbound.c:235-242 | two options that make the loop write behind the buffer, the first of them 342 slashes |
| `FastHash.State.FeedByte` | src/smcp/fasthash.c:36-43 | one byte more of the data has been hashed |
| `FastHash.State.Finish` | src/smcp/fasthash.c:52-59 | the hash is the fold over the little-endian words of everything that was fed |
| `FastHash.OneMoreByte` | src/smcp/fasthash.c:17-43 | a byte lengthens the unfinished word or completes it |
| `FastHash.FoldIsWholeAndRest` | src/smcp/fasthash.c:52-59 | the fold is the hash of the whole words with the rest mixed in under the number of the last one |
| `FastHash.WordGrows` | src/smcp/fasthash.c:36-38 | or-ing a shifted byte in appends it to the little-endian word |
| `FastHash.HashTellsApart` | src/smcp/fasthash.c:10-59 | data of one length that differ within one word have different hashes, and so have the same data under different salts |
| `FastHash.Samples` | src/smcp/fasthash.c:10-59 | the hashes of no data and of five bytes |
| `DupeFilter.Filter.DupeCheck` | src/smcp/smcp-dupe.c:37-74 | a packet is a duplicate if and only if its address and id are among the last 16 that were new, or fewer than 16 were and it looks like an unused entry: all zero with a hash of 0; if not it is recorded |
| `DupeFilter.Filter.RingIsWindow` | src/smcp/smcp-dupe.c:48-61 | the ring holds exactly the window and the unused entries, and comparing the hashes first never changes the answer for a packet that is not all zero |
| `DupeFilter.IdsTellApart` | src/smcp/smcp-dupe.c:37-46 | packets from one address with different ids have different hashes, unless the address has one byte less than a multiple of four |

## Left out

- Sockets, name resolution, uIP, curl, threads, the command line tools, logging and dumps: input and output.
- Virtual hosts, authentication and DTLS: stubs in the source; the status of the authentication check is a parameter of the response handler.
- src/smcp/smcp-observable.c: the loop that removes an observer that is not the first does not advance its pointer (lines 84-88), so no honest removal theorem holds.
- src/smcpd/cgi-node.c: process and pipe plumbing.
- Freshness of notifications: the test at src/smcp/smcp-transaction.c:588-591 goes the other way than section 3.4 of RFC 7641; the model has the test as coded (`Stale`) and claims nothing about freshness.
- Stopping retransmission at an empty acknowledgement (section 4.2 of RFC 7252): the flag is honoured only when the attempt counter is 0, so it is modelled as coded and not claimed.
- Retransmission delays from the thirteenth on: only the cap of 14 s is proved of them.
- DELAY_START: bit 8 does not fit the 8-bit flags field, so the flag has no effect.
- Callbacks that do more than return a status and end their own transaction, resend functions that end it, and reads of freed memory: the user's code is opaque here. A status that a resend function invents is kept apart from the call that tells of the invalidation.
- The address, the multicast flag and the code of the request in a transaction: they are set by sending and are constants here.
- Transactions.Engine.Begin: is stated for transactions that are not active; on an active one the source clears a timer that may be in the list, and the list is broken.
- Transactions.Engine.Release: has the transactions' timers only; the loop over the timers that are left is `TimerQueue.Queue.Release`.
- Timers that belong to no transaction: they are in `TimerQueue` only, and so is the choice of the timer that fires.
- Block2.LargeHandler: is stated for the requests on which its two loops end; on all others it returns nothing. Room and space are its parameters; `BlockAnswer.Answer` has the ones of a packet, but writes the content apart and appends it.
- Btree.Tree.Insert: is stated for comparators that are strict total orders with unbounded results; the comparator of the node router narrows its result to a signed char (src/smcp/smcp-node-router.c:198) and need not be one. The key of an item is constant.
- PathBuffer.JoinPath: the memory from the start of the buffer on is taken to be as long as what is written; the query part and the zero that is put behind an option value while it is encoded are left out.
- BlockTransfer.TransferIsExact: is stated for as many requests as there are distinct message ids from one seed and for resources of at most 2^32 - 2048 bytes; responses come as piggybacked acknowledgements, the callback always wants the next block, and the transaction does not observe.
- BlockClient.Delivers: has one active transaction, which draws its ids one after the other.
- BlockRequest.FinishOptions: returns whether there was room; the source does not look at that.
- The automatic Observe option of a request: `BlockRequest` has the one for the next block; on a request with both, Block2 keeps Observe out (src/smcp/smcp-outbound.c:317-347).
- UrlPath.PathRoundTrip: leading slashes are skipped by the source and do not come back; escapes of a zero byte stay as they are or cut the value, and neither is canonical.
- Characters above 127: they are escaped, as in the C locale.
- Name tables, string utilities, header macros and src/smcp/old: no state worth a model.
