# Verified model of the chat stack

A Dafny model of the parts of the chat server that are hard to get right, with proofs about every
input, every run and every reachable state. `dafny verify dfyconfig.toml` checks all of it.

| module | models |
|---|---|
| `AvlShape`, `AvlTree`, `AvlWalk`, `AvlApi` | common/avl-tree.c: the shapes and their laws, the pointer code that refines them, the walks over parent links, the public operations on a tree object |
| `Sequences`, `LinkedList` | common/list.c |
| `HashMap`, `DaoCache` | common/hash-map.c, chats/p2p/server/dao/dao-cache.c |
| `ThreadPool` | thread-pool/thread-pool.c |
| `JobTable`, `IoService`, `IoServiceStop`, `IoServiceObject` | io-service/io-service.c: the table, the steps and their invariant, what the stops do, the object |
| `BitDivision`, `Crc16` | chats/p2p/crc/crc16-ccitt.c |
| `Protocol` | chats/p2p/protocol/protocol.c |
| `Transfer`, `TransferPosts` | the asynchronous part of network/network.c, alone and on top of the I/O service |

How the parts are built:

- **Tree.** `Shape` is a ghost value over real node objects. `Linked(t)` says that the heap spells out
  `t`: child links, parent links and stored one-byte heights. Each C function is a method that turns
  `Linked(t)` into `Linked(F(t))`, where `F` is the function of `AvlShape` of the same name
  (`Rebalanced`, `Inserted`, `RemovedMin`, `Removed`); what `F` means is proved about `F`: balance,
  in-order sequence, set of handles. `AvlApi.Tree` puts both together, and says on the in-order
  sequence of handles what each public operation does. A removed key's successor is relinked and not
  copied, so `AvlApi.Tree.Remove` can promise that every other handle stays.
- **Cache.** The three indexes are real trees. `Picture` is the value of everything the cache holds;
  `Consistent` is what must agree in it. Each operation is proved to change the picture by one
  function, and the lemmas prove that the function keeps `Consistent`. Nothing is assumed about the
  hash functions; where a collision matters, the contract says so.
- **Thread pool and I/O service.** A step is one stretch of code under the mutex (a condition wait
  gives the mutex up). The properties are proved of all label sequences from the initial state; the
  methods of the classes `Pool` and `Service` are proved to do exactly the step of their name,
  loops included.
- **CRC.** `Divide` is long division of a bit string by the generator of ITU-T Recommendation V.41,
  one bit at a time, most significant bit first. The table of the C file is stated row by row and every
  entry is proved to be a remainder.

## What the proofs turned up

- Thread pool, thread-pool/thread-pool.c:110: the stopper waits under `if`, so a spurious wakeup of it loses
  queued jobs of a draining stop (`SpuriousWakeupLosesJob`). Over every run with wakeups of any kind, a
  stop that has ended has run every accepted job if and only if the queue was empty when the stopper went
  on (`DrainedIffEmptyWhenGoingOn`). Spurious wakeups of workers do no harm
  (`WorkerWakeupKeepsInv`, `DrainingStopWithWokenWorkers`).
- Graceful stop, io-service/io-service.c:196: the loop looks for emptiness only on a notification and before
  the sweep, so it may wait for ever (`GracefulStopMayHang` is such a run). `HangsIff` gives the exact
  condition. Let the event that is being handled be worked off, with no interference. The loop can hang if
  and only if then some slot is filled, or the table has entries left and at most one notification is
  pending, or it has none and no notification is pending. In all other states a notification stays pending
  and the second one at the latest ends the loop (`TwoSweepsSuffice`). It is safe whenever it does
  return: `GracefulStopDrains`.
- Non-waiting stop: it ends a running loop at the next test of `running` if and only if no waiting stop has
  set the flag again since (io-service/io-service.c:109), or that test is made on a notification with an
  empty table (`HardStopEndsLoopIff`, with a run in `HardStopRevived`). Before `io_service_run` it is no different from a waiting one, because
  the loop sets the flag at its start (io-service/io-service.c:182; `EarlyStopAlwaysWaits`).
- After a one-shot dispatch the kernel goes on watching the operation exactly when the descriptor has another
  job (io-service/io-service.c:238; `SurplusIffOtherJob`, with a run in `KernelMayWatchMore`), and no longer
  than to the next sweep, after which it watches exactly the filled slots (`SurplusEndsAtSweep`).
- `p2p_utilize_packet` takes the CRC of the body over the header (chats/p2p/protocol/protocol.c:84), where
  chats/p2p/README:75 says the body. The model follows the code; `DocumentedPacketPasses` says exactly
  which documented packets get through, and `DocumentedPacketRefused` exhibits one that does not.
- An asynchronous transfer is lost, without callback or release, exactly when the service is closed or its slot
  for the descriptor and operation is taken at the first post or at one that is needed to go on
  (`LostIffPostRefused`, `LostIffSlotTaken`); so of two transfers on one descriptor and direction the
  second is lost as long as the first waits (`SecondTransferIsLost`). A transfer that has its slot to itself on
  a service that is not stopped is never lost (`LoneTransferIsNotLost`).
  At the end of a peer's stream a receive reposts itself for ever: `EndOfStreamNeverCompletes`.
- A client with a free nickname hash is found by the nickname it was added with exactly when that hashes like
  its first 15 characters, so a longer one is found by accident only: `AddThenFind`, with `LongNicknameIsNotFound` for one
  that is not. A database delete that fails leaves
  the row, and with it the nickname: `FaultKeepsNickname`.
- Two live clients with equal hash values are both kept (`SharedHashIsKept`), and a look-up returns the one whose
  node the search meets; of two nodes in an empty tree that is the older (`FirstOfTwoIsFound`). A removal
  takes out the node that the search meets for each of the client's keys, so it leaves the cache consistent if
  and only if the look-ups by the client's own nickname and address return that client (`RemoveClient`,
  `RemoveByKey`; both look-ups can be made before). That holds of all live clients exactly when no two share a
  hash value (`AllRemovableIffDistinguished`); of two that share one, `SharedHashBreaksRemoval` removes the
  wrong one. A removal by nickname or address takes the client that the look-up returns, with its row, even one
  with another nickname (chats/p2p/server/dao/dao-cache.c:322-331; `SharedHashRemovesOther`).

## Where the model follows the evident intent

- common/avl-tree.c:28 and :121 and common/list.c:26 return their result.
- common/avl-tree.c:74,81: the left rotation keeps the parent of the node it rotates.
- common/avl-tree.c:95,99,114-119,126-127: a child that comes back from a recursive call or a rotation has its
  parent link set.
- common/avl-tree.c:143 stores the data of the removed node in the caller's variable, and NULL when there is none.
- common/avl-tree.c:239 returns `root`.
- chats/p2p/protocol/protocol.c:18: the header is never NULL.
- thread-pool/thread-pool.c:61-62,110-111: a waiting thread is woken by broadcasts only; what spurious wakeups of workers and of the stopper do is stated apart.
- chats/p2p/server/dao/dao-cache.c:52: the list of clients is what the table holds; reading it is not modelled.

## Model

| member | source | states |
|---|---|---|
| `AvlShape.RotatedRightKeepsOrder` | common/avl-tree.c:54-69 | a right rotation leaves the in-order sequence of handles as it was |
| `AvlShape.RotatedLeftKeepsOrder` | common/avl-tree.c:72-87 | the same for a left rotation |
| `AvlShape.RebalancedKeepsOrder` | common/avl-tree.c:90-105 | rebalancing, double rotations included, leaves the in-order sequence as it was |
| `AvlShape.RebalancedIsProper` | common/avl-tree.c:90-105 | rebalancing keeps the set of nodes, each once |
| `AvlShape.RebalancedIsBalanced` | common/avl-tree.c:90-105 | a node out of balance by two over balanced children becomes a balanced tree, at most one lower; a balanced one is left alone |
| `AvlShape.InsertedNodes` | common/avl-tree.c:108-122 | insertion adds exactly the new node |
| `AvlShape.InsertedIsBalanced` | common/avl-tree.c:108-122 | insertion keeps balance and grows by at most one level |
| `AvlShape.InsertedInOrder` | common/avl-tree.c:108-122 | the in-order sequence gets the new handle after every key that is not larger and before every larger one, also when rotations moved equal keys to the left |
| `AvlShape.StableInsertSorted` | common/avl-tree.c:108-122 | that insertion keeps the sequence sorted |
| `AvlShape.RemovedMinInOrder` | common/avl-tree.c:125-130 | removing the minimum takes the first handle of the sequence and nothing else |
| `AvlShape.RemovedMinNodes` | common/avl-tree.c:125-130 | removing the minimum takes that node out of the set of nodes and nothing else |
| `AvlShape.RemovedMinIsBalanced` | common/avl-tree.c:125-130 | the rest is balanced and at most one lower |
| `AvlShape.SplicedIsBalanced` | common/avl-tree.c:146-159 | the successor in the place of the removed node makes a balanced tree, at most one lower |
| `AvlShape.SplicedInOrder` | common/avl-tree.c:146-159 | what is left is the left subtree's sequence followed by the right one's |
| `AvlShape.RemovedIsBalanced` | common/avl-tree.c:133-163 | removal keeps balance and lowers the tree by at most one |
| `AvlShape.RemovedInOrder` | common/avl-tree.c:133-163 | when the key is present the sequence loses exactly one handle, with that key, the one that `tree_find` finds |
| `AvlShape.RemovedAbsent` | common/avl-tree.c:133-163 | when the key is absent nothing changes |
| `AvlShape.RemovedNodes` | common/avl-tree.c:139-159 | every handle but the removed one is still in the tree |
| `AvlShape.DeletedSorted` | common/avl-tree.c:133-163 | the sequence stays sorted |
| `AvlShape.FoundIffPresent` | common/avl-tree.c:166-171 | in a sorted tree, with duplicates, `tree_find` succeeds exactly for keys that are present and returns a node with the key |
| `AvlShape.FirstOfTwoIsFound` | common/avl-tree.c:166-171 | of two nodes with one key, alone in a tree, the search meets the one inserted first |
| `AvlShape.InOrderDistinct` | common/avl-tree.c:242-255 | no handle occurs twice in the order of the walks |
| `AvlShape.TallTreesAreLarge` | common/avl-tree.c:90-105 | a balanced tree of height h has at least Fib(h+2) - 1 nodes |
| `AvlShape.HeightFitsByte` | common/avl-tree.h:18 | the height of any tree that fits a 64-bit address space fits an `unsigned char` with room to grow |
| `AvlShape.AppliedIsGood` | common/avl-tree.c:208-218 | one add or remove keeps proper, balanced and sorted |
| `AvlShape.RunIsGood` | common/avl-tree.c:208-218 | so does every run of adds and removes |
| `AvlTree.StoredFactor` | common/avl-tree.c:36-43 | the factor computed from the stored bytes is the real difference of heights |
| `AvlTree.FixHeight` | common/avl-tree.c:46-50 | the stored height becomes exact, the byte does not wrap |
| `AvlTree.RotateRight` | common/avl-tree.c:54-69 | child links, parent links and heights of the whole rotated tree are those of the rotated shape; the parent is taken over |
| `AvlTree.RotateLeft` | common/avl-tree.c:72-87 | the same to the left |
| `AvlTree.Balance` | common/avl-tree.c:90-105 | the heap becomes the rebalanced shape, in all four cases |
| `AvlTree.Insert` | common/avl-tree.c:108-122 | the heap becomes the shape with the fresh node inserted |
| `AvlTree.Min` | common/avl-tree.c:224-231 | the loop ends at the first node in order |
| `AvlTree.RemoveMinimum` | common/avl-tree.c:125-130 | the heap becomes the shape without its minimum |
| `AvlTree.Splice` | common/avl-tree.c:151-159 | the successor is relinked in the place of the removed node, with both parent links and heights repaired |
| `AvlTree.RemoveRoot` | common/avl-tree.c:138-160 | all three cases of removing the node that was found |
| `AvlTree.Remove` | common/avl-tree.c:133-163 | the heap becomes the shape without the node that was found; no other handle is replaced |
| `AvlWalk.ParentIsNext` | common/avl-tree.c:246-250 | a subtree on the left of its parent is followed by the parent in order |
| `AvlWalk.FirstIsMin` | common/avl-tree.c:224-231 | the minimum is the first in order |
| `AvlWalk.LastIsMax` | common/avl-tree.c:233-240 | the maximum is the last in order |
| `AvlWalk.Max` | common/avl-tree.c:233-240 | the loop ends at the last node in order |
| `AvlWalk.ClimbWhileRight` | common/avl-tree.c:248-251 | the climb ends at the successor, or at NULL behind the last node |
| `AvlWalk.Next` | common/avl-tree.c:242-255 | through child and parent links, the node at position i + 1, NULL behind the last |
| `AvlWalk.ClimbWhileLeft` | common/avl-tree.c:263-266 | the mirror image of the climb |
| `AvlWalk.Prev` | common/avl-tree.c:257-270 | the node at position i - 1, NULL before the first |
| `AvlApi.Find` | common/avl-tree.c:166-171 | the descent through the heap finds what the shape's `Found` finds |
| `AvlApi.Tree.constructor` | common/avl-tree.c:192-195 | an empty tree is valid |
| `AvlApi.Tree.Add` | common/avl-tree.c:208-212 | on the sequence of handles: stable sorted insertion of a fresh handle; the tree stays balanced, linked both ways, with exact heights |
| `AvlApi.Tree.Remove` | common/avl-tree.c:214-218 | exactly one handle with the key leaves and its data is returned, or nothing changes; every other handle keeps its place in the order |
| `AvlApi.Tree.Get` | common/avl-tree.c:220-222 | a node with the key, exactly when there is one |
| `AvlApi.Tree.WalkUp` | common/avl-tree.c:224-255 | iterating `avl_tree_next` from the minimum visits the in-order sequence, each node once, and ends |
| `AvlApi.Tree.WalkDown` | common/avl-tree.c:233-270 | iterating `avl_tree_prev` from the maximum visits the reverse and ends |
| `AvlApi.Tree.ThereAndBack` | common/avl-tree.c:242-270 | `avl_tree_prev` undoes `avl_tree_next` and the other way round; NULL comes exactly at the ends |
| `LinkedList.List.Append` | common/list.c:63-86 | a fresh element at the end of the sequence; links, ends and count follow it, and every datum stays as it was |
| `LinkedList.List.Prepend` | common/list.c:88-111 | a fresh element at the front; links, ends and count follow it, and every datum stays as it was |
| `LinkedList.List.Unlink` | common/list.c:169-239 | the shared body of the removals: the sequence without that element |
| `LinkedList.List.RemoveNext` | common/list.c:169-193 | exactly that element leaves, its right neighbour is returned; a foreign element changes nothing |
| `LinkedList.List.RemovePrev` | common/list.c:195-219 | exactly that element leaves, its left neighbour is returned |
| `LinkedList.List.RemoveElement` | common/list.c:221-239 | exactly that element leaves |
| `LinkedList.List.Forward` | common/list.c:241-257 | the walk over `next` from the first element is the sequence |
| `LinkedList.List.Backward` | common/list.c:245-267 | the walk over `prev` from the last element is its reverse |
| `HashMap.RemoveByHash` | common/hash-map.c:65-69 | one node with the hash value leaves and its datum is returned, or NULL and no change exactly when no node has it |
| `HashMap.GetByHash` | common/hash-map.c:49-53 | a node with the hash value, NULL exactly when there is none |
| `HashMap.NextNode` | common/avl-tree.c:242-255 | another node whose key comes next, with none in between, NULL exactly behind the largest; also with equal keys |
| `DaoCache.Dao.Add` | chats/p2p/server/sqlite/db.sql:5-11 | a fresh nonzero id and one more row, or zero and no change for a taken nickname or a fault |
| `DaoCache.IndexGrows` | chats/p2p/server/dao/dao-cache.c:253-268 | a new element, entered with its node, keeps tree, list and handles in bijection |
| `DaoCache.HandleAlone` | chats/p2p/server/dao/dao-cache.c:282-286 | the handle of an element that shares its key with no other is the only node with that key, and points at the element |
| `DaoCache.IndexShrinks` | chats/p2p/server/dao/dao-cache.c:282-289 | taking an element and its node out keeps tree, list and handles in bijection |
| `DaoCache.EnteredKeeps` | chats/p2p/server/dao/dao-cache.c:224-273 | a client with a fresh id keeps all indexes, lists and rows consistent and in step with the database; hash values stay distinct exactly when its own are free |
| `DaoCache.LeftIsConsistent` | chats/p2p/server/dao/dao-cache.c:275-359 | a removal keeps everything consistent, whether or not the delete failed |
| `DaoCache.LeftInStep` | chats/p2p/server/dao/dao-cache.c:275-359 | cache and database stay in step exactly when they were and the delete did not fail |
| `DaoCache.FaultKeepsNickname` | chats/p2p/server/dao/dao-cache.c:280 | after a failed delete the row still has the nickname while the cache no longer has the client |
| `DaoCache.ConsistentIffOwnNodes` | chats/p2p/server/dao/dao-cache.c:282-289 | when three nodes with the leaving element's keys leave the maps, everything stays consistent if and only if those by nickname and address point at that element |
| `DaoCache.LoadStep` | chats/p2p/server/dao/dao-cache.c:74-91 | one round of the load loop extends consistency by one client |
| `DaoCache.Maps.Put` | chats/p2p/server/dao/dao-cache.c:257-268 | one tree gets a fresh node with the element's key; the other two are as they were |
| `DaoCache.Maps.Take` | chats/p2p/server/dao/dao-cache.c:282-286 | one tree loses the node that the search meets, or nothing when there is none; the other two are as they were |
| `DaoCache.Cache.Enter` | chats/p2p/server/dao/dao-cache.c:251-268 | the element gets its keys, all three trees a node for it, the list the element, the element its handles |
| `DaoCache.Cache.AddClient` | chats/p2p/server/dao/dao-cache.c:224-273 | everything stays consistent, hash collisions or not; one client more in both lists, all trees and the database, with the nickname, host and port given, each cut to 15, 255 and 5 characters; or, exactly when the statement faults or the nickname is taken, no change at all |
| `DaoCache.Cache.HolderLives` | chats/p2p/server/dao/dao-cache.c:164-166 | a look-up by hash value returns a live element with that key, and NULL exactly when there is none |
| `DaoCache.Cache.RemoveClient` | chats/p2p/server/dao/dao-cache.c:275-292 | that client leaves both lists and, without a fault, the database, and the nodes that the searches meet leave the trees; the cache is consistent afterwards if and only if the look-ups by the client's own nickname and address returned it |
| `DaoCache.Cache.RemoveByKey` | chats/p2p/server/dao/dao-cache.c:294-359 | the client that a look-up by the key returns leaves, whichever it is, with its row; consistent afterwards exactly under the same condition |
| `DaoCache.Cache.RemoveClientById` | chats/p2p/server/dao/dao-cache.c:294-311 | the client with the id leaves, under the same condition |
| `DaoCache.Cache.RemoveClientByNickname` | chats/p2p/server/dao/dao-cache.c:313-334 | the client that a look-up by the nickname returns leaves, with its row, under the same condition |
| `DaoCache.Cache.RemoveClientByAddr` | chats/p2p/server/dao/dao-cache.c:336-359 | the client that a look-up by the address returns leaves, with its row, under the same condition |
| `DaoCache.Cache.UnmistakableFindsItself` | chats/p2p/server/dao/dao-cache.c:120-171 | a live client whose hash values nobody shares is what the look-ups by them return |
| `DaoCache.Cache.AllRemovableIffDistinguished` | chats/p2p/server/dao/dao-cache.c:275-292 | every live client can be removed safely if and only if no two share a hash value |
| `DaoCache.SharedHashIsKept` | chats/p2p/server/dao/dao-cache.c:224-273 | a client whose nickname hashes like that of a live one is kept beside it |
| `DaoCache.SharedHashBreaksRemoval` | chats/p2p/server/dao/dao-cache.c:275-292 | of two live clients with one nickname hash, removing the one that the look-up does not return leaves the cache inconsistent |
| `DaoCache.SharedHashRemovesOther` | chats/p2p/server/dao/dao-cache.c:313-334 | a removal by nickname that takes the other client and its row, and keeps the one that was named |
| `DaoCache.Cache.GetClientById` | chats/p2p/server/dao/dao-cache.c:140-153 | the live element with the id, NULL exactly when there is none |
| `DaoCache.Cache.GetClientByNickname` | chats/p2p/server/dao/dao-cache.c:155-171 | a live element whose nickname has the same hash, NULL exactly when there is none; the owner of the nickname whenever nobody else has its hash |
| `DaoCache.Cache.GetClientByAddr` | chats/p2p/server/dao/dao-cache.c:120-138 | a live element whose address has the same hash, NULL exactly when there is none; the owner of the address whenever nobody else has its hash |
| `DaoCache.Cache.NextClient` | chats/p2p/server/dao/dao-cache.c:173-222 | from the stored handle, the live element with the next key in that index, NULL exactly behind the last |
| `DaoCache.Cache.Load` | chats/p2p/server/dao/dao-cache.c:74-91 | after loading, everything is consistent, and in step with the database exactly when every row was listed; hash values are distinct exactly when those of the listed clients are |
| `DaoCache.Cache.AddThenFind` | chats/p2p/server/dao/dao-cache.c:240-244 | a client with a free nickname hash is found under the given nickname exactly when that has the hash of its first 15 characters, always when it has no more |
| `DaoCache.Cache.AddThenFindAddr` | chats/p2p/server/dao/dao-cache.c:240-244 | a client with a free address hash is found under the given host and port exactly when they hash like what is kept of them, always when they fit |
| `DaoCache.LongNicknameIsNotFound` | chats/p2p/server/dao/dao-cache.c:240-244 | a nickname of sixteen characters and a hash function with which it is not found |
| `ThreadPool.StepKeepsFifo` | thread-pool/thread-pool.c:28-50 | every step keeps: the taken jobs followed by the queue are the accepted jobs |
| `ThreadPool.StepKeepsAccounted` | thread-pool/thread-pool.c:52-75 | every step keeps: each job taken has finished or is running, with multiplicity |
| `ThreadPool.StepKeepsWakeups` | thread-pool/thread-pool.c:49-67 | every step keeps: a parked worker means an empty open pool; a waiting stopper means jobs queued and no worker gone |
| `ThreadPool.RunKeepsInv` | thread-pool/thread-pool.c:28-140 | the three together over every interleaving |
| `ThreadPool.AcceptedIsPosted` | thread-pool/thread-pool.c:133-140 | over every run, the accepted jobs are those that were posted before the first stop, in order, none left out |
| `ThreadPool.CallersMayCall` | thread-pool/thread-pool.c:102-140 | until the pool is stopped, posting and stopping are always possible |
| `ThreadPool.WaitIsAsked` | thread-pool/thread-pool.c:102-111 | the pool drains exactly when a draining stop was asked for |
| `ThreadPool.TakenInOrder` | thread-pool/thread-pool.c:28-50 | in every reachable state jobs have been taken in posting order, none twice, none skipped, and the rest of the posted ones is queued |
| `ThreadPool.DrainingStopRunsEverything` | thread-pool/thread-pool.c:102-131 | when a draining stop has joined all workers, every job posted before it was taken once, in order, and ran to its end |
| `ThreadPool.PlainStopTakesNothing` | thread-pool/thread-pool.c:64 | after a stop that does not drain no run takes another job |
| `ThreadPool.PlainStopFinishesTaken` | thread-pool/thread-pool.c:102-131 | when any stop has joined, the jobs taken are a prefix of those posted and all have finished |
| `ThreadPool.NoDeadlock` | thread-pool/thread-pool.c:61-67 | with at least one worker, some thread can go on while jobs are queued or a stop is under way |
| `ThreadPool.StepComesNearer` | thread-pool/thread-pool.c:102-121 | after a stop every step but a post lowers a measure, and a post changes nothing |
| `ThreadPool.StopTerminates` | thread-pool/thread-pool.c:102-121 | so a stop ends after a bounded number of steps, and can only come to rest when it is done |
| `ThreadPool.WorkerWakeupKeepsInv` | thread-pool/thread-pool.c:61-62 | a parked worker that wakes by itself disturbs nothing |
| `ThreadPool.DrainingStopWithWokenWorkers` | thread-pool/thread-pool.c:61-62 | over every run with spurious wakeups of workers, a draining stop that has ended has run every job posted before it |
| `ThreadPool.DrainedIffEmptyWhenGoingOn` | thread-pool/thread-pool.c:110-113 | over every run with spurious wakeups of any kind, a stop that has ended has run all jobs posted before it if and only if the queue was empty when the stopper went on |
| `ThreadPool.SpuriousWakeupLosesJob` | thread-pool/thread-pool.c:110-111 | a run with one spurious wakeup in which a draining stop ends with a job never taken |
| `ThreadPool.Pool.PostJob` | thread-pool/thread-pool.c:133-140 | the method does the post step |
| `ThreadPool.Pool.WorkerTurn` | thread-pool/thread-pool.c:59-73 | one stretch of a worker under the mutex does the turn step |
| `ThreadPool.Pool.GetAndPopJob` | thread-pool/thread-pool.c:37-50 | the first job leaves the queue and the stopper is woken when it was the last |
| `ThreadPool.Pool.StopBegin` | thread-pool/thread-pool.c:105-116 | the stopper up to its wait, or to the joins, does the stop step |
| `ThreadPool.Pool.StopResume` | thread-pool/thread-pool.c:111-116 | the stopper after its wait does the resume step |
| `JobTable.WithEntrySees` | io-service/io-service.c:134-147 | finding or adding the entry changes no slot and keeps one entry per descriptor |
| `JobTable.PutSees` | io-service/io-service.c:149-153 | filling or clearing one slot changes that slot and no other, and keeps event bits equal to filled slots |
| `JobTable.TakenSees` | io-service/io-service.c:234-242 | a one-shot job leaves its slot and nothing else changes, whether or not the entry goes too |
| `JobTable.SweptTableSees` | io-service/io-service.c:199-211 | the sweep drops exactly the entries without events and changes no slot |
| `JobTable.SweptKernelCovers` | io-service/io-service.c:199-211 | after the sweep the kernel watches exactly the events of each entry that stays |
| `IoService.PostAccepted` | io-service/io-service.c:124-160 | when a post is accepted; it then fills exactly its slot, and notifies a running loop; otherwise nothing changes |
| `IoService.RemovedIffSame` | io-service/io-service.c:254-276 | a removal empties its slot exactly when function and context are the job's, and notifies a running loop; otherwise no slot changes |
| `IoService.StopLeavesJobs` | io-service/io-service.c:106-112 | a stop changes the flags and notifies, and leaves table, kernel and history as they were |
| `IoService.FirstStartIsExact` | io-service/io-service.c:175-184 | when the loop first starts, the kernel watches exactly the filled slots, and nothing else has changed |
| `IoService.SweepLeavesJobs` | io-service/io-service.c:193-214 | a sweep uses up one notification, changes no slot, leaves the kernel exact, and the loop exits after it exactly when it was not running or there is nothing left to wait for |
| `IoService.PollErrorIsIdle` | io-service/io-service.c:189 | an interrupted wait changes nothing, and the loop is back at its test |
| `IoService.EventIsServed` | io-service/io-service.c:216-247 | a reported event selects the job that waits for it, one-shot or not; a write behind a read with a job comes after it; only a one-shot job leaves its slot |
| `IoService.EventIsIdle` | io-service/io-service.c:216-249 | an event for which there is no job changes nothing, and the loop is back at its test |
| `IoService.ReturnIsServed` | io-service/io-service.c:216-247 | after a job the rest of the event selects its job in the same way |
| `IoService.ReturnIsIdle` | io-service/io-service.c:246-249 | when the rest of the event has no job, nothing changes and the loop is back at its test |
| `IoService.CallersMayCall` | io-service/io-service.c:106-276 | posting, removing and stopping are possible in every state, starting exactly when there is no loop |
| `IoService.WaitingJobCanRun` | io-service/io-service.c:149-247 | over every run, when the loop waits, a job in the table can be reported and is then run, or a notification is pending that has the kernel watch for it |
| `IoService.StepKeepsInv` | io-service/io-service.c:106-276 | every step keeps the table well formed, registrations not lost, flags and history consistent |
| `IoService.NoLostRegistration` | io-service/io-service.c:149-156 | in every reachable state of the loop a filled slot is watched by the kernel or a notification is pending |
| `IoService.TableStaysWellFormed` | io-service/io-service.c:124-276 | in every reachable state there is one entry per descriptor and an event bit exactly for each filled slot |
| `IoService.OneShotAtMostOnce` | io-service/io-service.c:234-245 | an accepted one-shot post is selected at most once, and is in the table exactly while it is neither dispatched nor removed |
| `IoService.NothingAfterRemoval` | io-service/io-service.c:262-272 | a post that has left the table, by removal or dispatch, is never selected again |
| `IoService.RefusingOnlyDrains` | io-service/io-service.c:106-112 | once new jobs are refused no step fills a slot |
| `IoService.GracefulStopDrains` | io-service/io-service.c:184-214 | after a waiting stop slots only empty, and if the loop exits every accepted job was dispatched or removed |
| `IoService.SurplusIffOtherJob` | io-service/io-service.c:234-242 | a one-shot selection leaves the kernel watching its empty slot exactly when the descriptor has another job and the operation was watched before |
| `IoService.SurplusEndsAtSweep` | io-service/io-service.c:199-211 | over every run, after a sweep the kernel watches exactly the filled slots |
| `IoService.KernelMayWatchMore` | io-service/io-service.c:234-242 | a run after which the kernel watches an operation whose slot is empty |
| `IoService.StillInPlace` | io-service/io-service.c:149-156 | an accepted post that has not been dispatched or removed is in the slot where it was put |
| `IoServiceStop.HungForGood` | io-service/io-service.c:184-197 | with an empty table, new jobs refused and no notification pending, only another stop can end the loop |
| `IoServiceStop.HangsIff` | io-service/io-service.c:193-214 | for every state of a draining loop: it can hang if and only if, the reported event worked off, a slot is filled or too few notifications are pending to empty the table and to see it empty |
| `IoServiceStop.GracefulStopHangsIff` | io-service/io-service.c:106-112 | over every run up to a waiting stop: it can leave the loop hung if and only if, the reported event worked off, the table is not empty and has a job or no earlier notification is pending |
| `IoServiceStop.LastDispatchIsSafe` | io-service/io-service.c:216-247 | a filled slot does not always mean that the loop can hang: not when its one-shot job is the only one and about to be dispatched from the event in hand |
| `IoServiceStop.TwoSweepsSuffice` | io-service/io-service.c:193-214 | from a state that cannot hang a notification stays pending and the second at the latest ends the loop |
| `IoServiceStop.GracefulStopMayHang` | io-service/io-service.c:196-197 | a run of a waiting stop that ends hung |
| `IoServiceStop.RunningIsLastStop` | io-service/io-service.c:106-112 | until the loop looks, `running` is what the last stop made it, and no notification is used up |
| `IoServiceStop.HardStopEndsLoopIff` | io-service/io-service.c:106-112 | a non-waiting stop ends a running loop at its next test if and only if no waiting stop came in between, or the test is on a notification with an empty table; until then a notification is pending |
| `IoServiceStop.HardStopRevived` | io-service/io-service.c:106-112 | a run in which a waiting stop overtakes a non-waiting one and the loop goes on |
| `IoServiceStop.EarlyStopAlwaysWaits` | io-service/io-service.c:175-184 | a stop before the loop starts acts as a waiting one, whichever it was |
| `IoServiceObject.Service.Lookup` | io-service/io-service.c:134-137 | the search loop ends at the first entry with the descriptor |
| `IoServiceObject.Service.PostJob` | io-service/io-service.c:124-160 | the method does the post step |
| `IoServiceObject.Service.RemoveJob` | io-service/io-service.c:254-276 | the loop does the remove step |
| `IoServiceObject.Service.Stop` | io-service/io-service.c:106-112 | the method does the stop step |
| `IoServiceObject.Service.RunStart` | io-service/io-service.c:175-184 | the registration loop does the start step |
| `IoServiceObject.Service.RunNotified` | io-service/io-service.c:193-214 | the exit test and the sweep loop, with removal while iterating, do the notified step |
| `IoServiceObject.Service.RunEvent` | io-service/io-service.c:216-247 | the loop over operations up to the first job does the event step |
| `IoServiceObject.Service.RunReturn` | io-service/io-service.c:246-249 | the rest of that loop after a job does the return step |
| `BitDivision.DivideIsLinear` | chats/p2p/crc/crc16-ccitt.c:40-47 | division is linear over xor in the register and the message together |
| `BitDivision.BurstChangesRemainder` | chats/p2p/crc/crc16-ccitt.c:40-47 | strings that differ only inside 16 consecutive bits have different remainders |
| `Crc16.EntryIsShifts` | chats/p2p/crc/crc16-ccitt.c:5-38 | each of the 256 entries is eight shifts by 0x1021 of its index |
| `Crc16.EntryIsRemainder` | chats/p2p/crc/crc16-ccitt.c:5-38 | each entry is the remainder of its index by the generator |
| `Crc16.ByteStepDivides` | chats/p2p/crc/crc16-ccitt.c:44 | one table step is the division of eight bits |
| `Crc16.TableIsDivision` | chats/p2p/crc/crc16-ccitt.c:40-47 | table-driven CRC from any register is bit-by-bit division |
| `Crc16.ComputeCrc` | chats/p2p/crc/crc16-ccitt.c:40-47 | the loop computes the remainder of the whole message from 0xFFFF |
| `Crc16.BurstIsDetected` | chats/p2p/crc/crc16-ccitt.c:40-47 | messages of equal length, any length, that differ only inside 16 consecutive bits have different CRCs |
| `Crc16.CrcIsAffine` | chats/p2p/crc/crc16-ccitt.c:40-47 | the CRC of an xor of three equal-length messages is the xor of their CRCs |
| `Crc16.CrcOfMessageWithCrc` | chats/p2p/crc/crc16-ccitt.c:40-47 | a message followed by its CRC, high byte first, has CRC zero |
| `Crc16.CheckValue` | chats/p2p/crc/crc16-ccitt.h:8-14 | the CRC of the digits 1 to 9 is 0x29B1, as stated there |
| `Protocol.ValidateHeader` | chats/p2p/protocol/protocol.c:14-70 | the loop and the early returns give the verdict: signature, command, CRC, length, in this order |
| `Protocol.PacketIsAccepted` | chats/p2p/protocol/protocol.c:14-70 | a well-formed packet is accepted whatever follows it, and skipping lands right behind it |
| `Protocol.LengthRoundTrip` | chats/p2p/README:72-73 | the length field reads back as it was written, in either byte order |
| `Protocol.StreamParses` | chats/p2p/protocol/protocol.c:14-101 | packets laid end to end are all accepted, every boundary is met, every command, body and CRC comes back |
| `Protocol.AcceptedIsPacket` | chats/p2p/protocol/protocol.c:14-70 | what an accepted header announces is a well-formed packet whose bytes are those that were read |
| `Protocol.ParsesIffStream` | chats/p2p/protocol/protocol.c:14-101 | the byte strings that are accepted from end to end are exactly the streams of well-formed packets, each parsed to its packets |
| `Protocol.OrderOfBytes` | chats/p2p/protocol/protocol.h:30-32 | which byte of a 16-bit field comes first, on a machine of either order |
| `Protocol.AllowedIffBody` | chats/p2p/protocol/protocol.h:36-85 | the lengths that the validation allows for a command are exactly the lengths of the structures of its bodies |
| `Protocol.BodyIsAccepted` | chats/p2p/protocol/protocol.c:32-67 | a packet around any such body is accepted |
| `Protocol.HeaderVerdict` | chats/p2p/protocol/protocol.c:23-69 | a header with its own CRC is refused for its command, else for its length, else accepted |
| `Protocol.BadSignature` | chats/p2p/protocol/protocol.c:20-21 | a header with a wrong signature byte is refused for its signature, whatever the rest is |
| `Protocol.BadCommand` | chats/p2p/protocol/protocol.c:23 | a packet whose command is made an unknown one is refused for the command, before the CRC |
| `Protocol.BadCrc` | chats/p2p/protocol/protocol.c:25-30 | a header with a wrong CRC is refused for the CRC, before the length |
| `Protocol.BadLength` | chats/p2p/protocol/protocol.c:32-67 | a header with its own CRC and a length that no body of its command has is refused for the length |
| `Protocol.CorruptedHeaderIsRejected` | chats/p2p/protocol/protocol.c:20-30 | a valid header whose eight covered bytes are changed inside 16 consecutive bits is rejected, for its CRC when signature and command are kept |
| `Protocol.DocumentedPacketPasses` | chats/p2p/protocol/protocol.c:83-88 | a packet with the CRC of its body passes exactly when that CRC equals the CRC of its header |
| `Protocol.DocumentedPacketRefused` | chats/p2p/protocol/protocol.c:83-88 | a documented packet that is refused |
| `Protocol.RefusedIsReported` | chats/p2p/protocol/protocol.c:80-81 | a refused header reaches no handler, and exactly then the reason is reported |
| `Protocol.HandlerDecides` | chats/p2p/protocol/protocol.c:83-96 | a packet that gets through is given to the handler of its command, whose answer is the outcome; without a handler that is reported |
| `Transfer.RanKeepsInv` | network/network.c:81-137 | every round keeps: bytes moved are the buffer up to `bytes_operated`; reported and freed at most once |
| `Transfer.SocketMayDo` | network/network.c:93-100 | the schedules range over every partial transfer, would-block result and error |
| `Transfer.MovesExactlyThePrefix` | network/network.c:93-119 | over every schedule, what passed the socket is exactly the buffer prefix, in order, no byte skipped or repeated |
| `Transfer.LeavesTheRestAlone` | network/network.c:94-96 | the buffer behind the prefix is untouched, and a sent buffer is never written |
| `Transfer.CompletesExactlyOnce` | network/network.c:100-136 | with every post accepted, completion and release happen exactly once when the schedule ends with the last byte or a hard error, and not before |
| `Transfer.LostIffPostRefused` | network/network.c:100-126 | over every schedule: a request is lost, neither reported nor freed, exactly when its first post or the post of a round that did not end it was refused, which is then the last |
| `TransferPosts.AcceptedIffFree` | io-service/io-service.c:130-156 | a transfer's post is accepted exactly when the service is open and its slot empty, and has the slot then |
| `TransferPosts.LostIffSlotTaken` | network/network.c:322-327 | the same with the service's own test in place of its answer: lost exactly when the service was closed or the slot taken at such a post |
| `TransferPosts.SecondTransferIsLost` | network/network.c:322-327 | of two transfers on one descriptor and direction, the second is lost as long as the first waits, whatever happened in between |
| `TransferPosts.ForeignStep` | io-service/io-service.c:106-276 | a step of the service that is no stop, and neither posts to the slot nor removes from it, changes it only by selecting its job |
| `TransferPosts.StaysFree` | io-service/io-service.c:106-276 | over every run of such steps a free slot stays free |
| `TransferPosts.LoneTransferIsServed` | network/network.c:81-137 | over every joint run of service and transfer by such steps, every post of the transfer is accepted |
| `TransferPosts.LoneTransferIsNotLost` | network/network.c:81-137 | so it is never lost: still waiting, or completed and freed once, with the bytes moved up to where it is |
| `Transfer.EndOfStreamNeverCompletes` | network/network.c:117-126 | rounds that move nothing repost for ever |
| `Transfer.Srb.constructor` | network/network.c:293-328 | a new request starts at byte zero |
| `Transfer.Srb.Run` | network/network.c:140-189 | the callback, with its vector, does one round, for UDP sends as for TCP |

## Left out

- `list_add_after` and `list_add_before`: common/list.c:134 and :162 compare a data pointer with a header pointer, so the ends go stale; nothing else that is modelled calls them.
- `pearson_hash` and `pearson_hash_update`: the cache takes both hash functions as parameters and assumes nothing about them.
- AvlApi.Tree.Add: asks that the tree is smaller than 2^64 nodes, which the address space sees to; beyond that the height could leave its byte.
- AvlApi.Tree.Remove: asks the same.
- DaoCache.Cache.RemoveByKey: asks that a live client has the key; the code dereferences NULL otherwise. The removals by id, nickname and address ask the same. After a removal that leaves the cache inconsistent nothing more is promised.
- DaoCache.Cache.GetClientByNickname: a live client with another nickname of the same hash may be returned, as the code compares hashes only.
- DaoCache.Cache.GetClientByAddr: the same for addresses.
- DaoCache.Cache.Enter: the handle fields of all elements are kept in one map per field, and client records are values, so an element's copy of its client does not alias the list entry.
- Protocol.ValidateHeader: takes the bytes as a sequence; alignment and the padding of the C structs are not modelled.
- Transfer.Srb.Run: one model for `tcp_send_recv_async_tpl` and `udp_send_async_tpl`, which differ in the endpoint that is reported; endpoints, `errno` after success and the `ioctl` count are not modelled.
- Synchronous transfers and UDP receive (network/network.c:191-290, :330-380, :416-514).
- I/O service: more than one thread in `io_service_run`, descriptors closed behind the table, failures of `epoll_ctl` other than EEXIST and ENOENT; an event with only EPOLLERR or EPOLLHUP is an event with no operation.
- Thread pool: failure to start a thread or to allocate a queue element; the queue is the sequence that common/list.c is proved to keep.
- Cache mutex: one call at a time, as the code has it; `dao_cache_init` failures and `dao_cache_deinit`.
- SQL text and SQLite in chats/p2p/server/dao/dao.c: an abstract table with fresh ids and unique nicknames instead. The statements at chats/p2p/server/dao/dao.c:15-18 pad the values to a width (`'%15s'` and the like), so the real row is not byte for byte the client record that `Agrees` equates it with.
- Memory: a freed node or element is one that is not used again; nothing says when memory is returned.
- common/queue.c, common/stack.c, common/memory.c, timer, coroutine, client and server plumbing, endpoints: wrappers, or calls into the system.
