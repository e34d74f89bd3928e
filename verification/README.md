# Elliptics in Dafny

Elliptics is a distributed key/value store. This project models the parts of it that keep
invariants of their own, and proves those invariants for every input, every run or every
reachable state. `dafny verify dfyconfig.toml` checks all files together.

- **Red-black tree** (`RbShape`, `RbRebalance`, `RbMemory`, `RbTree`, `KeyIndex`). Nodes live in a
  store of records whose parent address and colour share one word. `RbShape` and `RbRebalance` are
  about trees opened at a position, `RbMemory` ties them to memory, `RbTree` is the code, and
  `KeyIndex` is its use as a finite map by transactions and lock entries. Searches go left when the
  stored key is smaller, so a walk meets keys in decreasing order.
- **Operation locks** (`OpLock`, `LockPool`). `OpLock` is a step system of threads locking and
  unlocking keys through a pool of recycled entries; `LockPool` is the code of its critical sections
  over the red-black tree.
- **Write-back cache** (`CacheState`, `CacheKey`, `Cache`, `CacheRun`). Cache and backend together stand
  for a plain store: backend bytes followed by cached bytes for append-only entries, cached bytes for
  other entries, backend bytes otherwise. `CacheKey` is one key of it, with a background write that may be
  on its way; `CacheRun` compares whole runs with the plain store.
- **Replies and transactions** (`Scheduler`, `TransLife`, `IoSystem`). The worker pool guarantees one
  thread per transaction, the life of a transaction needs that guarantee, and `IoSystem` puts both
  together: every run of the whole projects to runs of the parts.
- **Wire framing** (`Wire`, `WireIo`). How many bytes a socket call moves is an input.
- **Routing ring** (`Ring`, `RouteTable`), **recovery difference** (`RecoveryDiff`), **secondary
  indexes** (`IndexTables`, `IndexShards`, `IndexStore`, `IndexFind`) and **chunked writes**
  (`ChunkedWrite`).

Assumptions, each of them used where it is named:

- Cache: client operations on one key are serialised by its operation lock, so each is one step here;
  backend calls succeed; a backend write at an offset truncates to offset plus size, as the cache itself
  does (cache/cache.cpp:416, cache/cache.cpp:436). The background thread is cut wherever it lets go of a
  lock; what clients do in between is stated below.
- Locks: only holders unlock. A thread of `OpLock` is one lock request: a server thread that holds several
  locks counts once for each, and so does the lock of an index update, which outlives its command
  (indexes/indexes.cpp:70-74). That the pool is not exhausted is not assumed: `OpLock.PoolSuffices` and
  `OpLock.PoolExhausted` say when it can be.
- Scheduler: only the last reply of a transaction lacks MORE. `Scheduler.TwoLastReplies` shows why.
- Transactions: queueing a request succeeds, transaction ids are not reused, and a state is cleaned
  (library/net.c:246-272) only while no thread is in the middle of a reply. On exit the work pools are
  stopped before the states are cleaned (library/pool.c:832-847); otherwise a state is cleaned when its
  last reference goes (library/net.c:1154-1163), and a request being processed holds one
  (library/pool.c:327). `TransLife.CleanDuringReply` shows why it has to be so.
- Routing: allocations succeed and a state does not join twice without leaving.
- Indexes: the second half of a hashed index id is injective in the index, packed tables are decoded to
  what was encoded, sub-updates succeed, and those of a set request take effect in the order in which
  they are sent.
- Chunked writes: the session reports positive replies only, its default (bindings/cpp/session.cpp:368);
  the handler takes every reported reply for an acknowledgement (bindings/cpp/session.cpp:925-929).

Where code and comments disagree the model follows the code:

- The comment on the container difference speaks of timestamps only (library/dnet_common.c:2403-2410);
  at equal timestamps the code also counts a larger right record as newer.
- `take_request` can continue a claim of the calling thread (library/pool.c:669-680), but a worker drops
  its claim before every round (library/pool.c:727), so within the pool that branch is not taken.

Some properties fail as coded. For each of them the condition under which it holds is proved both ways,
and a run or an input on which it fails is given:

- The lifetime set is exact after a cache write if and only if the write does not leave out the lifetime
  of an entry that has one (cache/cache.cpp:448-454; `Cache.Cache.Write`, `CacheState.LifeAfter`,
  `CacheRun.LifetimeLost`).
- The background thread appends the bytes of an append-only entry without the key's lock
  (cache/cache.cpp:816-818), and copies any other due entry before it takes that lock
  (cache/cache.cpp:824-833). For a client operation in between, `CacheKey.PendingStep` gives the exact
  conditions under which the key ends with the value of the plain store, no clean entry contradicts the
  backend, and the client gets the answer of the plain store. With its
  whole value cached, every write and read of the key is right. Otherwise an append that the cache handles
  is right; another write that it handles gives the right value if and only if what is on its way does not
  show below its offset; a write that goes to the backend, if and only if the two writes commute; the
  answer to a read is right if and only if what is on its way adds nothing to what the read sees. A
  removal is undone in every case. Runs: `CacheRun.LostAppend`, `CacheRun.OverwriteSpoilt`,
  `CacheRun.AppendsSwapped`, `CacheRun.RemovedReturns`, `CacheRun.CopyReturns`.
- An expired key marked remove-from-disk is listed first and removed later, without its lock
  (cache/cache.cpp:785-795, cache/cache.cpp:849-851). The cache stays valid if and only if the key has no
  clean entry by then, and its value stays if and only if the backend did not contribute to it
  (`Cache.Cache.RemoveLocal`, `CacheRun.LostRewrite`, `CacheRun.RemovedUnderEntry`).
- After a set request with a repeated tag the object's list has a duplicate; lists and tables agree if and
  only if no tag has two data (`IndexStore.Store.SetIndexes`, run `IndexStore.RepeatedTag`). After an
  update-only request the list keeps the smallest data of a tag and the table the last to arrive; they
  agree if and only if these are equal, and in every order of arrival if and only if no tag has two data
  (`IndexStore.Store.UpdateIndexes`, `IndexStore.EveryOrder`, run `IndexStore.ConflictingUpdate`).
- The shard computation stays within `int` for every id if and only if there are at most 2^23 shards
  (library/dnet_common.c:102-113; `IndexShards.FewShardsFit`, `IndexShards.ManyShardsOverflow`).
- The container difference compares before it tests the left offset, and reads behind the left container
  if and only if the right side has a key beyond all of the left side's (library/dnet_common.c:2447-2456;
  `RecoveryDiff.Diff`, run `RecoveryDiff.ReadBehind`). The result does not depend on what it reads there.

## Model

| member | source | states |
|---|---|---|
| `RbShape.PlugInOrder` | library/rbtree.c:20-282 | walking a tree opened at any position gives what is before the position, the subtree, and what is after it |
| `RbShape.RotLInOrder` | library/rbtree.c:20-41 | a left rotation does not change the in-order walk |
| `RbShape.RotRInOrder` | library/rbtree.c:43-64 | a right rotation does not change the in-order walk |
| `RbShape.PlugIsRb` | library/rbtree.c:66-215 | a red-black context around a fitting subtree is a red-black tree |
| `RbShape.RbSplit` | library/rbtree.c:66-215 | conversely, opening a red-black tree anywhere gives a red-black context and subtree of matching black height |
| `RbRebalance.RecolorStep` | library/rbtree.c:76-86 | red uncle: recolouring moves the only red-red edge two levels up |
| `RbRebalance.RotateRightStep` | library/rbtree.c:97-99 | outer left grandchild: recolouring and rotating right leaves no red-red edge |
| `RbRebalance.RotateLeftStep` | library/rbtree.c:122-124 | outer right grandchild: recolouring and rotating left leaves no red-red edge |
| `RbRebalance.OuterStepLeft` | library/rbtree.c:88-95 | inner grandchild under a left parent: one rotation reduces it to the outer case |
| `RbRebalance.OuterStepRight` | library/rbtree.c:113-120 | inner grandchild under a right parent: one rotation reduces it to the outer case |
| `RbRebalance.Blackened` | library/rbtree.c:128 | painting the root black turns a tree with at most a red root into a red-black tree |
| `RbRebalance.RedSiblingLeft` | library/rbtree.c:141-147 | red sibling, short side left: the rotation leaves the same shortage under a black sibling |
| `RbRebalance.RedSiblingRight` | library/rbtree.c:178-184 | red sibling, short side right: the rotation leaves the same shortage under a black sibling |
| `RbRebalance.ShortageUp` | library/rbtree.c:148-154 | black sibling with black children: painting it red moves the shortage one level up |
| `RbRebalance.InnerNephewLeft` | library/rbtree.c:157-165 | only the inner nephew is red, short side left: the rotation makes the outer one red |
| `RbRebalance.InnerNephewRight` | library/rbtree.c:194-202 | only the inner nephew is red, short side right: the rotation makes the outer one red |
| `RbRebalance.OuterNephewLeft` | library/rbtree.c:166-172 | red outer nephew, short side left: recolouring and rotating removes the shortage |
| `RbRebalance.OuterNephewRight` | library/rbtree.c:203-209 | red outer nephew, short side right: recolouring and rotating removes the shortage |
| `RbRebalance.AfterSplice` | library/rbtree.c:264-281 | taking out a node with at most one child leaves a red-black tree, or one that is one black node short at that place when the node was black |
| `RbRebalance.AfterLink` | library/rbtree.h:153-160 | a red leaf at an empty position breaks at most the red-red rule, and only there |
| `RbMemory.PackedWord` | library/rbtree.h:113-127 | the packed word keeps parent and colour apart: reading back what was stored, and each setter leaves the other part alone |
| `RbMemory.Refocus` | library/rbtree.c:20-282 | memory that holds a tree opened at one position holds it opened at every other position |
| `RbMemory.RotatedLeft` | library/rbtree.c:20-41 | memory after the stores of a left rotation holds the rotated tree with consistent parent links |
| `RbMemory.RotatedRight` | library/rbtree.c:43-64 | memory after the stores of a right rotation holds the rotated tree with consistent parent links |
| `RbMemory.Spliced` | library/rbtree.c:264-277 | memory after a node was spliced out holds the tree with its only child in its place |
| `RbMemory.Replaced` | library/rbtree.c:245-260 | memory after the successor took over the words of the erased node holds the tree with the address exchanged |
| `RbMemory.Linked` | library/rbtree.h:153-160 | memory after linking holds the tree with a red leaf at the position |
| `RbTree.RbTree.constructor` | library/rbtree.h:133 | an empty tree over a store of standalone nodes is valid |
| `RbTree.RbTree.RotateLeftPointers` | library/rbtree.c:20-41 | the exact pointer stores of a left rotation; every other field of memory is unchanged |
| `RbTree.RbTree.RotateLeft` | library/rbtree.c:20-41 | the tree held at the position becomes its left rotation, the rest of the tree stays |
| `RbTree.RbTree.RotateRightPointers` | library/rbtree.c:43-64 | the exact pointer stores of a right rotation; every other field of memory is unchanged |
| `RbTree.RbTree.RotateRight` | library/rbtree.c:43-64 | the tree held at the position becomes its right rotation, the rest of the tree stays |
| `RbTree.RbTree.SetColor` | library/rbtree.h:117-127 | only the colour of one node of the tree changes |
| `RbTree.RbTree.InsertRecolor` | library/rbtree.c:76-86 | the red uncle case: the in-order walk is kept and the red-red edge is two levels higher |
| `RbTree.RbTree.InsertFixLeft` | library/rbtree.c:74-99 | one round with the parent on the left restores a red-black tree up to the root colour, or hands the problem up |
| `RbTree.RbTree.InsertFixRight` | library/rbtree.c:100-125 | one round with the parent on the right does the same |
| `RbTree.RbTree.InsertColor` | library/rbtree.c:66-129 | from any tree with one red leaf linked, the loop ends in a red-black tree with the same in-order walk, and memory outside the tree is unchanged |
| `RbTree.RbTree.EraseFixLeft` | library/rbtree.c:138-174 | one round with the short side on the left either finishes or moves the shortage up, in every case, keeping the in-order walk |
| `RbTree.RbTree.EraseFixRight` | library/rbtree.c:175-211 | one round with the short side on the right does the same |
| `RbTree.RbTree.EraseRound` | library/rbtree.c:136-212 | one round of the loop, with the measure that makes the loop end |
| `RbTree.RbTree.EraseColor` | library/rbtree.c:131-215 | from any tree that is one black node short at one place, the loop ends in a red-black tree with the same in-order walk |
| `RbTree.RbTree.Splice` | library/rbtree.c:264-277 | the stores that take out a node with at most one child |
| `RbTree.RbTree.DetachSuccessor` | library/rbtree.c:233-243 | the stores that take the successor out of its place |
| `RbTree.RbTree.TakePlace` | library/rbtree.c:245-260 | the stores that put the successor into the erased node's place |
| `RbTree.RbTree.Successor` | library/rbtree.c:230-232 | the leftmost node of the right subtree is the first of that subtree's in-order walk, hence the in-order successor |
| `RbTree.RbTree.EraseSingle` | library/rbtree.c:222-225 | erasing a node with at most one child |
| `RbTree.RbTree.EraseDouble` | library/rbtree.c:226-262 | erasing a node with two children through its successor |
| `RbTree.RbTree.Erase` | library/rbtree.c:217-282 | for any node of a valid tree: the tree is valid again, exactly that node is gone from the in-order walk, and memory outside the tree is unchanged |
| `RbTree.RbTree.LinkNode` | library/rbtree.h:153-160 | the new node is a red leaf at the given empty position |
| `RbTree.RbTree.LinkAndColor` | library/rbtree.c:66-129 | linking at any empty position and rebalancing gives a valid tree whose walk has the node inserted at that position and nothing else changed |
| `RbTree.LinkedWord` | library/rbtree.h:113-127 | the packed word of a linked node is never zero |
| `RbTree.SuccessorOrder` | library/rbtree.c:226-262 | putting the successor into the place of a node with two children takes exactly that node out of the in-order walk |
| `KeyIndex.HeightBound` | library/trans.c:38-57 | the height of a red-black tree of n nodes is at most 2 log2(n + 1) |
| `KeyIndex.KeyIndex.StandaloneWord` | library/locks.c:150-164 | the word tested before removal is zero exactly for nodes that are not in the tree |
| `KeyIndex.KeyIndex.SetKey` | library/locks.c:183 | a node outside the tree may be given another key; the map the tree stands for stays |
| `KeyIndex.KeyIndex.Search` | library/trans.c:38-57 | the search returns what a finite map would, in at most 2 log2(n + 1) steps |
| `KeyIndex.KeyIndex.FindPlace` | library/trans.c:65-77 | the descent ends at the node that has the key, or at the empty position where the key belongs |
| `KeyIndex.KeyIndex.Insert` | library/trans.c:59-87 | insertion succeeds exactly when the key is unbound and then binds it to the node; on failure nothing changes |
| `KeyIndex.KeyIndex.Remove` | library/trans.c:89-102 | removal unbinds exactly the node's key, does nothing to a standalone node, and leaves the node standalone |
| `OpLock.EnsurePartition` | library/locks.c:166-193 | getting an entry for a key keeps every entry in exactly one of free list and tree, and rebinds no bound key |
| `OpLock.TakePartition` | library/locks.c:195-220 | giving a reference back keeps every entry in exactly one of free list and tree |
| `OpLock.LastReference` | library/locks.c:208-214 | when the last reference goes, no other thread uses the entry, not even one about to clear `locked` |
| `OpLock.EnterKeeps` | library/locks.c:166-193 | the step of getting an entry keeps the whole invariant |
| `OpLock.TestKeeps` | library/locks.c:230-238 | one round of the wait loop keeps the whole invariant |
| `OpLock.WakeKeeps` | library/locks.c:232-234 | a wakeup without a signal keeps the whole invariant |
| `OpLock.DropKeeps` | library/locks.c:195-220 | giving the reference back keeps the whole invariant, including when the entry is recycled |
| `OpLock.ClearKeeps` | library/locks.c:249-255 | clearing `locked` and signalling one sleeper keeps the whole invariant; no wakeup is lost |
| `OpLock.StepKeeps` | library/locks.c:166-256 | every step of every thread keeps: free list and tree partition the pool, entries stay bound to their users' keys, counts equal waiters plus holder, one owner, `locked` exactly when owned, no lost wakeup |
| `OpLock.RunInv` | library/locks.c:166-256 | the invariant holds after every interleaving of steps of any number of threads |
| `OpLock.MutualExclusion` | library/locks.c:222-256 | after every interleaving, two threads holding the lock of one key are the same thread |
| `OpLock.UnboundOnlyUnused` | library/locks.c:208-214 | an entry loses its key only when its holder gives back the last reference and no other thread refers to it |
| `OpLock.WaiterMoves` | library/locks.c:222-256 | while a thread waits for an entry, some thread of that entry can take a step without being woken spuriously |
| `OpLock.EnterWaits` | library/locks.c:166-193 | a lock call that finds an entry leaves the thread waiting for the entry of its key, a new one unlocked and first of the free list, and touches no other thread or key |
| `OpLock.TestDecides` | library/locks.c:232-238 | a round of the wait loop sleeps exactly when the entry is locked, and otherwise takes the lock |
| `OpLock.WakeTestsAgain` | library/locks.c:232-234 | a wakeup without a signal makes the thread test again and changes nothing else |
| `OpLock.DropReleases` | library/locks.c:240-249 | the unlock of a key with other users goes on to clear the entry |
| `OpLock.DropUnbinds` | library/locks.c:208-214 | the unlock of a key that nobody else uses unbinds the entry and puts it at the end of the free list |
| `OpLock.ClearReleases` | library/locks.c:249-255 | after an unlock the thread is idle, the entry unlocked and the signalled sleeper awake; nobody and nothing else is touched |
| `OpLock.Progress` | library/locks.c:222-256 | from every state, every waiter obtains its key on some run without new lock calls and without spurious wakeups |
| `OpLock.LockSucceeds` | library/locks.c:222-238 | at any point of any run, a lock call that finds an entry can end with the thread holding its key |
| `OpLock.PoolSuffices` | library/locks.c:176-188 | on every run, a lock call finds an entry while fewer requests are in progress than there are entries |
| `OpLock.PoolExhausted` | library/locks.c:186-188 | with fewer entries than threads, some run reaches it |
| `LockPool.LockPool.constructor` | library/locks.c:47-100 | a new pool has all entries on the free list, in order |
| `LockPool.LockPool.Ensure` | library/locks.c:166-193 | the code over the red-black tree does what the atomic step does; it fails exactly when the key is unbound and no entry is free, and else binds the key to the entry it returns |
| `LockPool.LockPool.Take` | library/locks.c:195-220 | the code over the red-black tree does what the atomic step does |
| `LockPool.LockPool.Test` | library/locks.c:230-238 | the test under the entry's mutex is the step of the wait loop |
| `LockPool.LockPool.Clear` | library/locks.c:249-255 | the stores under the entry's mutex are the releasing step |
| `Scheduler.WorkPool.TakeRequest` | library/pool.c:651-701 | returns the first request the thread may take, or none, and the claims it leaves |
| `Scheduler.WorkPool.Fetch` | library/pool.c:725-739 | one locked round of a worker drops its claim and takes exactly one request off the list: the first that is a command or a reply no other thread claims; the rest keeps its order; it takes nothing exactly when every queued item is a reply that another thread claims |
| `Scheduler.TakenInOrder` | library/pool.c:658-698 | taking such a request keeps each transaction's replies in order |
| `Scheduler.NobodyElse` | library/pool.c:669-696 | no other thread processes a reply of the transaction whose reply is taken |
| `Scheduler.StepKeeps` | library/pool.c:651-756 | arrival, a worker's round and the end of processing keep: claims are exactly the transactions of replies with MORE being processed, order, and one thread per transaction |
| `Scheduler.RunInv` | library/pool.c:651-756 | this holds after every interleaving of any number of workers |
| `Scheduler.OneThreadPerTransaction` | library/pool.c:651-756 | on every run, two threads processing replies of one transaction are the same thread |
| `Scheduler.TakenInArrivalOrder` | library/pool.c:651-756 | on every run, the replies of a transaction taken so far are the first that arrived, in that order |
| `Scheduler.IdleOnlyIfClaimed` | library/pool.c:725-734 | a worker finds nothing exactly when every queued item is a reply whose transaction another, not waiting, thread has claimed |
| `Scheduler.RoundTakes` | library/pool.c:725-745 | a round moves one request from the queue to the thread, or leaves it waiting |
| `Scheduler.FinishEnds` | library/pool.c:745-756 | the end of processing lets the thread look for work again and changes nothing else |
| `Scheduler.TakenConserved` | library/pool.c:736 | taking a request keeps all requests, and the commands in order |
| `Scheduler.NothingLost` | library/pool.c:651-756 | on every run exactly what has arrived is queued or was taken, each request once; the queue is in the order of arrival, and commands are taken in that order |
| `Scheduler.TwoLastReplies` | library/pool.c:688-695 | what the rule that only the last reply lacks MORE is for: in every state of the pool, if a reply arrives while a thread processes the last one, a second thread starts on the transaction exactly when nothing else waits for it and no other thread holds the claim |
| `TransLife.StepKeeps` | library/net.c:499-526 | every step of sender, reply, timeout, cleaning and destruction keeps: the count equals the references held, one owner of the first reference, list membership only in the tree and outside replies, the final callback last |
| `TransLife.NoTouchAfterZero` | library/net.c:687-732 | no step other than the destruction touches a transaction whose count is zero |
| `TransLife.DyingIsHidden` | library/trans.c:147-158 | a transaction being destroyed is in neither tree nor list and no actor is left with it |
| `TransLife.CallbacksApart` | library/trans.c:325-333 | reply, timeout and final callbacks of one transaction never run at once |
| `TransLife.UntouchedAfterZero` | library/trans.c:135-200 | on every run, after the count has reached zero only the final callback and the freeing follow, once each |
| `TransLife.FinalIsLast` | library/trans.c:160-163 | on every run, once the final callback has started no callback starts again |
| `TransLife.CallbackOrder` | library/trans.c:287-333 | the callbacks of every run are replies, then at most one timeout, then at most one final callback |
| `TransLife.EventSteps` | library/net.c:715-716 | a callback is logged by exactly the step that starts it: reply, timeout or final |
| `TransLife.CallbacksRun` | library/net.c:687-716 | on every run each reply that found the transaction has started its callback, once, or is about to; so has each timeout; the final callback is counted exactly |
| `TransLife.MoreIsAwaited` | library/net.c:723-730 | a finished reply with MORE leaves the transaction in the tree and on the timeout list |
| `TransLife.TreeSteps` | library/trans.c:59-102 | a transaction enters the tree with its sender and leaves it with its last reply, its timeout or its state, and not otherwise |
| `TransLife.StepShrinks` | library/trans.c:135-200 | every step of an actor under way brings it closer to its end |
| `TransLife.OnlyWaits` | library/trans.c:305-347 | when no actor is under way the transaction is freed, or waits for a reply or its timeout |
| `TransLife.CanFinish` | library/trans.c:287-347 | from every state some run frees the transaction, with a timeout if no reply comes |
| `TransLife.EveryEndFreed` | library/trans.c:135-200 | a run that cannot go on has freed the transaction, after exactly one final callback at the very end |
| `TransLife.NoLeak` | library/trans.c:287-303 | when nobody can find or use a transaction any more, its destruction has begun |
| `TransLife.CleanDuringReply` | library/net.c:246-272 | why cleaning a state has to wait: from every state with a reply with MORE in progress, cleaning at once opens a run on which the thread touches a transaction whose count is zero |
| `IoSystem.ReadyView` | library/net.c:687-705 | a thread finding the transaction of its reply is one step of that transaction's life, and no other thread is in the middle of one |
| `IoSystem.BusyView` | library/net.c:715-730 | every further step of the thread is a step of that transaction's life |
| `IoSystem.ActView` | library/trans.c:287-347 | a step of another actor is a step of that transaction's life |
| `IoSystem.StepKeeps` | library/net.c:672-732 | every step of the pool and the transactions together keeps both invariants |
| `IoSystem.RunInv` | library/net.c:672-732 | both invariants hold after every run of the whole |
| `IoSystem.StepFollows` | library/net.c:672-732 | every step of the whole is, for each transaction, one step of its life or none |
| `IoSystem.Projects` | library/net.c:672-732 | every run of the whole projects, for each transaction, to a run of its life that ends in its state |
| `IoSystem.FinalForGood` | library/trans.c:160-163 | on every run of the whole, once the final callback of a transaction has started its callbacks are over |
| `IoSystem.HandleShrinks` | library/net.c:679-732 | every step of a thread brings it closer to the end of its request, and no other thread moves |
| `IoSystem.RepliesReachCallback` | library/net.c:687-716 | on every run of the whole each reply that a thread took has started its callback exactly once, or is about to look for its transaction or to start the callback, or did not find the transaction |
| `IoSystem.CallbackDiscipline` | library/trans.c:325-333 | on every run of the whole: replies, then at most one timeout, then at most one final callback, never two at once; a dying transaction cannot be found |
| `IoSystem.NoUseAfterFree` | library/net.c:715-730 | on every run, whoever is about to act on a transaction acts on one that is still referenced |
| `Wire.SizeField` | include/elliptics/packet.h:154-163 | the payload size is the last eight bytes of the header, the least significant first |
| `Wire.SameFirst` | library/pool.c:274-315 | two streams of well-formed messages that agree so far start with the same message |
| `Wire.Deciphered` | library/pool.c:236-337 | messages recovered from a prefix of a stream are the first ones sent, and all of them when nothing is left over |
| `WireIo.Sender.Queue` | library/net.c:280-327 | a queued request goes to the end of what is to be sent |
| `WireIo.Sender.SendNolock` | library/net.c:391-420 | however the socket splits it, a prefix of the buffer goes out and the offset counts it; success means all of it |
| `WireIo.Sender.SendFdNolock` | library/net.c:448-469 | the same for a part of a file |
| `WireIo.Sender.SendRequest` | library/net.c:1255-1347 | sending resumes exactly where the last call stopped, across header, data and file; success exactly when the request is complete |
| `WireIo.Sender.ProcessSendSingle` | library/pool.c:453-499 | what is on the wire only grows and stays the finished requests and the beginning of the next; it stops only when everything is out, the socket would block or fails; if every call moves something and there are enough calls, everything queued is out |
| `WireIo.SentPrefix` | library/pool.c:453-499 | what is on the wire is a prefix of all queued requests in FIFO order, and all of it when the queue is empty |
| `WireIo.Receiver.ScheduleCommand` | library/pool.c:217-234 | nothing of a next message counts as read, and the receiver is in step with the stream if and only if everything it has read was delivered, that is, no message was cut short |
| `WireIo.Receiver.Take` | library/pool.c:250-276 | one receive appends its bytes to the message being read |
| `WireIo.Receiver.Deliver` | library/pool.c:321-330 | a complete buffer is delivered as one well-formed message |
| `WireIo.Receiver.RecvSingle` | library/pool.c:236-337 | for any splitting, the bytes consumed are the delivered messages and the one being read; it stops only with a whole message, when nothing is left to read, or when the socket would block or fails, and every call counted moved at least a byte |
| `WireIo.EndToEnd` | library/pool.c:236-337 | however sends and receives are split, the messages delivered are the first ones queued, and all of them once everything has been read |
| `WireIo.TwoEnds` | library/pool.c:453-499 | the same for a sender and a receiver between calls |
| `Ring.OwnerUnique` | library/node.c:311-335 | the owner of a key in a well-formed table is unique |
| `Ring.SortedUnique` | library/node.c:158-173 | a sorted table in which equal ids share a state is determined by its entries |
| `Ring.JoinedMembers` | library/node.c:215-229 | a join adds exactly the joining state's ids that the table did not have |
| `Ring.JoinedCount` | library/node.c:215-228 | and each of them as often as it was requested |
| `Ring.LeftMembers` | library/node.c:158-173 | a leave removes exactly the leaving state's ids |
| `Ring.LeftCount` | library/node.c:158-171 | and each entry of another state stays as often as it was there |
| `Ring.JoinedWellFormed` | library/node.c:215-229 | a join keeps the table sorted with one state per id |
| `Ring.LeftWellFormed` | library/node.c:158-173 | a leave keeps the table sorted with one state per id |
| `Ring.JoinLeave` | library/node.c:158-309 | a join followed by that state's leave restores the id table exactly |
| `Ring.JoinDisruption` | library/node.c:175-309 | a join changes the owner of a key only to the joining state |
| `Ring.LeaveDisruption` | library/node.c:296-309 | a leave changes the owner of a key exactly when the leaving state owned it |
| `RouteTable.NeverEmpty` | library/node.c:337-340 | a group in the table has at least one id, so a lookup never meets an empty table |
| `RouteTable.Search` | library/node.c:311-335 | the wrap-around binary search returns the owner of the key |
| `RouteTable.Destination` | example/merge_iterator.py:40-48 | the linear scan returns the owner of the key |
| `RouteTable.SameOwner` | library/node.c:311-335 | binary search and linear scan choose the same owner for every key |
| `RouteTable.RemoveIds` | library/node.c:158-168 | the in-place compaction leaves the other states' entries in order |
| `RouteTable.AddIds` | library/node.c:215-221 | the copying loop collects exactly the ids that are not in the table |
| `RouteTable.Routes.constructor` | library/node.c:79 | a node starts with no groups |
| `RouteTable.GetPut` | library/elliptics.h:313-324 | on every well-formed table, taking a reference to a group, new or not, and giving it back restores the table exactly |
| `RouteTable.Routes.GroupPut` | library/elliptics.h:320-324 | giving a reference back undoes taking it, on every well-formed table; the group goes exactly with its last reference, and no other group changes |
| `RouteTable.Routes.Join` | library/node.c:175-294 | a join succeeds exactly when the set-up does and some id is new; otherwise the routing table is exactly as before; on success the group has, sorted, its old entries and every requested id it lacked, the state is its last, no other group changes, and a key changes owner only to the joining state |
| `RouteTable.Routes.Leave` | library/node.c:296-309 | a leave changes no other group; the group stays exactly when it has another state, with exactly the other states' entries, sorted, and the other states in order; every key that the leaving state did not own keeps its owner; an unregistered state changes nothing |
| `RouteTable.Routes.Owner` | library/node.c:377-391 | a lookup finds the owner of the key exactly when the group exists |
| `RouteTable.JoinKeeps` | library/node.c:175-294 | a join keeps: reference count equal to the registered states, each owning an id, no state in two groups |
| `RouteTable.LeaveKeeps` | library/node.c:296-309 | so does a leave |
| `RouteTable.JoinThenLeave` | library/node.c:175-309 | a successful join followed by that state's leave restores the whole routing table, group and count included |
| `RecoveryDiff.CmpIs` | library/dnet_common.c:2281-2297 | the comparison function decides the order by key ascending, then by time and then size descending, stated on the fields |
| `RecoveryDiff.NewestBest` | library/dnet_common.c:2281-2297 | in a sorted container the first record of a key has the greatest time, then size, among the records of the key |
| `RecoveryDiff.SkipEqualKeys` | library/dnet_common.c:2381-2402 | the offset moves to the first record of the next key |
| `RecoveryDiff.PassGroup` | library/dnet_common.c:2447-2480 | passing the records of one key adds its first record exactly when the left side needs it |
| `RecoveryDiff.Diff` | library/dnet_common.c:2411-2490 | for all sorted containers the result holds, in strictly increasing key order, the first right record of exactly those keys for which no left record has at least its time and size; the offset assertions hold; a comparison reads behind the left container if and only if the right side has a key beyond all of the left side's |
| `RecoveryDiff.ReadBehind` | library/dnet_common.c:2447-2450 | a run on which it does: against an empty left container the first comparison reads behind it |
| `RecoveryDiff.MergedNewest` | library/dnet_common.c:2403-2411 | after merging the difference into the left side a key is there exactly if either side has it, and its first record has at least the time and size of every record of both sides |
| `RecoveryDiff.SecondDiffEmpty` | library/dnet_common.c:2403-2411 | a second difference after the merge is empty |
| `IndexTables.SortOrdered` | indexes/indexes.cpp:62 | sorting a request, whatever its repetitions, gives the same entries in order of tag and data |
| `IndexTables.SortedSmallest` | indexes/indexes.cpp:62 | the first entry of a tag in the sorted request is the one with the smallest data |
| `IndexTables.SortStrict` | indexes/indexes.cpp:62 | the sorted request is free of duplicates if and only if its tags are distinct |
| `IndexTables.DifferenceMembers` | indexes/indexes.cpp:197-200 | for any two lists the insertions are entries of the request, among them all that the stored list does not have |
| `IndexTables.RemovedMembers` | indexes/indexes.cpp:201-204 | the removals are exactly the stored entries whose tag the request does not have, repetitions in the request included |
| `IndexTables.MergeUniqueData` | indexes/indexes.cpp:120-135 | the in-place merge followed by unique is strictly sorted and keeps, per tag, the first entry of the request, else the stored one |
| `IndexTables.LowerBound` | indexes/indexes.cpp:466 | the first position whose object is not smaller |
| `IndexTables.ConvertIndexTable` | indexes/indexes.cpp:449-533 | after an update the table is strictly sorted and lists the object with the new data, or not at all, and all other objects as before |
| `IndexStore.SetListing` | indexes/indexes.cpp:197-204 | insertions followed by removals list an object under a tag with some data exactly when the sorted request has that entry, provided no tag has two data |
| `IndexStore.OneUpdate` | library/dnet_common.c:88-100 | updating one table changes the listing of one object under one tag in one shard and nothing else |
| `IndexStore.Store.constructor` | indexes/indexes.cpp:36-66 | empty tables mirror each other |
| `IndexStore.Store.UpdateIndexInternal` | indexes/indexes.cpp:535-625 | the handler applies one update to one table |
| `IndexStore.Store.UpdateAll` | indexes/indexes.cpp:268-297 | a loop of updates for one object, repeated tags included, applies all of them in order and touches no other object or shard |
| `IndexStore.Store.SetIndexes` | indexes/indexes.cpp:147-300 | for every set request: all tables stay strictly sorted, the object's list has exactly the entries of the request, no other list changes; the list is free of duplicates if and only if the tags are distinct; object and index tables agree if and only if no tag is requested with two data |
| `IndexStore.Store.UpdateIndexes` | bindings/cpp/session_indexes.cpp:138-189 | for every update-only request and every order in which the client's inserts take effect: lists and tables stay strictly sorted, the object's list has the smallest requested data of each tag over what it had, the tables the last to arrive; they mirror each other if and only if these agree for every tag |
| `IndexStore.SetTwoWay` | indexes/indexes.cpp:197-297 | after the updates of a set request, lists and tables agree entry by entry if and only if no tag is requested with two data |
| `IndexStore.UpdateMirrored` | indexes/indexes.cpp:119-135 | after an update-only request they mirror each other if and only if, for each tag, the data that arrives last is the smallest requested |
| `IndexStore.EveryOrder` | bindings/cpp/session_indexes.cpp:161-188 | which holds in every order of arrival if and only if no tag is requested with two data |
| `IndexStore.ConflictingUpdate` | bindings/cpp/session_indexes.cpp:138-189 | a run on which it fails: the tag requested with data 3 and then 5 ends with 3 in the list and 5 in the table |
| `IndexStore.RepeatedTag` | indexes/indexes.cpp:62-66 | a set request with a tag twice, after which the list has a duplicate and lists and tables disagree |
| `IndexStore.MirroredIsTwoWay` | indexes/indexes.cpp:147-300 | between lists and tables without duplicates, the mirror means: an object lists a tag with some data exactly when one of the tag's tables lists the object with it |
| `IndexShards.ShardId` | library/dnet_common.c:102-113 | for every positive count the byte loop either computes the id, read as a big-endian number, modulo the shard count, or reaches an intermediate value outside `int`; the latter exactly when some unreduced value does not fit |
| `IndexShards.FewShardsFit` | library/dnet_common.c:102-113 | with up to 2^23 shards every intermediate value fits |
| `IndexShards.ManyShardsOverflow` | library/dnet_common.c:102-113 | with any larger count some id of every length above four does not |
| `IndexShards.PrefixShare` | library/dnet_common.c:96 | the leading word of a table id is floor(2^32 * s / n), stated by its two bounds |
| `IndexShards.PrefixGrows` | library/dnet_common.c:96 | floor(2^32 * s / n) grows strictly with s below n and fits 32 bits |
| `IndexShards.TablesApart` | library/dnet_common.c:88-100 | tables of different indexes or shards have different ids |
| `IndexFind.FindUnite` | indexes/indexes.cpp:660-690 | the union lists every object in some present table once, with what every table says about it, in request order; a missing table counts as empty |
| `IndexFind.FindIntersect` | indexes/indexes.cpp:660-720 | the intersection fails exactly when a table is missing; otherwise it lists every object in all tables once, with what every table says about it, in request order |
| `IndexFind.LinedUp` | indexes/indexes.cpp:700-720 | after the two set intersections results and entries line up, so the data is attached to the right objects |
| `IndexFind.OwnShard` | bindings/cpp/session_indexes.cpp:423-434 | in its own shard the tables say about an object what the object says itself |
| `IndexFind.Precalc` | bindings/cpp/session_indexes.cpp:314-334 | the map from table ids leads back to the tags for every shard |
| `IndexFind.OwnLabelsAre` | bindings/cpp/session_indexes.cpp:423-434 | the labels of an object are one for each requested tag that it carries, as often as the tag is requested, with the data it has for the tag |
| `IndexFind.AllLabels` | bindings/cpp/session_indexes.cpp:423-434 | an object that carries all tags has one label per tag, in the order of the request |
| `IndexFind.Find` | bindings/cpp/session_indexes.cpp:314-442 | asking all shards gives each object that carries all (or any) of the tags once, with its own data, and an error exactly when an intersection meets a shard that lacks a table |
| `IndexFind.ShardingInvisible` | bindings/cpp/session_indexes.cpp:314-442 | over the same object lists, any two shardings, one shard included, give the same matches |
| `ChunkedWrite.ChunkHandler.constructor` | bindings/cpp/session.cpp:965-974 | the write starts with one prepare that carries the first chunk and announces the total size |
| `ChunkedWrite.ChunkHandler.WriteNext` | bindings/cpp/session.cpp:919-941 | the next chunk follows the last one without gap or overlap, goes only to groups that acknowledged, and is the commit exactly at the end |
| `ChunkedWrite.WriteData` | bindings/cpp/session.cpp:960-975 | against any replies the write ends; unless one failed it sent one prepare, plain writes and one commit whose payloads concatenate to the content at matching offsets, all but the commit a full chunk; each command went to exactly the groups that acknowledged all earlier ones; it is done exactly when the commands cover the content, and otherwise the next reply is missing or an error |
| `CacheState.FlushDrop` | cache/cache.cpp:683-725 | writing an entry back and dropping it changes no value of the plain store |
| `CacheState.CleanDrop` | cache/cache.cpp:674-676 | dropping a clean entry changes no value |
| `CacheState.TrimmedValues` | cache/cache.cpp:658-681 | making room changes no value and drops no dirty entry |
| `CacheState.CopiedIn` | cache/cache.cpp:436-437 | resizing the buffer and copying gives what the plain write gives, zero-filled gap and truncation included |
| `CacheState.LifeAfter` | cache/cache.cpp:448-454 | after a write the lifetime set is exact if and only if the write did not leave a lifetime unset on an entry that had one |
| `CacheState.KeptValues` | cache/cache.cpp:658-681 | marking dirty entries and dropping clean ones, which is all an operation does to other keys, changes none of their values |
| `CacheKey.KeyStepRight` | cache/cache.cpp:299-551 | while no background write is on its way, a write, read or removal does to its key, and answers, what it does on the plain store |
| `CacheKey.LateAppend` | cache/cache.cpp:752-757 | whose value a late append changes, and when it leaves clean entries true, both as equivalences |
| `CacheKey.BelowFirst` | cache/cache.cpp:315-318 | a client write that reaches the backend before the write on its way ends right if and only if the two commute: equal strings of appends, nothing to append, or a write that repeats the copy |
| `CacheKey.PendingWrite` | cache/cache.cpp:299-463 | for every client write, handled or not, between the two halves of a background write: when the key ends with the value of the plain store and when no clean entry contradicts the backend, both as equivalences |
| `CacheKey.PendingRead` | cache/cache.cpp:465-507 | the same for every read, with the exact condition for its answer |
| `CacheKey.PendingStep` | cache/cache.cpp:805-847 | for every client operation between the two halves of a background append or copy: the exact conditions for value, clean entries and answer; a removal in between never ends right |
| `CacheKey.AtKey` | cache/cache.cpp:805-847 | the same on entries and backend |
| `CacheState.SnapshotWritten` | cache/cache.cpp:821-838 | writing an older copy of an entry to the backend, the entry itself counting as clean already, changes no value exactly when the key is cached with its whole value or the backend has that copy |
| `CacheState.RemovedKeys` | cache/cache.cpp:849-851 | what removing listed keys from the backend does to each value and to clean entries, both as equivalences |
| `Cache.Cache.constructor` | cache/cache.cpp:268-275 | an empty cache over a backend is valid |
| `Cache.Cache.SyncElement` | cache/cache.cpp:705-725 | after a write-back the backend alone holds what entry and backend stood for together; no other key changes |
| `Cache.Cache.EraseElement` | cache/cache.cpp:683-703 | the entry leaves all four containers, the size counter follows, and a dirty entry is written back |
| `Cache.Cache.Mark` | cache/cache.cpp:668-675 | a dirty entry is marked and is then the first of the sync set, and the containers still agree |
| `Cache.Cache.Resize` | cache/cache.cpp:658-681 | exactly the k least recently used entries are dropped if clean and marked if dirty, and either there is room besides the marked bytes or the whole list was visited; none of the k was unnecessary, and the rest keeps its order |
| `Cache.Cache.TakeAppend` | cache/cache.cpp:727-746 | the locked part: the append-only entry goes, the cache stays valid, and no value is lost once the bytes taken count |
| `Cache.Cache.AppendPending` | cache/cache.cpp:748-758 | the append outside the lock, in any later state of the cache: only the value of a key that is not cached whole changes, and a valid cache stays valid if and only if the key has no clean entry then |
| `Cache.Cache.SyncAfterAppend` | cache/cache.cpp:727-768 | both parts with nothing in between: the append-only entry is gone, its bytes are appended on the backend, no value changes |
| `Cache.Cache.TakeCopy` | cache/cache.cpp:821-832 | the locked part of writing another entry back: the entry counts as clean, and no value is lost once the copy counts |
| `Cache.Cache.WriteCopy` | cache/cache.cpp:833-838 | the write of the copy, in any later state: no value changes if and only if the key is cached whole or the backend has the copy; when the entry is sound afterwards |
| `Cache.Cache.DropMarked` | cache/cache.cpp:839-846 | an entry still marked after its copy was written is dropped; if it is sound but for the mark, no value changes and the cache is valid |
| `Cache.Cache.TakeDue` | cache/cache.cpp:805-832 | the locked half of a round takes the entry due first, if its time has come, and no value changes while what was taken counts; otherwise nothing is due |
| `Cache.Cache.Arrive` | cache/cache.cpp:748-846 | each further step of the round, at any later time |
| `Cache.Cache.CreateData` | cache/cache.cpp:604-617 | the new entry is at the end of the LRU list, no other value changes, nothing is evicted if it fits, and the unmarked bytes fit or every other entry is marked |
| `Cache.Cache.PopulateFromDisk` | cache/cache.cpp:619-656 | a key is brought in exactly when the backend has it, and no value changes |
| `Cache.Cache.WriteAppendOnly` | cache/cache.cpp:322-354 | on the plain store this is an append |
| `Cache.Cache.WriteThrough` | cache/cache.cpp:355-371 | on the plain store this is a write |
| `Cache.Cache.WriteCached` | cache/cache.cpp:374-462 | on the plain store this is a write or an append, into a buffer that holds as much of the value as is needed; the entry is dirty, unmarked and most recently used, with its lifetime and sync time set as given |
| `Cache.Cache.Write` | cache/cache.cpp:299-463 | a handled write is one write or append on the plain store, changes no other key and makes its entry the most recently used, the others in their order; size counter, LRU list, sync set agree; the lifetime set does exactly under the stated condition; lifetime and remove-from-disk of the entry; the unmarked bytes fit or every other entry is marked |
| `Cache.Cache.Read` | cache/cache.cpp:465-507 | a buffer returned is the value; nothing returned means the backend has the value; no value changes; exactly when a buffer is returned; its entry becomes the most recently used and is spared from eviction, and the others keep their order |
| `Cache.Cache.Remove` | cache/cache.cpp:509-551 | the key is gone, unless only its cached copy was to go and then its value is kept; success exactly when there was something to remove |
| `Cache.Cache.ExpireRound` | cache/cache.cpp:774-796 | one locked round drops the entry that expires first, if its time has come, and no value changes; otherwise nothing is expired |
| `Cache.Cache.Expire` | cache/cache.cpp:774-796 | rounds without a client in between: exactly the expired entries are dropped, no value changes, and exactly those marked remove-from-disk are listed for removal |
| `Cache.Cache.SyncOne` | cache/cache.cpp:814-846 | one due entry, with nothing between the steps of the round, is written back and dropped if append-only or marked, and no value changes |
| `Cache.Cache.SyncRound` | cache/cache.cpp:805-847 | a round with nothing between its steps writes back the entry due first, if its time has come; otherwise nothing is due |
| `Cache.Cache.SyncDue` | cache/cache.cpp:805-847 | rounds without a client in between: no entry stays due, each due entry's value is on the backend, other entries are untouched, no value changes |
| `Cache.Cache.RemoveLocal` | cache/cache.cpp:849-851 | in any state of the cache: exactly the listed keys leave the backend; the cache stays valid if and only if none of them has a clean entry; each listed value stays if and only if the backend did not contribute to it |
| `Cache.Cache.LifeCheck` | cache/cache.cpp:770-855 | one pass that no client interrupts changes the value of exactly the expired keys marked remove-from-disk, and leaves nothing expired or due |
| `Cache.Cache.Close` | cache/cache.cpp:277-293 | after the destructor nothing is cached and the backend holds every value |
| `CacheRun.Perform` | cache/cache.cpp:299-551 | a client operation, including the backend write after a write the cache does not handle, is one step of its key, leaves other keys but for eviction, and keeps the containers consistent if and only if it does not leave out the lifetime of an entry that has one |
| `CacheRun.WholeStep` | cache/cache.cpp:299-551 | after a client operation cache, pending write and backend stand for the plain store, and the answer is its answer, if and only if the operation meets its condition |
| `CacheRun.Background` | cache/cache.cpp:770-855 | so do the steps of the background thread: expiry, taking a due entry, its write, the drop of a marked entry, and the removal of a listed key if and only if it is not cached again |
| `CacheRun.Step` | cache/cache.cpp:299-855 | every step of clients and background thread: consistent containers, the contents and the answer of the plain store, each if and only if the step meets its condition |
| `CacheRun.Run` | cache/cache.cpp:299-855 | every interleaving of client operations with the single steps of the background thread, up to the first step that misses a condition, gives the answers and the contents of the plain store |
| `CacheRun.LifetimeLost` | cache/cache.cpp:448-454 | a run of two writes after which the lifetime set is not exact: the lifetime field is set, the entry is not in the set |
| `CacheRun.LostAppend` | cache/cache.cpp:816-818 | a run with a read between the two parts of a background append, after which the cache answers without the appended bytes and the backend has them |
| `CacheRun.OverwriteSpoilt` | cache/cache.cpp:315-318 | a run with an uncached overwrite there, after which the appended bytes follow the new contents |
| `CacheRun.AppendsSwapped` | cache/cache.cpp:315-318 | a run with an uncached append there, after which the two appends have changed places |
| `CacheRun.RemovedReturns` | cache/cache.cpp:816-818 | a run with a removal there, after which the removed key is back with the appended bytes |
| `CacheRun.CopyReturns` | cache/cache.cpp:824-838 | a run with a removal between the copy of an entry and the write of the copy, after which the removed key is back |
| `CacheRun.LostRewrite` | cache/cache.cpp:785-851 | a run with a client write between the listing of an expired key and its removal, after which the written value is gone |
| `CacheRun.RemovedUnderEntry` | cache/cache.cpp:785-851 | a run with a client read there instead, after which a clean entry stands for a key the backend does not have |

## Left out

- `dnet_optrylock`: its busy path keeps a reference, outside the counting invariant.
- CACHE_ONLY and COMPARE_AND_SWAP cache writes, timestamps, user flags and the replies sent by the cache.
- What a thread does after the pool was exhausted: it goes on without a lock (library/locks.c:226-228).
- Fairness: that a waiter of a lock, or a queued reply, is served eventually.
- Failing queueing of a request (library/net.c:520-525) and the error paths of index updates.
- `update_indexes_internal`, which updates index tables without the object's list.
- The final acknowledgement of an index update and the release of its lock.
- Failed groups in a find: retries on other groups are not modelled.
- `dnet_search_range_nolock`: the bounds it returns besides the owner.
- `dnet_mix_states`, `dnet_weight_get_winner`, weights and stall counters: no invariant of their own.
- Two receive pools: replies of one transaction are taken to arrive in one pool.
- rb_next, rb_prev, rb_last and rb_replace_node: not used by the index trees.
- Sockets, epoll, discovery, reconnection, file backends, hashing and packing of tables.
- Byte offsets of the recovery containers: positions stand for offsets, which are multiples of the record size.
- IndexStore.Store.SetIndexes: starts from lists and tables without duplicates; a further request after one that left a duplicate is not covered.
- IndexStore.Store.UpdateIndexes: starts from lists and tables without duplicates, as above.
- `dnet_state_clean` on a tree that still has transactions being replied to.
- Cache.Cache.SyncOne: nothing happens between the steps of the round; `CacheRun.Run` has them as steps of their own.
- Cache.Cache.SyncRound: nothing happens between the steps of the round; `CacheRun.Run` has them as steps of their own.
- Cache.Cache.SyncDue: no client operation between its rounds; `CacheRun.Run` allows them.
- Cache.Cache.LifeCheck: no client operation between its rounds and loops; `CacheRun.Run` allows them.
- CacheRun.Run: lookups and cache-only operations are not among its operations.
- IndexFind.Find: with no tags it finds nothing; the source then addresses the request by an entry that it does not have (bindings/cpp/session_indexes.cpp:365).
