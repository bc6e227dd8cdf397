# MutyDB in Dafny

A model of the parts of MutyDB that carry unbounded state, with proofs of what they keep. MutyDB is
a key-value server with an ordered and a hashed storage engine, a rotating write-ahead log, a
coroutine scheduler and a reactor network library.

`dafny verify dfyconfig.toml` checks the whole project.

## How it is built

Linked structures are modelled as the code has them: links in memory, changed one at a time, with
the mathematical value they represent as ghost state. Loops are loops with invariants. Interleaved
and crashing parts are step machines with theorems over all runs: what every step keeps, and that the
machine goes on. Answers and states that a specification function computes are also told by the
history alone, without that function.

| files | part of the system |
|---|---|
| `RbTrees`, `Arena`, `RbFixup` | red-black trees as values, paths from a node to the root, links in memory, and the cases of both repairs |
| `CStrings`, `KeyedTrees`, `KvRbTree` | the ordered engine: string keys, a shared sentinel, deletion by swapping contents |
| `OrderedNodes`, `NtyTree`, `SplayTree` | the two intrusive trees of the coroutine library: null leaves, removal that relinks the successor node; top-down splaying |
| `HashTable`, `Engines`, `Histories` | the chained table; both engines as maps, when they answer alike, and what they answer by the history of commands |
| `WalText`, `WalFiles`, `WalReplay`, `Recovery`, `KvServer` | printing and scanning the log, rotation, what is logged and what replay rebuilds, the server over its restarts, the server itself |
| `EventLoop` | the hand-off between threads and the loop |
| `TailQueue`, `SleepOrder`, `Scheduler` | the ready queue, the sleep tree, the poll timeout, one scheduler pass |
| `Buffers`, `TcpStream`, `TcpConnections` | the byte buffer and the connection over it |
| `BlockPool`, `PagePool`, `Uring` | two memory pools and the completion loop |

The red-black proofs go through a zipper: a path from the root to the node under repair, and the
subtree there. Insertion carries "red-black except for this red node", deletion carries "this
subtree is one black node short". For deletion the depth of the node is no measure, because the
red-sibling rotation pushes it down; the measure counts a node as done once it is red or the root,
and one turn covers the rotation together with the case it leads to.

## What the code decides

Some promises hold only under a condition, which is then part of the theorem, in both directions.

- The ordered engine ignores a SET of a present key but still counts it, so the engines agree exactly
  on histories without such a SET (`Engines.EnginesAgree`, `Engines.CountsOverRuns`).
- A loop can sleep on functors that its own thread queued before the first poll, because they are not
  signalled; otherwise no wake-up is lost (`EventLoop.NoLostWakeups`).
- Failed MODs are logged and MOD is replayed as SET. A restart brings the hash map back exactly if no
  key was last written since the previous restart by an HMOD that missed; for the tree it brings back
  the first value since the last deletion, so that an RMOD which changes a value is lost
  (`Recovery.HashRecovery`, `Recovery.TreeRecovery`, `WalReplay.ModifiedValueIsLost`).
- A record without a value, such as that of a plain HDEL, swallows the next line when the log is read,
  and that request is lost (`WalText.ParseIsReadBack`, `Recovery.ServeFaithfulIff`).
- `nty_schedule_sched_sleepdown` looks up the key of the previous sleep. After
  a zero-length sleep called at the very microsecond another sleeper is due, the next call drops that
  sleeper (`SleepOrder.SleeperIsLost`), and in no other case (`SleepOrder.LostIff`).
- `handleWrite` never withdraws write interest, and a connection with write interest is not half
  closed, so one blocked send is enough to lose the graceful close (`TcpStream.InterestIff`,
  `TcpStream.HalfClosedIff`). The
  comment at Kmuduo/TcpConnection.cc:157 takes write interest for unsent data; after the first blocked
  send it stays on with nothing unsent.
- A coroutine that is queued a second time breaks the ready queue (`TailQueue.InsertTailIff`).
- The paged pool hands out ranges that exceed their page when a request does not fit one, and moves
  the free end back for a negative size (`PagePool.RunSoundIff`).
- The block pool writes a terminating word after its last block. That word is outside the page unless
  the blocks leave room for it, which they do not for the size the server uses
  (`BlockPool.Pool.constructor`, `BlockPool.ServerPoolOverruns`).

## Model

| member | source | states |
|---|---|---|
| `KvRbTree.RbTree.constructor` | kvstore_rbtree.c:379-392 | an empty tree: no bindings, counter 0, black sentinel |
| `KvRbTree.RbTree.LeftRotate` | kvstore_rbtree.c:74-94 | exactly which links of which nodes and of the root a left rotation changes |
| `KvRbTree.RbTree.RightRotate` | kvstore_rbtree.c:97-117 | the mirror image |
| `RbTrees.RotationKeeps` | kvstore_rbtree.c:74-117 | a rotation keeps the in-order sequence and the nodes of the subtree it turns |
| `KvRbTree.RbTree.StraightenLeft` | kvstore_rbtree.c:132-135 | the inner rotation of insertion turns a right child under a red left parent into the outer case |
| `KvRbTree.RbTree.LiftLeft` | kvstore_rbtree.c:137-139 | the outer rotation with its recolouring ends the red-red conflict |
| `KvRbTree.RbTree.InsertStepLeft` | kvstore_rbtree.c:122-140 | one turn of the insertion loop on the left keeps the invariant and the order and moves towards the root |
| `KvRbTree.RbTree.StraightenRight` | kvstore_rbtree.c:150-153 | the inner rotation, mirrored |
| `KvRbTree.RbTree.LiftRight` | kvstore_rbtree.c:155-157 | the outer rotation, mirrored |
| `KvRbTree.RbTree.InsertStepRight` | kvstore_rbtree.c:141-159 | one turn of the insertion loop on the right |
| `KvRbTree.RbTree.InsertFixup` | kvstore_rbtree.c:119-164 | the insertion loop ends, with a red-black tree of the same nodes in the same order |
| `KvRbTree.RbTree.LinkLeaf` | kvstore_rbtree.c:196-211 | the new red leaf hangs where the search ended |
| `KvRbTree.RbTree.Insert` | kvstore_rbtree.c:167-214 | a new key adds exactly one binding and keeps order, links, colours and black heights; a present key leaves tree and links untouched |
| `KvRbTree.RbTree.Search` | kvstore_rbtree.c:339-363 | the node with the key, or the sentinel exactly if the key is absent, after at most as many steps as the tree is high |
| `KvRbTree.RbTree.SearchIsLogarithmic` | kvstore_rbtree.c:339-363 | the height of every valid tree is at most 2 log2(n + 1) for n bindings |
| `RbTrees.HeightIsLogarithmic` | kvstore_rbtree.c:339-363 | the same for every red-black tree, by its size |
| `KvRbTree.RbTree.Mini` | kvstore_rbtree.c:45-50 | the first node of a subtree in order, which has no left child |
| `KvRbTree.RbTree.Successor` | kvstore_rbtree.c:59-71 | the next node in order, both when descending and when climbing; the sentinel exactly after the last node |
| `KvRbTree.RbTree.RedSiblingLeft` | kvstore_rbtree.c:222-227 | a red sibling is rotated away; the subtree stays one black node short, now under a red parent and beside a black sibling |
| `KvRbTree.RbTree.InnerNephewLeft` | kvstore_rbtree.c:235-240 | a red inner nephew becomes the outer one, with the deficit unchanged |
| `KvRbTree.RbTree.OuterNephewLeft` | kvstore_rbtree.c:242-247 | a red outer nephew pays the deficit: the whole tree is red-black and the loop jumps to the root |
| `KvRbTree.RbTree.BlackSiblingLeft` | kvstore_rbtree.c:229-248 | the black-sibling cases: done, or the deficit moves to the parent |
| `KvRbTree.RbTree.DeleteStepLeft` | kvstore_rbtree.c:219-249 | one turn of the deletion loop on the left keeps the deficit invariant and decreases a measure that also covers the red-sibling rotation |
| `KvRbTree.RbTree.RedSiblingRight` | kvstore_rbtree.c:252-258 | the red-sibling case, mirrored |
| `KvRbTree.RbTree.InnerNephewRight` | kvstore_rbtree.c:264-270 | the inner-nephew case, mirrored |
| `KvRbTree.RbTree.OuterNephewRight` | kvstore_rbtree.c:272-277 | the outer-nephew case, mirrored |
| `KvRbTree.RbTree.BlackSiblingRight` | kvstore_rbtree.c:260-279 | the black-sibling cases, mirrored |
| `KvRbTree.RbTree.DeleteStepRight` | kvstore_rbtree.c:250-280 | one turn of the deletion loop on the right |
| `KvRbTree.RbTree.DeleteFixup` | kvstore_rbtree.c:216-286 | the deletion loop ends, with a red-black tree of the same nodes in the same order and a black sentinel |
| `RbFixup.SiblingExists` | kvstore_rbtree.c:219-280 | while a subtree is one black node short its sibling is a real node, so the sentinel's links are never read as a sibling's |
| `KvRbTree.RbTree.Bypass` | kvstore_rbtree.c:299-312 | the only child takes the place of the unlinked node, and the sentinel's parent is set when there is none |
| `KvRbTree.RbTree.Exchange` | kvstore_rbtree.c:314-328 | key and value of the two nodes are swapped |
| `KvRbTree.RbTree.Victim` | kvstore_rbtree.c:293-297 | the node itself, or its successor if it has two children; either way a node with at most one child |
| `KvRbTree.RbTree.Unlink` | kvstore_rbtree.c:299-332 | the victim's place is gone from the order and the tree is red-black again |
| `KvRbTree.RbTree.Delete` | kvstore_rbtree.c:288-335 | from any valid tree exactly the binding of the node is removed, every invariant is kept, and the returned node is out of the tree and carries that binding |
| `KeyedTrees.DeletedBySwap` | kvstore_rbtree.c:314-328 | swapping contents with the successor and unlinking it removes exactly the one entry from the sorted entries |
| `CStrings.LessIff` | kvstore_rbtree.c:177-180 | the order of keys is decided by the first difference, and a proper prefix comes first |
| `KvRbTree.RbTree.Set` | kvstore_rbtree.c:423-450 | reply and new state are those of the tree engine's SET: an existing key is kept, the counter grows all the same |
| `KvRbTree.RbTree.Get` | kvstore_rbtree.c:452-462 | the bound value, or none |
| `KvRbTree.RbTree.Remove` | kvstore_rbtree.c:464-482 | reply and new state are those of DEL |
| `KvRbTree.RbTree.Modify` | kvstore_rbtree.c:484-501 | reply and new state are those of MOD |
| `Engines.KeysOverRuns` | kvstore_rbtree.c:423-501 | after every history both engines hold the same keys |
| `Engines.CountsOverRuns` | kvstore_rbtree.c:503-507 | over every history the hash counter is the number of bindings, and the tree counter is ahead of it by exactly the number of overwriting SETs |
| `Engines.EnginesAgree` | kvstore_rbtree.c:423-507 | the engines end in the same state if and only if no SET of the history names a present key |
| `Engines.AnswersAgree` | kvstore_rbtree.c:423-507 | on such histories every command gets the same answer from both |
| `Engines.CountDiffers` | kvstore_rbtree.c:503-507 | COUNT gets the same answer if and only if no SET before it overwrote |
| `Histories.HashHolds` | kvstore_hash.c:133-243 | after every history the table holds for a key the value of the last HSET or HMOD since its last HDEL, if there is an HSET among them |
| `Histories.TreeHolds` | kvstore_rbtree.c:423-501 | after every history the tree holds for a key the value of the last RMOD after the first RSET since its last RDEL, or of that RSET |
| `Histories.HashAnswers` | kvstore_hash.c:133-324 | what the hash engine answers to any command after any history, told by the commands alone: status codes, the value found, the number of keys |
| `Histories.TreeAnswers` | kvstore_rbtree.c:423-507 | the same for the tree engine, whose count adds the SETs that found their key |
| `NtyTree.RbHead.RotateLeftLinks` | NtyCo/core/nty_tree.h:325-344 | exactly the links a left rotation changes, following no null pointer |
| `NtyTree.RbHead.RotateRightLinks` | NtyCo/core/nty_tree.h:346-365 | the mirror image |
| `NtyTree.RbHead.InsertInner` | NtyCo/core/nty_tree.h:404-409 | the inner rotation of insertion |
| `NtyTree.RbHead.InsertOuter` | NtyCo/core/nty_tree.h:410-411 | the outer rotation of insertion ends the conflict |
| `NtyTree.RbHead.InsertRecolour` | NtyCo/core/nty_tree.h:398-403 | a red uncle: recolour and continue two levels up |
| `NtyTree.RbHead.InsertColor` | NtyCo/core/nty_tree.h:391-431 | the repair after insertion ends, with a red-black tree of the same nodes in the same order |
| `NtyTree.RbHead.Insert` | NtyCo/core/nty_tree.h:580-606 | a node with a new key is added and the order without it is the old order; otherwise the node that has the key is returned and nothing changes |
| `NtyTree.RbHead.RedSibling` | NtyCo/core/nty_tree.h:441-445 | a red sibling is rotated away and the deficit stays |
| `NtyTree.RbHead.InnerNephew` | NtyCo/core/nty_tree.h:454-463 | a red inner nephew becomes the outer one |
| `NtyTree.RbHead.OuterNephew` | NtyCo/core/nty_tree.h:464-471 | a red outer nephew pays the deficit and ends the loop |
| `NtyTree.RbHead.BlackSibling` | NtyCo/core/nty_tree.h:446-472 | the black-sibling cases, for either side; the sibling read is never null |
| `NtyTree.RbHead.RemoveTurn` | NtyCo/core/nty_tree.h:436-506 | one turn of the repair, on either side, decreases the measure |
| `NtyTree.RbHead.RemoveColor` | NtyCo/core/nty_tree.h:434-509 | the repair after removal ends, with a red-black tree of the same nodes in the same order, and follows no null pointer |
| `NtyTree.RbHead.Bypass` | NtyCo/core/nty_tree.h:560-571 | the only child takes the place of the removed node |
| `NtyTree.RbHead.TakePlace` | NtyCo/core/nty_tree.h:540-551 | the successor node takes over links and colour of the removed node, and parent and children point to it |
| `NtyTree.RbHead.RelinkSuccessor` | NtyCo/core/nty_tree.h:520-559 | the successor is taken out of its place and put into that of the removed node, also when it is its direct child |
| `NtyTree.RbHead.Detach` | NtyCo/core/nty_tree.h:512-571 | the order loses exactly the node, and the colour taken away says whether a black node is missing |
| `NtyTree.RbHead.Remove` | NtyCo/core/nty_tree.h:512-576 | any node of any valid tree: the order is the old one without it, all invariants hold, every other node keeps identity and key, and the node itself is returned |
| `NtyTree.RbHead.Find` | NtyCo/core/nty_tree.h:610-623 | the node with the key, or null exactly if no node has it |
| `NtyTree.RbHead.NFind` | NtyCo/core/nty_tree.h:627-644 | the first node whose key is not below the given one |
| `NtyTree.RbHead.MinMax` | NtyCo/core/nty_tree.h:691-703 | the first or the last node of the order, null for an empty tree |
| `NtyTree.RbHead.ClimbForward` | NtyCo/core/nty_tree.h:655-663 | the climbing loop ends at the next node, or null after the last |
| `NtyTree.RbHead.Next` | NtyCo/core/nty_tree.h:648-666 | the next node of the order |
| `NtyTree.RbHead.ClimbBack` | NtyCo/core/nty_tree.h:677-685 | the climbing loop ends at the previous node, or null before the first |
| `NtyTree.RbHead.Prev` | NtyCo/core/nty_tree.h:670-688 | the previous node of the order |
| `NtyTree.RbHead.Foreach` | NtyCo/core/nty_tree.h:717-720 | first and then next visits every node once, in ascending key order |
| `OrderedNodes.PrevUndoesNext` | NtyCo/core/nty_tree.h:646-688 | stepping back undoes stepping forward |
| `OrderedNodes.NextUndoesPrev` | NtyCo/core/nty_tree.h:646-688 | stepping forward undoes stepping back |
| `RbFixup.RelocateStep` | NtyCo/core/nty_tree.h:520-559 | moving the successor into the place of a node with two children leaves the tree red-black, or one black node short where the successor was, according to its colour |
| `RbFixup.RedSiblingStep` | NtyCo/core/nty_tree.h:441-445 | the deficit invariant across the red-sibling rotation |
| `RbFixup.OuterNephewStep` | NtyCo/core/nty_tree.h:464-471 | the outer-nephew rotation yields a red-black tree |
| `SplayTree.SplayHead.RotateUp` | NtyCo/core/nty_tree.h:73-83 | the rotation at the root |
| `SplayTree.SplayHead.LinkDown` | NtyCo/core/nty_tree.h:85-95 | the root moves to the end of one of the two side chains |
| `SplayTree.SplayHead.SearchTurn` | NtyCo/core/nty_tree.h:197-219 | one turn of the loop keeps the order of chains and middle tree and leaves a smaller middle tree, or stops |
| `SplayTree.SplayHead.Assemble` | NtyCo/core/nty_tree.h:97-102 | chains and middle tree are joined into one tree of the same order |
| `SplayTree.SplayHead.Splay` | NtyCo/core/nty_tree.h:190-221 | the order is kept, the root is the matching node if there is one and otherwise a neighbour of the key, and nodes outside the tree are untouched |
| `SplayTree.NearestMisses` | NtyCo/core/nty_tree.h:190-221 | if the root after a splay does not match then no node does |
| `SplayTree.SplayHead.Find` | NtyCo/core/nty_tree.h:114-121 | the matching node, or null exactly if there is none |
| `SplayTree.SplayHead.Insert` | NtyCo/core/nty_tree.h:147-167 | the new node is the root and the order without it is the old order; or the matching node is returned and the order is unchanged |
| `SplayTree.SplayHead.Remove` | NtyCo/core/nty_tree.h:170-187 | the order loses exactly the matching node, or is unchanged |
| `EventLoop.WakeupStep` | Kmuduo/EventLoop.cc:62-186 | every step of every thread keeps the wake-up invariant |
| `EventLoop.WakeupRun` | Kmuduo/EventLoop.cc:62-186 | it holds in every state of every interleaving from a beginning whose queue is empty or signalled |
| `EventLoop.NoLostWakeups` | Kmuduo/EventLoop.cc:62-186 | no reachable state has the loop in poll with work and no wake-up coming, in any interleaving, if and only if the queue before the first poll is empty, or the eventfd is signalled, or a thread is about to signal it |
| `EventLoop.OrderStep` | Kmuduo/EventLoop.cc:122-186 | every step keeps: executed, then the rest of the batch, then the queue, is the enqueue history |
| `EventLoop.ExecutionOrder` | Kmuduo/EventLoop.cc:122-186 | that holds in every reachable state, also when functors enqueue functors |
| `EventLoop.HistoryGrows` | Kmuduo/EventLoop.cc:122-186 | the history only grows and what left the queue does not return |
| `EventLoop.RoundCompletes` | Kmuduo/EventLoop.cc:171-186 | what is queued at a swap has run, in order, by any later poll |
| `EventLoop.AtMostOnce` | Kmuduo/EventLoop.cc:171-186 | no functor runs more often than it was enqueued |
| `EventLoop.StoppedOnlyByQuit` | Kmuduo/EventLoop.cc:69-88 | in every run the loop has ended only if somebody asked it to quit |
| `EventLoop.LoopProgress` | Kmuduo/EventLoop.cc:62-88 | from every reachable state the steps of the loop thread alone lead back to its poll, with every functor executed in order, an empty queue and the eventfd at zero; or to its end if it was asked to quit |
| `EventLoop.PushIsServed` | Kmuduo/EventLoop.cc:122-154 | at any time any other thread can push; its wake-up makes the eventfd readable, and the loop runs the functor after everything pushed before |
| `EventLoop.LoopPushIsServed` | Kmuduo/EventLoop.cc:122-133 | the same for callbacks and functors in the loop thread |
| `EventLoop.QuitIsServed` | Kmuduo/EventLoop.cc:91-106 | at any time any other thread can end the loop |
| `HashTable.Hash` | kvstore_hash.c:48-54 | the loop computes the 64-bit wrapped hash of the key, with signed characters, reduced to the table size |
| `HashTable.HashValue` | kvstore_hash.c:48-54 | the hash in closed form: 5381 and the signed characters weighted by powers of 33, modulo 2^64, and the bucket modulo 102400 |
| `HashTable.Table.constructor` | kvstore_hash.c:92-105 | an empty table |
| `HashTable.Table.Locate` | kvstore_hash.c:140-147 | the node with the key in the bucket's chain, or null exactly if the key is unbound |
| `HashTable.Table.Put` | kvstore_hash.c:133-158 | reply and new state are those of SET on a map; null arguments change nothing |
| `HashTable.Table.Get` | kvstore_hash.c:160-181 | the value the map binds, or none |
| `HashTable.Table.Modify` | kvstore_hash.c:293-320 | reply and new state are those of MOD |
| `HashTable.Table.Delete` | kvstore_hash.c:187-243 | reply and new state are those of DEL, whether the node is the head of its chain or not |
| `HashTable.Table.Count` | kvstore_hash.c:183-185 | the number of bindings |
| `HashTable.Table.ChainsDisjoint` | kvstore_hash.c:133-243 | no node is in two chains or twice in one |
| `WalText.ScanWithValue` | kvstore.c:599-602 | a printed record with a value is read back as it was |
| `WalText.ScanWithoutValue` | kvstore.c:531-531 | a printed record without a value takes the next line as its value |
| `WalText.ParseFits` | kvstore.c:531-531 | whatever is read from whatever text fits the format |
| `WalText.ParseIsReadBack` | kvstore.c:531-531 | what is read back of a printed log: every record, except that one without a value takes the text of the next as its value and the next is lost |
| `WalText.ReadBackAppend` | kvstore.c:594-603 | one more record is read back, or is taken by the last one if that waits for a value |
| `WalText.FitsIff` | kvstore.c:530-531 | the line format in numbers: widths 15, 255 and 255, and the six characters of white space |
| `WalText.RoundTrip` | kvstore.c:594-612 | for all records: printing and reading back gives the same records if and only if each fits the format and every record but the last carries a value |
| `WalFiles.RenameKeeps` | kvstore.c:581-587 | a rename onto a free slot does not change what is read |
| `WalFiles.RenameDrops` | kvstore.c:581-587 | a rename onto the oldest archive drops exactly that archive, the part read first |
| `WalFiles.RotationIsSafe` | kvstore.c:580-612 | in every run of appends, renames and crashes, at every point: what is read is a suffix of the history, and all of it until more than 4096 rotations have begun |
| `WalFiles.RotationBegins` | kvstore.c:604-610 | a rotation begins exactly when an append takes the current log beyond 10485760 characters |
| `WalFiles.RotationsNeedText` | kvstore.c:594-612 | in every run the rotations begun, less the crashes, times 10485760 are at most the text ever written |
| `WalFiles.NothingLost` | kvstore.c:523-612 | in every run everything is read back as long as the text ever written, with 10485760 added for each crash, is at most 4096 times that |
| `KvServer.Wal.Rotate` | kvstore.c:580-590 | every file moves up one slot, a gap included, the oldest is replaced if another takes its place, and an empty log is left; the invariant holds between any two renames |
| `KvServer.Wal.Append` | kvstore.c:594-612 | the history grows by the record; a rotation happens exactly if the current log with the new line is longer than 10485760 characters |
| `WalReplay.HashRebuiltExactly` | kvstore.c:545-549 | from any state, replay of a history of hash commands yields the live map if and only if no key was last written by an HMOD that missed |
| `WalReplay.HashStepFaithfulIff` | kvstore.c:402-418 | one more command keeps replay and live map equal if and only if it is not an HMOD that misses |
| `WalReplay.TreeKeepsFirst` | kvstore.c:539-543 | for each key, replay of the tree's log yields the first value written since its last RDEL |
| `WalReplay.TreeRebuiltExactly` | kvstore.c:539-543 | from any state, replay of a history of tree commands yields the live tree if and only if for every key the writes since its last RDEL include an RSET, and the first value written is that of the last RMOD after the first RSET, or of that RSET if there is none |
| `WalReplay.TreeStepFaithfulIff` | kvstore.c:320-336 | one more command keeps replay and live tree equal if and only if it is not an RMOD that misses or changes the value |
| `WalReplay.ReplayRequest` | kvstore.c:539-549 | replaying the record of a request does what its command does, with MOD taken for SET; reads and commands of the other engine do nothing |
| `WalReplay.TreeRebuiltWithoutMod` | kvstore.c:271-317 | without RMOD the whole engine is rebuilt, counter included |
| `WalReplay.ModifiedValueIsLost` | kvstore.c:539-540 | an RSET followed by an RMOD to another value comes back with the old value |
| `WalReplay.SessionAnswers` | kvstore.c:271-433 | every answer of a mixed session, by the commands served before: SET succeeds, DEL and MOD succeed exactly on a key that is present, reads find something exactly then, and what lacks a value is refused |
| `WalReplay.HashValues` | kvstore.c:368-433 | the value an HGET finds and the number an HCOUNT gives, by the commands served before |
| `WalReplay.TreeValues` | kvstore.c:286-350 | the value an RGET finds and the number an RCOUNT gives, by the commands served before |
| `WalReplay.LoggedText` | kvstore.c:594-603 | the text a request adds to the log, name by name |
| `Recovery.HashRecovery` | kvstore.c:523-612 | in every state of every run of requests to both engines, rotations and restarts, with at most 4096 rotations and records that fit and have values: a restart would bring back the live hash map if and only if no key was last written since the last restart by an HMOD that missed |
| `Recovery.TreeRecovery` | kvstore.c:523-612 | the same for the tree: if and only if for every key the writes since its last RDEL, what the last restart brought back counting as an RSET, meet the condition of the tree engine |
| `Recovery.IntactByText` | kvstore.c:523-612 | in every run a log whose records fit is intact as long as its text, with 10485760 added for each restart, is at most 4096 times that |
| `Recovery.RestartIsFaithful` | kvstore.c:471-486 | right after a restart another one would bring back the same |
| `Recovery.AppendReplays` | kvstore.c:594-603 | what one more record adds to what a restart brings back: itself, or, if the log ends with a record that waits for a value, nothing but its text as that value |
| `Recovery.ServeFaithfulIff` | kvstore.c:271-433 | records without values included: after one more request a restart still brings back both engines if and only if, on a log that waits for a value, the request changed no binding and its text does no harm as a value, and on any other, the request was no missed HMOD, no missed or changing RMOD, and no refused HSET or HMOD unless the replay buffer holds the bound value |
| `Recovery.AdvanceKeepsReplay` | kvstore.c:580-590 | no step of a rotation changes what a restart brings back, up to 4096 rotations, whatever the records look like |
| `Recovery.RotationEnds` | kvstore.c:580-590 | from every reachable state a rotation ends within 4097 steps that change no engine and lose no record, and then any request can be served |
| `KvServer.Server.HashRequest` | kvstore.c:353-433 | each H command, also an HSET or HMOD without a value, gets the reply and the state of the engine and leaves its record in the log, whatever its outcome |
| `KvServer.Server.AskTable` | kvstore.c:353-433 | what the table replies and holds for each H command, also for an HSET or HMOD without a value |
| `KvServer.Server.TreeRequest` | kvstore.c:271-350 | each R command, in the same way |
| `KvServer.Server.AskTree` | kvstore.c:271-350 | what the tree replies and holds for each R command |
| `KvServer.Server.LogRequest` | kvstore.c:271-433 | every request but a count leaves its record in the log, under the name of its arm |
| `KvServer.Server.Serve` | kvstore.c:168-436 | a request to either engine, on the one log; the server stays a tracked state of the restart machine |
| `KvServer.Server.Session` | kvstore.c:168-436 | engines, log and replies after a history that mixes requests to both engines, from what the last restart brought back |
| `KvServer.Server.ReplayFile` | kvstore.c:531-550 | the scan loop replays the parsed records of one file into both engines |
| `KvServer.Server.Replay` | kvstore.c:523-577 | archives from the oldest to the newest, then the log |
| `KvServer.Server.Restart` | kvstore.c:471-486 | new engines hold what replaying the files yields, and the server starts a tracked run of the restart machine |
| `TailQueue.Queues.Init` | NtyCo/core/nty_queue.h:486-490 | the head represents the empty sequence, other queues are unchanged |
| `TailQueue.Queues.InsertTail` | NtyCo/core/nty_queue.h:530-538 | the sequence grows by the element at its end; no other queue changes |
| `TailQueue.Queues.InsertHead` | NtyCo/core/nty_queue.h:517-528 | the sequence grows by the element at its front |
| `TailQueue.Queues.InsertAfter` | NtyCo/core/nty_queue.h:492-505 | the element follows the given one |
| `TailQueue.Queues.InsertBefore` | NtyCo/core/nty_queue.h:507-515 | the element precedes the given one, found without naming the head |
| `TailQueue.Queues.Remove` | NtyCo/core/nty_queue.h:548-562 | the sequence loses exactly the element, which is then in no queue |
| `TailQueue.Queues.Concat` | NtyCo/core/nty_queue.h:451-460 | the second sequence follows the first and the second queue is empty |
| `TailQueue.Queues.First` | NtyCo/core/nty_queue.h:462-464 | the first element, null exactly if empty |
| `TailQueue.Queues.Last` | NtyCo/core/nty_queue.h:540-541 | the last element, null exactly if empty, read through the element's entry as if it were a head |
| `TailQueue.Queues.Next` | NtyCo/core/nty_queue.h:543-543 | the following element, null exactly at the end |
| `TailQueue.Queues.Prev` | NtyCo/core/nty_queue.h:545-546 | the preceding element, null for the first |
| `TailQueue.Queues.Foreach` | NtyCo/core/nty_queue.h:466-469 | visits the sequence in order |
| `TailQueue.InsertedLinks` | NtyCo/core/nty_queue.h:492-538 | the link changes all four insertions have in common represent the longer sequence |
| `TailQueue.InsertTailIff` | NtyCo/core/nty_queue.h:530-538 | after the writes of an insertion the head represents some sequence if and only if the element was not queued already |
| `Scheduler.Schedule.Sleepdown` | NtyCo/core/nty_schedule.c:87-109 | drops whoever has the coroutine's stale key, sets the new key and, for a positive time, sleeps at the least unused key from the deadline on; the loop ends; no other key changes; this is a step of the sleep machine |
| `Scheduler.Schedule.Expire` | NtyCo/core/nty_schedule.c:248-259 | the first sleeper if its key has come, removed from the order; null exactly if nobody is due; this is a step of the sleep machine |
| `SleepOrder.DroppedIff` | NtyCo/core/nty_schedule.c:90-93 | a call for one coroutine drops another sleeper if and only if that one has the stale key |
| `SleepOrder.CollisionDelay` | NtyCo/core/nty_schedule.c:97-106 | collisions postpone a deadline by at most one microsecond per sleeper |
| `SleepOrder.NeverEarly` | NtyCo/core/nty_schedule.c:248-259 | over every run nobody is woken before the deadline it last asked for |
| `SleepOrder.WokenIff` | NtyCo/core/nty_schedule.c:248-259 | somebody is woken exactly if somebody is due, be it this very microsecond; it is the one with the least key and nobody else leaves |
| `SleepOrder.LostIff` | NtyCo/core/nty_schedule.c:87-109 | over every run a call for one coroutine drops another sleeper if and only if the last sleep of the first had zero length and was called at the very microsecond that is the other's key |
| `SleepOrder.LeavesIff` | NtyCo/core/nty_schedule.c:87-109 | over every run a sleeper leaves the tree if and only if it expires, makes a zero-length sleep, or is lost in that way |
| `SleepOrder.SleepersAreSafe` | NtyCo/core/nty_schedule.c:87-109 | if no zero-length sleep is called at the microsecond another sleeper is due, a sleeper leaves only by expiring or by its own zero-length sleep |
| `SleepOrder.SleeperIsLost` | NtyCo/core/nty_schedule.c:87-109 | a run without that condition in which a due sleeper is dropped by another coroutine's call |
| `Scheduler.Schedule.MinTimeout` | NtyCo/core/nty_schedule.c:268-281 | the time to the earliest deadline, zero exactly if somebody is due, the default if nobody sleeps |
| `Scheduler.ConvertedTimeout` | NtyCo/core/nty_schedule.c:290-295 | the converted timeout is well formed, never longer than asked, and exactly the time asked for without its milliseconds from one second on |
| `Scheduler.Schedule.PollTimeout` | NtyCo/core/nty_schedule.c:283-298 | polls with a timeout if and only if nothing is ready and nobody is due, never past the deadline of any sleeper, and exactly until the first deadline, without the milliseconds from one second on; three seconds if nobody sleeps |
| `Scheduler.Schedule.ReadyPass` | NtyCo/core/nty_schedule.c:328-341 | the coroutines queued at the start are resumed in order, each at most once and none that joins meanwhile, up to the first that is marked when its turn comes; the rest stays ahead of those that joined; the queue left is the one the effects of those resumed make |
| `Scheduler.Schedule.Resume` | NtyCo/core/nty_schedule.c:339-339 | a resumed coroutine adds to the end of the queue only coroutines not queued |
| `Scheduler.AdmittedMembers` | NtyCo/core/nty_schedule.c:328-341 | queued after some effects is who was queued before or was enqueued by one of them |
| `Scheduler.AdmittedLast` | NtyCo/core/nty_schedule.c:328-341 | an effect adds its coroutine at the end of the queue, unless it is queued |
| `Scheduler.MarkedLast` | NtyCo/core/nty_schedule.c:334-334 | the last mark of a coroutine stands |
| `Buffers.CopyDown` | Kmuduo/Buffer.h:136-138 | the overlapping forward copy is exact |
| `Buffers.Buffer.constructor` | Kmuduo/Buffer.h:19-27 | an empty buffer with 8 spare and 1024 writable bytes |
| `Buffers.Buffer.Retrieve` | Kmuduo/Buffer.h:55-70 | drops the first bytes; dropping all sets both indices back to 8 |
| `Buffers.Buffer.RetrieveAsString` | Kmuduo/Buffer.h:78-83 | what is returned followed by what is left is what was there |
| `Buffers.Buffer.MakeSpace` | Kmuduo/Buffer.h:123-142 | the readable bytes are unchanged and the room suffices; the array is replaced, with exactly that room, if and only if moving the bytes down to 8 would not do |
| `Buffers.Buffer.EnsureWritableBytes` | Kmuduo/Buffer.h:86-92 | at least that many writable bytes, readable bytes unchanged |
| `Buffers.Buffer.Append` | Kmuduo/Buffer.h:95-100 | the readable bytes grow by the data, whatever moves underneath |
| `Buffers.Buffer.ReadFd` | Kmuduo/Buffer.cc:9-38 | readable bytes followed by what stays in the socket is what was readable followed by what was waiting, for reads that fit, overflow or fail |
| `Buffers.Buffer.WriteFd` | Kmuduo/Buffer.cc:40-48 | offers the readable bytes in order and keeps them |
| `TcpConnections.TcpConnection.ConnectionEstablished` | Kmuduo/TcpConnection.cc:134-142 | the connection is up; streams and interest unchanged |
| `TcpConnections.TcpConnection.ConsumeInput` | Kmuduo/Buffer.h:78-83 | the user takes the first bytes of the input in order |
| `TcpConnections.TcpConnection.Send` | Kmuduo/TcpConnection.cc:54-69 | refused unless connected, otherwise as below |
| `TcpConnections.TcpConnection.SendInLoop` | Kmuduo/TcpConnection.cc:72-131 | accepted bytes, output buffer and write interest after a send, for every answer of the socket |
| `TcpConnections.TcpConnection.HandleWrite` | Kmuduo/TcpConnection.cc:195-224 | accepted bytes and output buffer after a write event; write interest is not withdrawn |
| `TcpConnections.TcpConnection.HandleRead` | Kmuduo/TcpConnection.cc:174-193 | the input buffer grows by what arrived; the end of the stream closes the connection |
| `TcpConnections.TcpConnection.HandleClose` | Kmuduo/TcpConnection.cc:227-236 | disconnected, no interest, buffers unchanged |
| `TcpConnections.TcpConnection.Shutdown` | Kmuduo/TcpConnection.cc:145-161 | in the loop thread: half-closes at once, or leaves that to the write handler |
| `TcpConnections.TcpConnection.ShutdownElsewhere` | Kmuduo/TcpConnection.cc:145-153 | in another thread: the state changes at once, the second half is queued |
| `TcpConnections.TcpConnection.RunShutdown` | Kmuduo/TcpConnection.cc:155-161 | the loop runs a queued second half, which half-closes unless there is write interest |
| `TcpConnections.TcpConnection.ConnectionDestroyed` | Kmuduo/TcpConnection.cc:164-172 | a connected one is closed, others stay as they are |
| `TcpStream.StreamOrder` | Kmuduo/TcpConnection.cc:72-131 | in every run, bytes accepted by the socket followed by the output buffer are the concatenation of all messages neither refused nor faulted |
| `TcpStream.StreamByEvents` | Kmuduo/TcpConnection.cc:72-131 | over every run of a new connection, accepted bytes followed by the output buffer are the messages sent while it was up, except those lost to a peer that was gone before anything stalled |
| `TcpStream.BytesMoved` | Kmuduo/TcpConnection.cc:85-98 | how many bytes each event moves to the socket |
| `TcpStream.StaysInterested` | Kmuduo/TcpConnection.cc:115-130 | in every run a nonempty output buffer has write interest while the connection is open |
| `TcpStream.Drains` | Kmuduo/TcpConnection.cc:195-214 | as many successful write events as there are waiting bytes empty the buffer in order |
| `TcpStream.InputOrder` | Kmuduo/TcpConnection.cc:174-182 | in every run, what the user consumed followed by the input buffer is what arrived |
| `TcpStream.BytesRead` | Kmuduo/TcpConnection.cc:174-182 | what each event adds to the input buffer and what the user takes out of it |
| `TcpStream.HalfClosedByInterest` | Kmuduo/TcpConnection.cc:145-161 | from any state, the write side is closed exactly by the second half of a shutdown without write interest |
| `TcpStream.HalfClosedIff` | Kmuduo/TcpConnection.cc:145-161 | over every run of a new connection, told by the events alone: the write side is closed if and only if the second half of a shutdown comes before any send that was not taken in full, or after the connection was closed |
| `TcpStream.InterestIff` | Kmuduo/TcpConnection.cc:85-130 | over every run of a new connection, told by the events alone: there is write interest if and only if some send on the open connection was not taken in full, the peer being there, and the connection was not closed since |
| `TcpStream.TakenThenShutdown` | Kmuduo/TcpConnection.cc:85-161 | any messages taken in full, then a shutdown, end half closed |
| `TcpStream.NeverHalfClosed` | Kmuduo/TcpConnection.cc:195-214 | once there is write interest, no continuation half-closes the connection before it is closed |
| `TcpStream.DrainedYetOpen` | Kmuduo/TcpConnection.cc:195-214 | for every message: blocked once, then written completely, then shut down, yet not half-closed |
| `BlockPool.Pool.constructor` | kvstore_mpv1.c:15-33 | as many blocks as 4096 holds of the size, at least 16, all free and chained in order; the terminating word is written outside the page if and only if the blocks leave less than 8 bytes |
| `BlockPool.Pool.Alloc` | kvstore_mpv1.c:42-50 | null if and only if every block is outstanding; otherwise a block that was free, and outstanding and free blocks still partition the page |
| `BlockPool.Pool.Free` | kvstore_mpv1.c:53-57 | the block is the next to be handed out, and the partition holds |
| `BlockPool.Pool.Scribble` | kvstore_mpv1.c:41-57 | whatever the owner writes into an outstanding block, link word included, does not disturb the free list |
| `BlockPool.FreeCount` | kvstore_mpv1.c:43-47 | free and outstanding blocks add up to all blocks |
| `BlockPool.BlocksAreDisjoint` | kvstore_mpv1.c:24-31 | blocks do not overlap and lie inside the page |
| `BlockPool.SlotsAreInside` | kvstore_mpv1.c:28-32 | which of the link words lie inside the page: that of every block, and the one after the last block exactly if there is room |
| `BlockPool.ServerPoolOverruns` | kvstore.c:503-508 | the size the server asks for leaves no room for the terminating word |
| `PagePool.SearchFindsNewest` | kvstore_mpv2.c:50-62 | the page found has room and no newer one has |
| `PagePool.FetchedIff` | kvstore_mpv2.c:50-77 | a page is fetched if and only if no page has that much left, and then the range starts 24 bytes into it; otherwise at the free end of a page that has |
| `PagePool.Pool.Alloc` | kvstore_mpv2.c:50-77 | the loop serves the request from that page, or from a new one |
| `PagePool.ServeSoundIff` | kvstore_mpv2.c:50-77 | for every size: a further range stays inside its page and overlaps none if and only if the size is not negative and fits a page |
| `PagePool.RunSoundIff` | kvstore_mpv2.c:50-77 | over every run of requests of any size, all ranges ever granted are inside their pages without overlap if and only if every size is not negative and fits a page |
| `Uring.MovesKeepPending` | io_uring_entry.c:87-93 | submitting, completing and collecting lose and invent no operation |
| `Uring.StepKeepsInv` | io_uring_entry.c:86-129 | every step keeps one operation per connection and the bound on queued entries |
| `Uring.OneOperationEach` | io_uring_entry.c:39-129 | in every state of every run: exactly one accept, exactly one operation for each live connection and none for a freed one, and at most 129 queued entries |
| `Uring.Alternates` | io_uring_entry.c:110-126 | over every run the operations of a connection alternate: after a read that brought data the reply, after anything else a read |
| `Uring.FirstIsRead` | io_uring_entry.c:99-109 | the first operation of a connection is a read |
| `Uring.ConnectionLife` | io_uring_entry.c:99-121 | a connection is opened exactly by an accept that succeeds and freed exactly by a read that brings nothing; a batch holds up to 128 completions |
| `Uring.OperationIsHandled` | io_uring_entry.c:86-129 | from every state every pending operation can be submitted, completed, collected and comes to be handled |
| `Uring.Loop.HandleOne` | io_uring_entry.c:95-127 | one completion is handled by kind and result, through the set_event functions |
| `Uring.Loop.HandleBatch` | io_uring_entry.c:92-128 | a batch is handled completely, in order, each completion with its own result, leaving at most 129 queued entries |

## Left out

- kvstore_array.c: its deletion leaves a hole and shortens the scanned range, so that it agrees with a map only for the last slot; the SET, GET, DEL, MOD and COUNT arms and their replay go with it.
- Tree, table and pool teardown, and out-of-memory branches: memory release and aborts only; allocation always succeeds here.
- Nodes and memory are indices into sequences rather than machine addresses: the model shows which link is written when, not reuse of freed addresses.
- Key and value arguments are sequences of characters without a terminating NUL; missing request tokens are `None` where the code tests for null, and the uninitialised replay buffer is a parameter.
- Torn and failing log writes: a record is appended whole, renames and creation succeed or find no source, and the log can be opened.
- HashTable.Hash: the result is narrowed to `int` in C, which is exact for the table size used.
- SPLAY_NEXT, SPLAY_MIN_MAX and RB_FOREACH_REVERSE: they add no case that Splay, Next and Prev do not have.
- RB_AUGMENT and the climb that calls it after a removal: the macro is empty.
- TAILQ_SWAP, the tracing and checking macros, and the STAILQ, SLIST and LIST families: not used by the ready queue.
- Scheduler.Schedule.Sleepdown: times are unbounded integers, so wrap-around of 64-bit microseconds is not modelled.
- Scheduler.Schedule.Resume: context switching is an arbitrary list of effects; that coroutines enqueue only what is not queued is part of it, because nothing in the library enforces it and the queue is broken otherwise (`TailQueue.InsertTailIff`).
- Recovery.HashRecovery: covers logs whose records fit the line format and have values; for the others see `WalText.RoundTrip`, `WalText.ParseIsReadBack` and, request by request, `Recovery.ServeFaithfulIff`.
- Recovery.TreeRecovery: the same.
- KvServer.Server.TreeRequest: an RSET, or an RMOD of a present key, without a value follows the missing pointer in C and is not modelled.
- The waiting tree and its status bits, `nty_schedule_isdone` and the outer loop of `nty_schedule_run`: the bits are or-ed by number instead of by mask and do not mean what they are called.
- The poller, Channel, thread start and the thread pool: the poller is a nondeterministic step of `EventLoop`.
- TcpConnections.TcpConnection.Send: sends come from the loop thread; a send from another thread binds a raw pointer to the message and is not modelled.
- High-water and write-complete callbacks, which only queue functors, and timestamps, logging, socket options.
- PagePool.Pool.Alloc: where `malloc` puts a page is a parameter; that it lies apart from the others is assumed of `malloc` in the soundness lemmas.
- Uring.Loop.HandleOne: the requests inside a completed read are those of the server model; buffers of a connection are not part of the ring.
- The epoll, HTTP, MySQL, Redis and websocket programs, clients and build files.
