# OrbitCache, verified

OrbitCache caches hot key-value items as packets that circulate through a switch. This project models the five parts of
it whose correctness is not obvious from reading any one function, and proves what they promise.

| Part | Files |
|---|---|
| The server's store: linear hashing that splits or merges buckets as nodes come and go, on half-circular lists | `TommyList`, `NodeSeqs`, `BucketTable`, `BucketLists`, `HashlinSpec`, `HashlinSizes`, `Hashlin`, `HashlinCost`, `KvStore` |
| The switch: one ingress pass over the register arrays, and the protocol between clients, switch, orbit and server | `SwitchSpec`, `RequestTable`, `Switch`, `OrbitProtocol`, `OrbitFreshness`, `OrbitSystem` |
| The stable bottom-up merge sort of linked chains | `SortSpec`, `Chain`, `MergeSort` |
| The two tries | `TriePaths`, `TrieShape`, `KeyedLists`, `TrieInplace`, `TrieSlots`, `TrieCanon`, `Trie` |
| The controller's hot-key round, and the key codec | `Controller`, `KeyCodec` |

`Bits` and `Wrappers` hold shared arithmetic and the optional result. Pointer code is modelled on heap nodes and arrays,
with methods that update them in place. Each class carries ghost state that says what it stands for (`log`, `model`, the
queues of `RequestTable`), every method states its whole effect on that state, and the lemmas prove what that state
means.

What is proved, in short:

* **Store.** At every split position, in every direction of a resize, the table is a multimap in insertion order: a
  search or removal finds the earliest inserted match, and `foreach` visits every node once. `tommy_put`/`tommy_get` are
  a map even when all string hashes collide.
* **Work per operation.** `tommyds/tommyhashlin.h` (lines 38-39) promises insert and delete "taking always the same
  time". A removal merges at most eight pairs in every reachable state. An insertion splits at most four buckets if and
  only if it does not turn a shrinking table around that has merged more than four pairs; otherwise it splits all of
  these again at once. `CostlyInsert` reaches such a table for every size from 128 to 2^29 buckets: with B buckets, one
  insertion splits B/2 - 8 of them.
* **Switch.** The eight slots and three pointers of each key refine a bounded FIFO queue, and no pass touches another
  key's queue. Over every run of the protocol, with any interleaving: no packet is lost or duplicated; a read with q
  requests ahead of it is answered by exactly the (q+1)-st valid pass, at the address it came from; every reply of the
  server goes to the client that asked. All of it holds of many keys that share the registers, and packets of uncached
  keys pass unchanged (`OrbitSystem`).
* **Coherence.** The repository's README.md (lines 36-37) promises that a write invalidates the item until the reply
  brings a new packet. That alone does not keep reads current: `OldPacketServesStale` builds the run in which an old
  packet that has not passed before the reply goes on serving the replaced value, and `OverlappingWritesRun` one with two
  writes in flight. `StaysCurrentIffSettled` gives the exact condition, for every state with any number of overlapping
  writes and fetches: reads stay current until the next update if and only if the state is settled. A state with a write
  on its way to the server is settled when the orbit is empty and that write is the only update in flight; any other
  state is settled when all packets in orbit and all replies in flight carry the server's version, or when the key is
  invalid and nothing in flight can make it valid. For a write reply that arrives while writes overlap at will this means:
  reads stay current if and only if the orbit is empty and no other update is in flight (`ReplyCurrentIffAlone`). In every
  run that keeps one update in flight at a time and drains the orbit before its reply, a valid key has exactly one packet,
  with the server's version (`RunSound`).
* **Sort.** The sort is the stable insertion sort of its input, and that sort is the only sorted arrangement that keeps
  ties in order.
* **Tries.** Both tries are maps from keys to lists in insertion order. The in-place trie keeps that through list-mate
  substitution and leaf promotion. The other one has a tree at a slot exactly when two stored keys share it, so its
  `assert(count == 1)` holds, its `node_count` depends on the key set alone, and `let_back` does not overflow. In
  `tommytrie.c` and `tommytrieinp.c` the first digit repeats bits that the bucket index already used; the paths do the
  same.
* **Controller and codec.** After a round the hot list is a top-k of the cached keys, by their counters, and the reported
  ones; no two hot keys share an index, and a key that stays hot keeps its own. `tostring_key` writes
  (16807 n + 19607) mod 2^64 in fifteen base-62 digits and loses nothing of a 64-bit number.

## Model

| member | source | states |
|---|---|---|
| `TommyList.InsertFirst` | tommyds/tommylist.h:147-156 | the node alone becomes a list whose `prev` ring and `next` chain are closed |
| `TommyList.InsertTailNotEmpty` | tommyds/tommylist.h:184-193 | the list keeps its order and head and ends in the new node, for any list and any node outside it |
| `TommyList.Append` | tommyds/tommylist.h:217-227 | appends to an empty or a non-empty list |
| `TommyList.RemoveExisting` | tommyds/tommylist.h:237-254 | removes exactly the node at its position, first, middle, last or only one, and keeps the order of the others |
| `TommyList.Concat` | tommyds/tommylist.h:263-290 | the lists end to end, with empty ones on either side |
| `BucketTable.SegmentBounds` | tommyds/tommyhashlin.h:215-223 | `ilog2(pos \| 1)` selects an allocated segment and the position lies inside it |
| `BucketTable.OutsideSegment` | tommyds/tommyhashlin.h:215-223 | a position of one segment lies outside every other: distinct positions never alias |
| `BucketTable.BucketTable.constructor` | tommyds/tommyhashlin.c:57-73 | the first six segments share one array of 64 cells |
| `BucketTable.BucketTable.Load` | tommyds/tommyhashlin.h:215-223 | reads the cell of the position through the offset segment |
| `BucketTable.BucketTable.Store` | tommyds/tommyhashlin.h:215-223 | writes that cell and no other position, whatever segment it is in |
| `BucketTable.BucketTable.GrowSegment` | tommyds/tommyhashlin.c:105-116 | a new top segment with unknown contents leaves all lower positions unmoved and unchanged |
| `BucketTable.BucketTable.FreeTopSegment` | tommyds/tommyhashlin.c:230-237 | freeing the top segment leaves the lower half unmoved and unchanged |
| `BucketLists.BucketLists.Push` | tommyds/tommyhashlin.c:247-251 | one bucket gets the node at its end, all others keep their lists |
| `BucketLists.BucketLists.Remove` | tommyds/tommyhashlin.c:258-262 | one bucket loses the node, all others keep their lists |
| `BucketLists.BucketLists.Split` | tommyds/tommyhashlin.c:137-162 | the low bucket is divided by the mask bit, both halves in their old order; the uninitialised high cell is never read |
| `BucketLists.BucketLists.Merge` | tommyds/tommyhashlin.c:217-224 | the last live bucket is appended to its low one; its stale cell is no longer live |
| `HashlinSpec.PositionByMask` | tommyds/tommyhashlin.h:228-252 | the two masks select the live bucket of the hash in a half-split table |
| `HashlinSpec.RefinesSplit` | tommyds/tommyhashlin.c:137-165 | splitting one bucket keeps every node in the bucket its hash addresses, and the order of equal hashes |
| `HashlinSpec.RefinesMerge` | tommyds/tommyhashlin.c:214-224 | merging two buckets does the same, although unlike hashes now share a bucket |
| `HashlinSpec.RefinesDoubled` | tommyds/tommyhashlin.c:46-55 | a table with every bucket split is the stable table of twice the size, and conversely |
| `HashlinSpec.RefinesInsert` | tommyds/tommyhashlin.c:247-251 | appending to the bucket of a hash is appending to the multimap |
| `HashlinSpec.RefinesRemove` | tommyds/tommyhashlin.c:258-289 | taking a node out of its bucket is taking it out of the multimap |
| `HashlinSpec.RefinesMember` | tommyds/tommyhashlin.h:254-265 | a node is stored if and only if it is in the bucket that its hash addresses |
| `HashlinSpec.RefinesFirstMatch` | tommyds/tommyhashlin.h:277-288 | the first match in one bucket is the earliest inserted match of all |
| `NodeSeqs.SelectTwice` | tommyds/tommyhashlin.c:153-162 | the nodes of one hash go to one half of a split, all of them and in order |
| `NodeSeqs.FirstMatchMeaning` | tommyds/tommyhashlin.h:277-288 | a search result is the first matching node, and null means that no stored node matches |
| `Hashlin.Hashlin.constructor` | tommyds/tommyhashlin.c:57-73 | an empty multimap in a stable table of 64 buckets |
| `Hashlin.Hashlin.BucketRef` | tommyds/tommyhashlin.h:228-252 | a position below `low_max + split`: only live buckets are read |
| `Hashlin.Hashlin.SetStable` | tommyds/tommyhashlin.c:46-55 | the stored nodes are found as before in the stable addressing |
| `Hashlin.Hashlin.SplitOne` | tommyds/tommyhashlin.c:137-165 | one split, at any position, loses and reorders nothing |
| `Hashlin.Hashlin.MergeOne` | tommyds/tommyhashlin.c:214-224 | one merge, at any position, loses and reorders nothing |
| `Hashlin.Hashlin.StartGrow` | tommyds/tommyhashlin.c:98-123 | a growing table with nothing split yet holds the same nodes |
| `Hashlin.Hashlin.StartShrink` | tommyds/tommyhashlin.c:191-201 | a shrinking table with nothing merged yet holds the same nodes |
| `Hashlin.Hashlin.TurnAround` | tommyds/tommyhashlin.c:95-123 | reversing a resize half way changes nothing else |
| `Hashlin.Hashlin.FinishShrink` | tommyds/tommyhashlin.c:227-242 | the top segment can go once every pair is merged |
| `Hashlin.Hashlin.SplitUntil` | tommyds/tommyhashlin.c:128-173 | how many buckets are live when the loop ends, and how many splits it took |
| `Hashlin.Hashlin.MergeUntil` | tommyds/tommyhashlin.c:207-243 | how many buckets are live when the loop ends, and how many merges it took |
| `Hashlin.Hashlin.GrowStep` | tommyds/tommyhashlin.c:89-175 | the load invariant is restored; at most four splits outside SHRINK, and from SHRINK either none or all pairs merged so far |
| `Hashlin.Hashlin.ShrinkStep` | tommyds/tommyhashlin.c:180-245 | the load invariant is restored; at most eight merges in every reachable state |
| `Hashlin.Hashlin.StateMachine` | tommyds/tommyhashlin.c:92-123 | between operations: power of two at least 64, the numbers of each state, and the load bounds: at most eight live buckets for each node beyond the first 64, at least two outside SHRINK |
| `Hashlin.Hashlin.Insert` | tommyds/tommyhashlin.c:247-256 | the multimap gets the node at its end; at most four splits if and only if it does not turn a shrinking table around that has merged more than four pairs |
| `HashlinSizes.InsertsOnly` | tommyds/tommyhashlin.c:126-174 | a table that only grew has two live buckets for every node, and never shrinks |
| `HashlinSizes.TurnAroundCost` | tommyds/tommyhashlin.h:38-39 | half full, thinned out to a sixteenth and half full again: for every size from 128 buckets on the next insertion splits all pairs but eight |
| `HashlinCost.CostlyInsert` | tommyds/tommyhashlin.h:38-39 | the same on the table itself: the promised constant time of insertions fails for every size from 128 to 2^29 buckets |
| `Hashlin.Hashlin.RemoveExisting` | tommyds/tommyhashlin.c:258-267 | the multimap loses exactly this node, and its data is returned |
| `Hashlin.Hashlin.Search` | tommyds/tommyhashlin.h:277-288 | the earliest inserted match, if and only if there is a match |
| `Hashlin.Hashlin.Remove` | tommyds/tommyhashlin.c:269-289 | the earliest inserted match leaves, or nothing changes |
| `NodeSeqs.DatasAt` | tommyds/tommyhashlin.c:291-308 | the data visited are those of the nodes, each in its place |
| `Hashlin.Hashlin.Foreach` | tommyds/tommyhashlin.c:291-308 | the function is called with the data of every stored node, once for each node |
| `KvStore.KvStore.PutInit` | header.h:501-514 | one more entry behind the others: a stored key keeps its old value, and keys stay unique if and only if it was new |
| `KvStore.KvStore.Put` | header.h:516-547 | the key has the new value, every other key its old one, under any hash collisions, and no key gets a second node |
| `KvStore.KvStore.Get` | header.h:550-565 | the latest value put for the key |
| `RequestTable.AdmittedAppends` | orbitcache/orbitcache.p4:1035-1045 | filling the rear slot appends to the queue of its key and leaves all other queues alone |
| `RequestTable.ServedTakes` | orbitcache/orbitcache.p4:1061-1070 | the front slot is the oldest request, and clearing it takes that one off the queue |
| `RequestTable.UpdateElsewhere` | orbitcache/orbitcache.p4:920-924 | the slots of different keys are disjoint |
| `RequestTable.FlagKeepsQueues` | orbitcache/orbitcache.p4:587-603 | validity changes leave every queue as it is |
| `RequestTable.PassRegistersView` | orbitcache/orbitcache.p4:1012-1105 | what a pass does to the shared registers is what the queue view says of the packet's key, and nothing for any other key |
| `Switch.SwitchIngress.constructor` | orbitcache/orbitcache.p4:587-603 | a cleared switch: no key valid, all queues empty |
| `Switch.SwitchIngress.IncrQlen` | orbitcache/orbitcache.p4:962-973 | zero exactly for a full table, which stays as it is |
| `Switch.SwitchIngress.DecrQlen` | orbitcache/orbitcache.p4:991-997 | the length before, and never below zero |
| `Switch.SwitchIngress.IncrPointer` | orbitcache/orbitcache.p4:907-918 | the pointer before, advanced around the ring of eight |
| `Switch.SwitchIngress.TakeSlot` | orbitcache/orbitcache.p4:1064-1070 | the packet is addressed with the four fields of one slot, which is cleared |
| `Switch.SwitchIngress.Apply` | orbitcache/orbitcache.p4:1012-1105 | the whole new contents of all eight register arrays, and the fate of the packet, for every packet; `Ingress` spells them out |
| `Switch.SwitchIngress.Ingress` | orbitcache/orbitcache.p4:1012-1105 | where each packet goes and what it does to the queue and the flag of its key, case by case on its fields; a packet of an uncached key is forwarded as it is and changes no register; no other key is touched |
| `OrbitProtocol.StepConserves` | orbitcache/orbitcache.p4:1027-1099 | every pass and delivery keeps: reads are queued or forwarded, never both; queued = admitted - answered; in orbit = accepted - dropped |
| `OrbitProtocol.RunConserves` | orbitcache/orbitcache.p4:1027-1099 | the same over every run, across any invalidations |
| `OrbitProtocol.AnsweredInTurn` | orbitcache/orbitcache.p4:1034-1078 | a read with q requests ahead is answered by exactly the (q+1)-st later valid pass, by a reply to the address, port, sequence number and latency that the client sent |
| `OrbitProtocol.ReadAnswered` | orbitcache/orbitcache.p4:472-476 | from the arriving read: a valid key with room answers it at its own source address and port, in the pass that its place decides |
| `OrbitProtocol.RequestGoesOn` | orbitcache/orbitcache.p4:1034-1059 | a request waits in the table, or goes to the server with all its fields but the two status marks |
| `OrbitProtocol.RunAccounts` | orbitcache/orbitcache.p4:1012-1105 | in every run, each packet that entered was put into the table, is on its way to or from the server, was delivered, or was taken into orbit, and once only |
| `OrbitProtocol.RepliesAddressed` | server.c:284-336 | in every run from the start, replies under way and delivered carry the address, port, key, sequence number and stamp of the client that asked |
| `OrbitProtocol.ReplyPasses` | orbitcache/orbitcache.p4:1092-1105 | the switch hands a reply on as it is, whether or not a copy goes into orbit |
| `OrbitProtocol.RunTimely` | server.c:284-336 | replies forwarded from the server carry a version between the request's and the delivery's, in every run |
| `OrbitProtocol.StepSound` | orbitcache/orbitcache.p4:1060-1099 | every step under the two rules keeps: a valid key has one packet in orbit, with the server's version |
| `OrbitProtocol.RunSound` | orbitcache/orbitcache.p4:1060-1099 | conditional coherence over all runs: every answer from orbit was current when it was given |
| `OrbitProtocol.StartSound` | orbitcache/orbitcache.p4:1014-1015 | the invariant holds of the cleared switch |
| `OrbitProtocol.OldPacketServesStale` | README.md:36-37 | an old packet that the reply overtakes goes on serving the replaced value: the run is given, and all its later steps keep the rules |
| `OrbitProtocol.OvertakingRun` | README.md:36-37 | such a state is reachable from the start although all earlier steps keep the rules |
| `OrbitProtocol.OverlappingWritesRun` | README.md:36-37 | two writes in flight serve a stale value even with a drained orbit: the run is given |
| `OrbitProtocol.InvalidDrains` | orbitcache/orbitcache.p4:1080 | while the key is invalid, one pass per packet empties the orbit and changes nothing else |
| `OrbitFreshness.RunSettled` | orbitcache/orbitcache.p4:1027-1099 | from a settled state, every run without a new update serves only the current version from orbit |
| `OrbitFreshness.WritingUnsettled` | README.md:36-37 | with a write on its way, any packet in orbit or second update in flight leads to a stale answer: the run is given |
| `OrbitFreshness.WaitingUnsettled` | README.md:36-37 | without one, so does any old packet or reply that is or can become valid: the run is given |
| `OrbitFreshness.StaysCurrentIffSettled` | README.md:36-37 | the exact condition: reads stay current until the next update if and only if the state is settled, for every state and any overlap of updates |
| `OrbitFreshness.RunStaysCurrentIff` | README.md:36-37 | the same after every run from the start, with writes, fetches and seeds in any order |
| `OrbitFreshness.RunVersioned` | orbitcache/orbitcache.p4:1085-1099 | in every run in which writes overlap at will, versions in flight stay distinct and the server's version is where it can be found |
| `OrbitFreshness.ReplyCurrentIffAlone` | README.md:36-37 | a write reply keeps reads current if and only if no packet is in orbit and no other update is in flight, however writes overlap |
| `OrbitFreshness.ReplyCoherentIffDrained` | README.md:36-37 | with one update at a time: reads stay current after its reply if and only if no old packet is in orbit |
| `OrbitSystem.SystemStepLinked` | orbitcache/orbitcache.p4:1018 | a pass over the registers that all keys share is a step of the packet's own key and of no other; a packet of an uncached key changes no register and no key and is passed on |
| `OrbitSystem.SystemProjects` | orbitcache/orbitcache.p4:1018 | every interleaving over the shared registers is, key by key, a run of that key, whose queue and flag the registers hold at the end |
| `OrbitSystem.SystemConserves` | orbitcache/orbitcache.p4:1027-1099 | from cleared registers, conservation and order hold of every key in every interleaving |
| `OrbitSystem.SystemSound` | orbitcache/orbitcache.p4:1060-1099 | a key that keeps the rules is coherent, whatever happens to the other keys |
| `OrbitSystem.SystemForwards` | orbitcache/orbitcache.p4:1056-1099 | in every run the packets of uncached keys are passed on as they are, in their order, and no others |
| `SortSpec.InsertionSortSorts` | tommyds/tommychain.h:144-156 | the reference result is sorted and a permutation, for every total preorder |
| `SortSpec.InsertionSortStable` | tommyds/tommychain.h:144-156 | nodes that compare equal keep their order |
| `SortSpec.SortedTiesUnique` | tommyds/tommychain.h:144-156 | only one arrangement is sorted and stable |
| `SortSpec.MergedSorts` | tommyds/tommychain.h:86-113 | merging two sorted runs gives the stable sort of the runs side by side |
| `SortSpec.MergedInOrder` | tommyds/tommychain.h:121-126 | the first shortcut gives what merging would |
| `SortSpec.MergedReversed` | tommyds/tommychain.h:128-134 | so does the second one, because it is strict |
| `Chain.Merge` | tommyds/tommychain.h:86-113 | in place, the chain of the stable merge, all inner links of both directions set |
| `Chain.MergeDegenerated` | tommyds/tommychain.h:119-137 | on sorted chains the same chain as merging |
| `MergeSort.Carry` | tommyds/tommychain.h:190-195 | an older run absorbs the carry in front of it |
| `MergeSort.CarryFits` | tommyds/tommychain.h:197-201 | with fewer than 2^32 nodes the carry stops inside the array, at an empty bucket |
| `MergeSort.AddNode` | tommyds/tommychain.h:181-201 | after n nodes, bucket i holds a sorted run of 2^i consecutive nodes exactly for the set bits of n, higher bits earlier |
| `MergeSort.LowestRun` | tommyds/tommychain.h:209-210 | the lowest set bit is the first bucket in use |
| `MergeSort.CollectOne` | tommyds/tommychain.h:211-218 | the collected run and the higher buckets are the whole input |
| `MergeSort.Sort` | tommyds/tommychain.h:156-221 | the chain of the stable sort of the input |
| `MergeSort.ListSort` | tommyds/tommylist.c:41-59 | a well-formed list of the stable sort, also for the empty list |
| `TriePaths.FullPath` | tommyds/tommytrie.c:123-150 | after all digits the path is the whole key: distinct keys separate before the shift drops below zero |
| `TrieShape.Separates` | tommyds/tommytrieinp.c:111-115 | a foreign key on the way means that there are digits left |
| `TrieShape.ShapeInsert` | tommyds/tommytrieinp.c:117-120 | the first free slot on a key's way keeps the prefix invariant |
| `TrieShape.ShapePromote` | tommyds/tommytrieinp.c:182-212 | the key of a leaf may move up to any slot above it |
| `TrieInplace.FreshOk` | tommyds/tommytrieinp.c:117-120 | writing one pointer for a fresh key keeps every pointer of the trie right |
| `TrieInplace.SubstituteOk` | tommyds/tommytrieinp.c:172-180 | a list mate that takes over slot and branches keeps every pointer right |
| `TrieInplace.PromoteOk` | tommyds/tommytrieinp.c:202-212 | so does a leaf that leaves its slot and takes over another |
| `TrieInplace.TrieInplace.Walk` | tommyds/tommytrieinp.c:111-115 | the loop ends at the key's own list, or at the first empty slot on its way if the key is not stored; the digits suffice |
| `TrieInplace.TrieInplace.Bucket` | tommyds/tommytrieinp.c:250-264 | the list of all and only the nodes with the key, in insertion order |
| `TrieInplace.TrieInplace.Insert` | tommyds/tommytrieinp.c:106-143 | the key's list gets the node at its end, all other keys keep theirs |
| `TrieInplace.TrieInplace.FindLeaf` | tommyds/tommytrieinp.c:182-196 | a node without branches at or below the removed one, with the pointer to it |
| `TrieInplace.TrieInplace.Vacate` | tommyds/tommytrieinp.c:182-212 | when the last node of a key goes, the trie of the other keys is whole again |
| `TrieInplace.TrieInplace.BucketRemove` | tommyds/tommytrieinp.c:145-213 | exactly the given node, or the first of the key, leaves; no other node is lost, whatever is substituted or promoted |
| `TrieInplace.TrieInplace.Remove` | tommyds/tommytrieinp.c:215-230 | the first node of the key leaves, or nothing changes |
| `TrieInplace.TrieInplace.RemoveExisting` | tommyds/tommytrieinp.c:232-248 | the given node leaves, and the one taken out is the one passed |
| `TrieSlots.WriteSlot` | tommyds/tommytrie.c:101-106 | a slot written with what the keys say leaves every other slot right |
| `TrieCanon.WaysSeparate` | tommyds/tommytrie.c:133-150 | two distinct keys of one bucket differ in a digit |
| `TrieCanon.GrowDeeper` | tommyds/tommytrie.c:147-150 | after a tree on a common digit, the missing trees are all below the next slot |
| `TrieCanon.GrowDone` | tommyds/tommytrie.c:137-145 | when the digits differ, trees stand exactly where two keys share a slot |
| `TrieCanon.ShrinkBlocked` | tommyds/tommytrie.c:225-235 | a shared slot on the way up means that no tree is superfluous |
| `TrieCanon.ShrinkStep` | tommyds/tommytrie.c:240-247 | freeing a tree whose slot is not shared leaves the superfluous ones above it only |
| `TrieCanon.LastChild` | tommyds/tommytrie.c:237-240 | a tree with at most one list has exactly one, and it is what belongs into the tree's slot |
| `TrieCanon.TreesOfKeys` | tommyds/tommytrie.c:216-249 | which trees exist depends on the keys alone |
| `Trie.Trie.Walk` | tommyds/tommytrie.c:98-115 | the walk ends at an empty slot or a list, before the digits run out, and tells whether the key is stored |
| `Trie.Trie.Bucket` | tommyds/tommytrie.c:287-316 | the list of all and only the nodes with the key, in insertion order |
| `Trie.Trie.Expand` | tommyds/tommytrie.c:123-150 | expansion terminates with both keys in place and no tree too many or too few |
| `Trie.Trie.Insert` | tommyds/tommytrie.c:153-165 | the key's list gets the node at its end, all other keys keep theirs |
| `Trie.Trie.WalkBack` | tommyds/tommytrie.c:172-198 | the stack of LEVEL_MAX + 1 pointers holds the whole way |
| `Trie.Trie.CountChildren` | tommyds/tommytrie.c:222-235 | a sub tree or a second list keeps the tree; otherwise the last child is the only one |
| `Trie.Trie.Reduce` | tommyds/tommytrie.c:212-249 | all superfluous trees are freed and no other, and `assert(count == 1)` holds |
| `Trie.Trie.BucketRemove` | tommyds/tommytrie.c:167-250 | exactly the given node, or the first of the key, leaves, and the shape is canonical again |
| `Trie.Trie.Remove` | tommyds/tommytrie.c:252-267 | the first node of the key leaves, or nothing changes |
| `Trie.Trie.RemoveExisting` | tommyds/tommytrie.c:269-285 | the given node leaves, and the one taken out is the one passed |
| `Trie.Trie.NodeCount` | tommyds/tommytrie.c:318-322 | `node_count` is the number of slots that two stored keys share |
| `Trie.Trie.InsertAndRemove` | tommyds/tommytrie.c:153-285 | a fresh key that comes and goes restores the map and `node_count` |
| `Controller.HeapTop` | orbitcache/controller.py:739-741 | the least entry by popularity, then key |
| `Controller.TopKAdd` | orbitcache/controller.py:715-718 | taking a free place keeps the top-k property |
| `Controller.TopKReplace` | orbitcache/controller.py:739-759 | evicting the least for a more popular key keeps it |
| `Controller.TopKRefuse` | orbitcache/controller.py:738-739 | refusing a key that is no more popular than the least keeps it |
| `Controller.FreeIndex` | orbitcache/controller.py:65-72 | while a place is free the exception cannot be raised |
| `Controller.Controller.GetNextIndex` | orbitcache/controller.py:65-72 | the least free index leaves the free set, or the exception |
| `Controller.Controller.AddHot` | orbitcache/controller.py:715-724 | the new hot key takes the least free index for its own, and all other keys keep theirs |
| `Controller.Controller.Replace` | orbitcache/controller.py:739-766 | the new key takes over the index of the evicted one, all others keep theirs; it is still exclusive, although it was put back into the free set |
| `Controller.Controller.Consider` | orbitcache/controller.py:713-766 | after every reported key: a top-k of the candidates so far, exclusive indexes, unchanged for keys that stay, no fewer hot keys |
| `Controller.ScoresMeaning` | orbitcache/controller.py:698-714 | the candidates are the cached and the reported keys and no others; a cached key counts by its counter, even if it is reported too |
| `Controller.Controller.Rank` | orbitcache/controller.py:667-803 | a full round ends with a top-k of the candidates' popularities |
| `Controller.Controller.Round` | orbitcache/controller.py:667-803 | a full round, on the counters and reports themselves: hot keys come from the old list and the reports, with their own popularity and, if old, their own index; a key is left out only if the list is full and every hot key is at least as popular; the lookup table holds exactly the hot keys |
| `KeyCodec.RoundsBijective` | header.h:701-707 | any number of rounds is a bijection of the 64-bit words, with its inverse |
| `KeyCodec.ComplexTransform` | header.h:701-707 | the loop computes (16807 n + 19607) mod 2^64 |
| `KeyCodec.DigitsValue` | header.h:713-717 | enough base-62 digits determine the number |
| `KeyCodec.ToStringKey` | header.h:709-718 | the buffer holds the fifteen base-62 digits of (16807 n + 19607) mod 2^64, each in its place, and the terminator |
| `KeyCodec.DecodeKey` | header.h:709-718 | a decoder recovers every 64-bit number from its key |
| `KeyCodec.KeysDistinct` | header.h:709-718 | distinct numbers have distinct keys |

## Left out

- Hashlin.Hashlin.Insert: fewer than 2^29 nodes are stored, because the code computes `8 * count` in 32 bits; allocation always succeeds; hashes are natural numbers, of which the 32-bit ones are a part.
- BucketTable.BucketTable.GrowSegment: the address computed in front of the allocated segment is modelled as a base and an offset, not as pointer arithmetic.
- Trie.Trie.Insert: the allocator is abstract, so the block carving of `tommyalloc.c` is not modelled; the tag bit of a pointer is a datatype with three cases, and the branches of a tree are a sequence in its field.
- TrieInplace.TrieInplace.Insert: the nodes of the in-place trie share one class with the list nodes, with one more field for the branches; the four branches are a sequence in that field.
- Switch.SwitchIngress.Ingress: statistics counters, MAC rewriting, checksums and the choice of the multicast group are left out; every client address has a forwarding entry, and two cached keys never have the same key hash.
- OrbitFreshness.RunVersioned: runs with fetches are covered by `RunStaysCurrentIff` only, because a fetch reply may carry the same version as another reply.
- OrbitProtocol.RunSound: the set of cached keys does not change during a run, values are version numbers, and a fetch or seed happens only for a key that is not being served; retransmission by the controller is left out.
- Controller.Controller.Round: the heap is the map from its keys to their popularity, and keys are numbers; sockets, fetch threads, `fetching_keys` and the printed statistics are left out.
- KvStore.KvStore.Put: a new key needs fewer than 2^29 - 1 stored nodes, as the table does; values are replaced as wholes, so freeing the old buffer is not modelled; `EXTRA_WORK` is left out.
- `tommy_hashlin_done`, `tommy_hashlin_memory_usage`, the array containers, `tommyhashdyn.c`, `tommyhashtbl.c` and `netcache/` are simpler relatives of what is modelled.
- `updateTopK` in `header.h` is left out: a new entry is sifted down from a leaf only, so its array is not a heap.
- Sockets, threads, clocks, pacing, log files and the sampling of workloads in `client.c`, `server.c` and `preload.c` are left out.
