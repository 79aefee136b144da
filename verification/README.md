# Verified models of PTAuth's core algorithms

This project models, in Dafny, the algorithms of the PTAuth repository whose bodies are in it: the
LLVM ADT headers that its pass uses and the runtime's software pointer authentication. Each
component that changes state in place is a class with the source's fields, loops and branches; its
methods are proved against functions or invariants stated on values, and the promises of the
headers' comments are proved about those. `dafny verify dfyconfig.toml` checks everything.

## Components

| files | models |
|---|---|
| Collections | what several modules share |
| Graphs, DepthFirst, SccIterator, PostOrder, BreadthFirst | the three suspended graph iterators: Tarjan's components, depth-first post-order, breadth-first with level markers; and the recursive searches whose order they keep |
| Probing, DenseMap | triangular probing, tombstones, growth and rehashing |
| AvlTree, AvlStore, AvlIterator | the immutable AVL trees as functions, their nodes as memory cells, the in-order iterator and the comparisons that use it |
| AvlHeap, AvlChains, AvlInvariant, AvlGrowth, AvlRecover, AvlCanonical, AvlFactory, AvlHistory | the factory: reference counts, the canonical table with its doubly linked chains, creation, marking, sweeping, hash-consing, and whole runs of a client |
| NodeMoves, SiblingSizes, IntervalLeaf, IntervalTree, IntervalOverlaps | interval map nodes: moves, redistribution, coalescing insertion, B+-tree lookup, overlap enumeration |
| EquivalenceClasses | union-find with the two overloaded pointers per node |
| Hashing | the contiguous, buffered and recursive hash drivers |
| BitWords, BitVectors | words as bits, and the bit vector's searches, range writes, resizing, shifts and masks |
| PtrAuth | signing, authenticating and the backward search of the runtime |

Counters are naturals where the source assumes they do not overflow: fewer than 2^32 - 1 graph
nodes, at most 2^29 buckets before an insertion. Words are bit-vectors in BitWords, BitVectors and
PtrAuth, and digests are added modulo 2^32. Hash functions, and the mixing steps of the hash state,
are arbitrary functions.

## What the code does differently from its comments

- `add` and `remove` of the AVL factory promise to return the original tree when nothing changes
  (`pass/instrument/llvm/ADT/ImmutableSet.h:535-537`, `554-557`). `add` never does: `AvlFactory.Add`
  always gives a node that was not there. `remove` does so for the empty tree only: for an absent key
  in any other tree `AvlFactory.Remove` gives a new node. It builds nothing exactly when there is no
  tree, or the root has the key and an empty side; then it gives the other side. On a canonicalizing
  factory the canonical tree restores the promise: the clauses of `SetAdd` and `SetRemove` that end in
  `r == root`.
- `validateTree` parenthesizes its last assertion wrongly
  (`pass/instrument/llvm/ADT/ImmutableSet.h:210-213`). The model's order invariant is the mirror of
  the assertion before it, for all elements.
- `shrink_and_clear` hands a bucket count to `init`, which expects an entry count
  (`pass/instrument/llvm/ADT/DenseMap.h:745-760`): see `DenseMaps.ShrinkNeverGrows`.
- A leaf's comment demands `stopLess(start(i), stop(i))` of an interval
  (`pass/instrument/llvm/ADT/IntervalMap.h:553`), which a closed interval of one point does not meet.
  The code's own assertions only exclude inverted intervals, and so does the model.
- `adjustSiblingSizes` with no nodes at all would index element -1
  (`pass/instrument/llvm/ADT/IntervalMap.h:340-344`); the model requires at least one.
- The buffered hash asserts that a full buffer ends exactly at its end
  (`pass/instrument/llvm/ADT/Hashing.h:413`). For items whose size does not divide 64 it fails as soon
  as they do not fit: `Hashing.HashIterator` has the exact condition, and `Hashing.HashSixPairs` an
  input, six items of 12 bytes.
- The loop of `backward_search` (`pass/instrument/ptauth-rtlib.c:88-92`) cannot reach its threshold from
  a stripped address below 1023: the signed remainder makes it jump back to address 0. It ends if and
  only if there are 1023 addresses below, or a candidate hits or cannot be read: `PtrAuth.EndsIff`. A
  program that cannot read address 0 faults there before any repetition: `PtrAuth.NullStops`.
  `PtrAuth.EndlessSearch` and `PtrAuth.FaultingSearch` are the search from address 16 in memory
  without ids, the one with address 0 readable, the other without.
- `EquivalenceClasses` assigned to itself empties itself: `Assign`.

## Model

| member | source | states |
|---|---|---|
| SccIterator.AllComponents | pass/instrument/llvm/ADT/SCCIterator.h:226-228 | running the iterator to its end yields every node reachable from the entry exactly once, each yielded vector is a strongly connected component, and no edge leads from a component to a later one; components come in the order in which a recursive search, children from first to last, leaves their roots, each listing its nodes from the last entered to the first |
| SccIterator.SccIter.Begin | pass/instrument/llvm/ADT/SCCIterator.h:93-104 | the state after the first component; the history of yields is the one component found |
| SccIterator.SccIter.DFSVisitOne | pass/instrument/llvm/ADT/SCCIterator.h:143-153 | the new visit number, stack entry and frame, as the abstract step has them |
| SccIterator.SccIter.DFSVisitChildren | pass/instrument/llvm/ADT/SCCIterator.h:155-172 | suspending after the last child of the top frame keeps Tarjan's invariant and leaves every child of the top numbered |
| SccIterator.SccIter.GetNextSCC | pass/instrument/llvm/ADT/SCCIterator.h:175-210 | one resumption yields one new component and extends the ordered history, or ends with exactly the reachable nodes yielded |
| SccIterator.SccIter.PopTop | pass/instrument/llvm/ADT/SCCIterator.h:180-193 | popping a frame hands its low-link to its parent and nothing else |
| SccIterator.SccIter.TakeComponent | pass/instrument/llvm/ADT/SCCIterator.h:199-208 | the nodes above the root on the node stack move to the result, each marked as yielded |
| SccIterator.SccIter.IsAtEnd | pass/instrument/llvm/ADT/SCCIterator.h:109-112 | the end is reached when both the visit stack and the current component are empty |
| SccIterator.SccIter.Next | pass/instrument/llvm/ADT/SCCIterator.h:118-121 | the whole invariant and the ordering of all yields survive suspension and resumption |
| SccIterator.HasLoop | pass/instrument/llvm/ADT/SCCIterator.h:212-223 | true exactly when some edge stays inside the component; its size is only a shortcut |
| SccIterator.SeenChildKeeps | pass/instrument/llvm/ADT/SCCIterator.h:159-170 | meeting a numbered child keeps the invariant with the low-link lowered to its number |
| SccIterator.NewChildKeeps | pass/instrument/llvm/ADT/SCCIterator.h:163-167 | starting a visit keeps the invariant: segments of the node stack belong to frames, every open node reaches down and is reached from below |
| SccIterator.PopKeeps | pass/instrument/llvm/ADT/SCCIterator.h:186-196 | popping a frame that is no root keeps the invariant, its segment joining the parent's |
| SccIterator.ReachesParent | pass/instrument/llvm/ADT/SCCIterator.h:186-196 | a finished frame whose low-link is smaller than its number reaches its parent |
| SccIterator.SegmentIsSCC | pass/instrument/llvm/ADT/SCCIterator.h:195-208 | when low-link and number agree, the nodes from the root up reach each other |
| SccIterator.SegmentMaximal | pass/instrument/llvm/ADT/SCCIterator.h:195-208 | and no node outside that segment reaches and is reached from it: the component is maximal |
| SccIterator.YieldKeeps | pass/instrument/llvm/ADT/SCCIterator.h:199-208 | marking the component with the reserved number keeps the invariant of the rest |
| SccIterator.YieldExtendsHistory | pass/instrument/llvm/ADT/SCCIterator.h:15-16 | a yielded component has edges only to itself and to components yielded before it |
| SccIterator.EndCoversReachable | pass/instrument/llvm/ADT/SCCIterator.h:109-112 | with the stacks empty, the yielded nodes are exactly the reachable ones |
| SccIterator.YieldStepTracks | pass/instrument/llvm/ADT/SCCIterator.h:195-208 | a yielded component has its nodes in the reverse order of entering, and its root is left after the roots of the components before it |
| PostOrder.Initialize | pass/instrument/llvm/ADT/PostOrderIterator.h:287-304 | the block list is the post-order of a recursive search that takes children from first to last; it has each reachable node once, and every edge u to v with v listed after u lies on a cycle |
| PostOrder.ReversePostOrderTopological | pass/instrument/llvm/ADT/PostOrderIterator.h:261-276 | the reverse list is a topological order if and only if no reachable node lies on a cycle |
| PostOrder.CycleBreaksOrder | pass/instrument/llvm/ADT/PostOrderIterator.h:261-276 | no order at all is topological when two reachable nodes reach each other |
| PostOrder.PoIter.Begin | pass/instrument/llvm/ADT/PostOrderIterator.h:107-122 | the start state for internal storage and for external storage, which prunes the nodes visited before |
| PostOrder.PoIter.TraverseChild | pass/instrument/llvm/ADT/PostOrderIterator.h:127-136 | the descent stops at a node without unvisited children and keeps the invariant |
| PostOrder.PoIter.Current | pass/instrument/llvm/ADT/PostOrderIterator.h:156-156 | the node the iterator stands on is reachable, was not output before, and each of its children has been output or reaches it |
| PostOrder.PoIter.Next | pass/instrument/llvm/ADT/PostOrderIterator.h:164-170 | one step outputs the current node; at the end the output is what the entry reaches outside the pruned nodes |
| PostOrder.ChildStepKeeps | pass/instrument/llvm/ADT/PostOrderIterator.h:127-136 | taking a child, seen or not, keeps: the stack is a path, output nodes have all children visited, edges forward in the output close cycles |
| PostOrder.PopStepKeeps | pass/instrument/llvm/ADT/PostOrderIterator.h:164-170 | outputting a finished node keeps the post-order property |
| PostOrder.EndCoversReachable | pass/instrument/llvm/ADT/PostOrderIterator.h:143-151 | with the stack empty the output is the reachable set |
| PostOrder.ChildStepTracks | pass/instrument/llvm/ADT/PostOrderIterator.h:127-136 | taking the next child, new or seen, goes on as the recursive search does |
| DepthFirst.FirstChildFirst | pass/instrument/llvm/ADT/PostOrderIterator.h:127-136 | on node 0 with the children 1 and 2 the post-order is 1, 2, 0 and the order of entering 0, 1, 2 |
| DepthFirst.VisitLists | pass/instrument/llvm/ADT/PostOrderIterator.h:107-172 | the recursive search lists every node it enters once, in both orders |
| DepthFirst.RestNew | pass/instrument/llvm/ADT/PostOrderIterator.h:127-136 | a stack with a new child on top does what the recursive search still does |
| BreadthFirst.Traverse | pass/instrument/llvm/ADT/BreadthFirstIterator.h:111-146 | each reachable node is visited once, in order of level, and its level is its shortest distance from the entry; within a level nodes come in the order of their first parent and then of its children |
| BreadthFirst.BfIter.Begin | pass/instrument/llvm/ADT/BreadthFirstIterator.h:67-74 | the entry and one level marker in the queue, at level 0 |
| BreadthFirst.BfIter.Current | pass/instrument/llvm/ADT/BreadthFirstIterator.h:126-144 | the level reported with the current node is its shortest distance |
| BreadthFirst.BfIter.ToNext | pass/instrument/llvm/ADT/BreadthFirstIterator.h:78-108 | the loop over the children and the marker handling keep exactly one marker while a node remains; the level grows by at most one |
| BreadthFirst.AddChildKeeps | pass/instrument/llvm/ADT/BreadthFirstIterator.h:87-92 | an unvisited child joins the next level |
| BreadthFirst.PassHeadKeeps | pass/instrument/llvm/ADT/BreadthFirstIterator.h:93-107 | a finished head passes, and a finished level makes the next one current |
| BreadthFirst.QueuePass | pass/instrument/llvm/ADT/BreadthFirstIterator.h:93-107 | how the marker moves in the queue when the head passes |
| BreadthFirst.ShortPathsFound | pass/instrument/llvm/ADT/BreadthFirstIterator.h:84-92 | every node on a path of at most the current level's length has been found in time |
| BreadthFirst.FoundAtShortest | pass/instrument/llvm/ADT/BreadthFirstIterator.h:144-144 | the recorded distance of a visited or current node is the shortest one |
| BreadthFirst.EndCoversReachable | pass/instrument/llvm/ADT/BreadthFirstIterator.h:119-131 | when the queue is empty the visited nodes are the reachable ones |
| BreadthFirst.AddChildTracks | pass/instrument/llvm/ADT/BreadthFirstIterator.h:86-92 | looking at the next child goes on as the listing level by level does |
| BreadthFirst.FirstParentFirst | pass/instrument/llvm/ADT/BreadthFirstIterator.h:86-92 | the order on a graph of five nodes |
| Probing.AtInjective | pass/instrument/llvm/ADT/DenseMap.h:590-620 | two different probe numbers below the table size meet different buckets, since the difference of triangular numbers is never a multiple of a power of two |
| Probing.ProbingVisitsAll | pass/instrument/llvm/ADT/DenseMap.h:590-620 | probing by 1, 2, 3, … visits every bucket of a power-of-two table within as many probes as it has buckets |
| Probing.AtStep | pass/instrument/llvm/ADT/DenseMap.h:617-619 | adding the next probe amount and masking gives the next triangular position |
| Probing.NextPowerOf2Spec | pass/instrument/llvm/ADT/DenseMap.h:352-359 | the least power of two above its argument |
| Probing.NextPowerOf2Double | pass/instrument/llvm/ADT/DenseMap.h:352-359 | for a power of two s from 4 on, the bucket count for s entries is 2s |
| DenseMaps.DenseMap.LookupBucketFor | pass/instrument/llvm/ADT/DenseMap.h:568-621 | terminates on every valid table; finds the key's bucket, or else the first tombstone or empty bucket on the probe path |
| DenseMaps.DenseMap.Lookup | pass/instrument/llvm/ADT/DenseMap.h:171-178 | the map's value for the key, or none |
| DenseMaps.DenseMap.InsertIntoBucket | pass/instrument/llvm/ADT/DenseMap.h:529-566 | the map gains the key; the table doubles, from 64 on, when 3/4 would be reached, is rehashed when at most an eighth would stay empty, and else stays the same one; an eighth of it stays empty |
| DenseMaps.DenseMap.TryEmplace | pass/instrument/llvm/ADT/DenseMap.h:206-222 | inserts exactly when the key is absent, and otherwise changes nothing |
| DenseMaps.DenseMap.Store | pass/instrument/llvm/ADT/DenseMap.h:297-308 | the map with the key bound to the value |
| DenseMaps.DenseMap.Erase | pass/instrument/llvm/ADT/DenseMap.h:268-277 | the map without the key, counts exact; true exactly when it was there |
| DenseMaps.DenseMap.Grow | pass/instrument/llvm/ADT/DenseMap.h:728-743 | rehashing keeps the map and the entry count and leaves no tombstone |
| DenseMaps.DenseMap.MoveEntry | pass/instrument/llvm/ADT/DenseMap.h:361-384 | moving one old bucket adds its entry, if it is live, exactly once |
| DenseMaps.DenseMap.Reserve | pass/instrument/llvm/ADT/DenseMap.h:100-106 | keeps the map; the table is at least the size that holds the entries |
| DenseMaps.DenseMap.Clear | pass/instrument/llvm/ADT/DenseMap.h:107-133 | empties the map; the bucket count afterwards, shrinking included |
| DenseMaps.DenseMap.AllocateEmpty | pass/instrument/llvm/ADT/DenseMap.h:718-726 | a table of empty buckets represents the empty map |
| DenseMaps.DenseMap.constructor | pass/instrument/llvm/ADT/DenseMap.h:661-661 | the empty map, with room for the reserved entries |
| DenseMaps.AbsentKey | pass/instrument/llvm/ADT/DenseMap.h:600-609 | reaching an empty bucket proves the key absent: a live key has no empty bucket before it on its probe path |
| DenseMaps.FirstFreeMeans | pass/instrument/llvm/ADT/DenseMap.h:600-615 | the bucket a failed lookup gives is on the probe path, and every bucket before it is live |
| DenseMaps.SomeEmpty | pass/instrument/llvm/ADT/DenseMap.h:535-554 | a table with exact counts that keep the growth rules has an empty bucket, so every probe sequence ends |
| DenseMaps.WriteLive | pass/instrument/llvm/ADT/DenseMap.h:556-565 | writing an entry into the first free bucket keeps placement, contents and counts, a reused tombstone included |
| DenseMaps.WriteTombstone | pass/instrument/llvm/ADT/DenseMap.h:268-277 | turning a live bucket into a tombstone keeps placement and counts and removes the one key |
| DenseMaps.GrowthFits | pass/instrument/llvm/ADT/DenseMap.h:543-554 | after either kind of growth an eighth of the new table stays empty |
| DenseMaps.GrownSizeOk | pass/instrument/llvm/ADT/DenseMap.h:728-735 | the grown size is the request, at least 64 |
| DenseMaps.ReserveSuffices | pass/instrument/llvm/ADT/DenseMap.h:350-359 | a table of the reserved size takes that many entries without growing |
| DenseMaps.MinBucketsMeans | pass/instrument/llvm/ADT/DenseMap.h:350-359 | the bucket count for a number of entries is the least power of two above four thirds of them |
| DenseMaps.ShrunkMeans | pass/instrument/llvm/ADT/DenseMap.h:745-752 | the count a cleared table shrinks to: a power of two, at least 64 and twice the entries, and no larger than needed |
| DenseMaps.ShrinkNeverGrows | pass/instrument/llvm/ADT/DenseMap.h:745-760 | shrink_and_clear passes a bucket count to init, which takes it for an entry count and doubles it: the table never grows, and keeps its size exactly when that count is half of it |
| AvlTree.RotateRightOk | pass/instrument/llvm/ADT/ImmutableSet.h:498-513 | an imbalance of 3 to the left is repaired at the old height or one more; the left grandchild stays a subtree of the root exactly when it is at least as high as the right one |
| AvlTree.RotateLeftOk | pass/instrument/llvm/ADT/ImmutableSet.h:515-530 | the mirror image |
| AvlTree.BalanceTreeElems | pass/instrument/llvm/ADT/ImmutableSet.h:494-533 | rebalancing keeps the elements and their order, whatever the heights |
| AvlTree.BalanceTreeShape | pass/instrument/llvm/ADT/ImmutableSet.h:494-533 | rebalancing an imbalance of at most 3 gives a balanced tree of the expected height |
| AvlTree.AddElems | pass/instrument/llvm/ADT/ImmutableSet.h:538-552 | add_internal is insertion into the sorted sequence |
| AvlTree.AddShape | pass/instrument/llvm/ADT/ImmutableSet.h:538-552 | add_internal keeps children within 2 of each other and grows the height by at most one |
| AvlTree.AddOk | pass/instrument/llvm/ADT/ImmutableSet.h:186-207 | add keeps the whole invariant: heights, balance, strict order |
| AvlTree.RemoveMinElems | pass/instrument/llvm/ADT/ImmutableSet.h:587-595 | removeMinBinding splits off the first element |
| AvlTree.RemoveMinShape | pass/instrument/llvm/ADT/ImmutableSet.h:587-595 | and lowers the height by at most one |
| AvlTree.CombineTreesElems | pass/instrument/llvm/ADT/ImmutableSet.h:577-585 | combineTrees concatenates |
| AvlTree.CombineTreesShape | pass/instrument/llvm/ADT/ImmutableSet.h:577-585 | and stays balanced |
| AvlTree.RemoveElems | pass/instrument/llvm/ADT/ImmutableSet.h:558-575 | remove_internal is deletion from the sorted sequence |
| AvlTree.RemoveShape | pass/instrument/llvm/ADT/ImmutableSet.h:558-575 | remove_internal keeps the balance and lowers the height by at most one |
| AvlTree.RemoveOk | pass/instrument/llvm/ADT/ImmutableSet.h:186-207 | remove keeps the whole invariant |
| AvlTree.InsertedMeans | pass/instrument/llvm/ADT/ImmutableSet.h:538-552 | insertion puts the element in the place of any with its key, keeps the others and the order |
| AvlTree.DeletedMeans | pass/instrument/llvm/ADT/ImmutableSet.h:558-575 | deletion takes out exactly the key |
| AvlTree.SortedUnique | pass/instrument/llvm/ADT/ImmutableSet.h:129-135 | sorted sequences of the same elements are equal, so contents may be compared in order |
| AvlTree.HeightLogarithmic | pass/instrument/llvm/ADT/ImmutableSet.h:186-207 | a tree of height h has at least 2^(h/3) - 1 elements |
| AvlTree.HeightMeans | pass/instrument/llvm/ADT/ImmutableSet.h:193-200 | the cached height is the length of the longest way down |
| AvlTree.Find | pass/instrument/llvm/ADT/ImmutableSet.h:77-88 | find returns the element with the key, or nothing when no element has it |
| AvlIterator.StepOk | pass/instrument/llvm/ADT/ImmutableSet.h:708-732 | one generic step either visits a value or only moves; what is left to visit shrinks accordingly |
| AvlIterator.SkipToParentOk | pass/instrument/llvm/ADT/ImmutableSet.h:683-697 | leaving a node drops exactly its unvisited rest |
| AvlIterator.InOrderIterator.constructor | pass/instrument/llvm/ADT/ImmutableSet.h:771-780 | begin stands before the whole in-order sequence |
| AvlIterator.InOrderIterator.Increment | pass/instrument/llvm/ADT/ImmutableSet.h:708-732 | the generic operator++ in place |
| AvlIterator.InOrderIterator.Current | pass/instrument/llvm/ADT/ImmutableSet.h:784-787 | the current node holds the first remaining element |
| AvlIterator.InOrderIterator.Next | pass/instrument/llvm/ADT/ImmutableSet.h:789-795 | operator++ drops one element: the stack with visit flags is an in-order traversal |
| AvlIterator.InOrderIterator.SkipSubTree | pass/instrument/llvm/ADT/ImmutableSet.h:805-811 | skipSubTree drops the current element and its right subtree |
| AvlIterator.StepBoth | pass/instrument/llvm/ADT/ImmutableSet.h:146-157 | one round of isEqual keeps the two remainders equal or finds them different |
| AvlIterator.IsEqual | pass/instrument/llvm/ADT/ImmutableSet.h:139-161 | true exactly when the two in-order sequences are equal, although shared subtrees are skipped |
| AvlIterator.CompareTreeWithSection | pass/instrument/llvm/ADT/ImmutableSet.h:442-451 | true exactly when the tree's elements are the section's next ones; then the section's iterator stands behind them |
| AvlHeap.DieCounts | pass/instrument/llvm/ADT/ImmutableSet.h:340-344 | when a node starts to die its references to its children are still owed: every count equals live parents, clients and debts |
| AvlHeap.DecCounts | pass/instrument/llvm/ADT/ImmutableSet.h:334-338 | paying off one owed reference keeps the counts exact |
| AvlHeap.HoldCounts | pass/instrument/llvm/ADT/ImmutableSet.h:332-332 | retain keeps the counts exact |
| AvlHeap.BuiltCounts | pass/instrument/llvm/ADT/ImmutableSet.h:245-252 | the constructor's retains keep the counts exact |
| AvlHeap.BuiltNodes | pass/instrument/llvm/ADT/ImmutableSet.h:463-477 | a new node's cached height, balance and order are right when its children's are and they fit: every live node is the root of an AVL tree |
| AvlHeap.NoParents | pass/instrument/llvm/ADT/ImmutableSet.h:334-338 | a node with count zero is referenced by nobody, so destroying it leaves no dangling link |
| AvlChains.DigestJoin | pass/instrument/llvm/ADT/ImmutableSet.h:297-313 | the recursive 32-bit digest depends only on the sequence of elements, not on the shape |
| AvlChains.DigestMeans | pass/instrument/llvm/ADT/ImmutableSet.h:297-313 | the digest of one element is its hash as a 32-bit word, and digests of parts add up modulo 2^32 |
| AvlChains.MaskMeans | pass/instrument/llvm/ADT/ImmutableSet.h:434-434 | the table index is the digest with bit 1 cleared |
| AvlChains.MaskAvoidsSpecialKeys | pass/instrument/llvm/ADT/ImmutableSet.h:433-434 | a masked digest is never one of the DenseMap's two special keys |
| AvlChains.CanonicalUnique | pass/instrument/llvm/ADT/ImmutableSet.h:608-642 | two canonical nodes with equal contents are the same node |
| AvlChains.LinkedOk | pass/instrument/llvm/ADT/ImmutableSet.h:633-640 | putting a new tree at the head of its chain keeps the doubly linked chains and the table |
| AvlChains.CutOk | pass/instrument/llvm/ADT/ImmutableSet.h:345-353 | unlinking a dying node keeps all chains, at the head, in the middle and at the end |
| AvlChains.FreedOk | pass/instrument/llvm/ADT/ImmutableSet.h:355-358 | freeing a node that is not canonical leaves the table alone |
| AvlInvariant.DieInv | pass/instrument/llvm/ADT/ImmutableSet.h:340-344 | the start of destroy keeps the whole invariant |
| AvlInvariant.BuryInv | pass/instrument/llvm/ADT/ImmutableSet.h:345-358 | the end of destroy keeps the whole invariant, the free list included |
| AvlInvariant.DecKeeps | pass/instrument/llvm/ADT/ImmutableSet.h:334-338 | a release outside a kept set never takes a kept node's last reference |
| AvlFactory.AvlFactory.Release | pass/instrument/llvm/ADT/ImmutableSet.h:334-338 | pays one reference, destroys at zero; kept nodes and their trees survive the cascade |
| AvlFactory.AvlFactory.Destroy | pass/instrument/llvm/ADT/ImmutableSet.h:340-359 | releases the children, unlinks and frees; nothing else changes but counts and chain links, and no other node reaches zero alive |
| AvlGrowth.CreateFacts | pass/instrument/llvm/ADT/ImmutableSet.h:463-477 | a created node, from the free list or fresh memory, keeps the invariant and leaves every old node as it was |
| AvlFactory.AvlFactory.CreateNode | pass/instrument/llvm/ADT/ImmutableSet.h:463-477 | the functional node, built in memory |
| AvlFactory.AvlFactory.BalanceTree | pass/instrument/llvm/ADT/ImmutableSet.h:494-533 | refines the functional rebalancing, with both children AVL trees at most 3 apart and the value between their elements |
| AvlFactory.AvlFactory.AddInternal | pass/instrument/llvm/ADT/ImmutableSet.h:538-552 | refines the functional insertion and returns a fresh node |
| AvlFactory.AvlFactory.RemoveMinBinding | pass/instrument/llvm/ADT/ImmutableSet.h:587-595 | refines the functional removal of the first element |
| AvlFactory.AvlFactory.CombineTrees | pass/instrument/llvm/ADT/ImmutableSet.h:577-585 | refines the functional combination; the result is the other tree when one is empty, else fresh |
| AvlFactory.AvlFactory.RemoveInternal | pass/instrument/llvm/ADT/ImmutableSet.h:558-575 | refines the functional deletion; the result is fresh unless there is no tree, or the root has the key and an empty side |
| AvlFactory.AvlFactory.MarkImmutable | pass/instrument/llvm/ADT/ImmutableSet.h:597-605 | clears the flags of the new tree; whatever it marks below the root has an immutable parent |
| AvlRecover.ImmutablesKeep | pass/instrument/llvm/ADT/ImmutableSet.h:483-490 | when the sweep starts no leftover can take the last reference of an immutable node |
| AvlRecover.NoneMutable | pass/instrument/llvm/ADT/ImmutableSet.h:483-490 | after the sweep no mutable node is left |
| AvlFactory.AvlFactory.RecoverNodes | pass/instrument/llvm/ADT/ImmutableSet.h:483-490 | the sweep, cascades included, destroys exactly mutable nodes: every immutable one survives |
| AvlFactory.AvlFactory.Complete | pass/instrument/llvm/ADT/ImmutableSet.h:403-416 | marking and sweeping leave the factory settled, every old node with its tree, and the new tree alive |
| AvlFactory.AvlFactory.Add | pass/instrument/llvm/ADT/ImmutableSet.h:403-408 | a new root of the tree with the element; no existing node is lost |
| AvlFactory.AvlFactory.Remove | pass/instrument/llvm/ADT/ImmutableSet.h:410-416 | a root of the tree without the key; no existing node is lost; the given root is returned for the empty tree only, and an old node exactly when the root has the key and an empty side |
| AvlFactory.AvlFactory.ComputeDigest | pass/instrument/llvm/ADT/ImmutableSet.h:315-325 | the digest of the contents, cached below the node and nowhere above it |
| AvlFactory.AvlFactory.SameContents | pass/instrument/llvm/ADT/ImmutableSet.h:621-628 | the comparison in the loop is equality of the full contents |
| AvlFactory.AvlFactory.FindEqual | pass/instrument/llvm/ADT/ImmutableSet.h:618-632 | the loop finds the tree of the chain with these contents if there is one |
| AvlFactory.AvlFactory.GetCanonicalTree | pass/instrument/llvm/ADT/ImmutableSet.h:607-642 | returns a live canonical node with the same contents; nodes in use survive, even when the argument is destroyed |
| AvlFactory.AvlFactory.DestroyDuplicate | pass/instrument/llvm/ADT/ImmutableSet.h:628-632 | destroying the duplicate cannot destroy the match, nor anything a client may use |
| AvlFactory.AvlFactory.RetainRoot | pass/instrument/llvm/ADT/ImmutableSet.h:332-332 | a client's retain |
| AvlFactory.AvlFactory.ReleaseRoot | pass/instrument/llvm/ADT/ImmutableSet.h:334-338 | a client's release: whatever some other reference keeps in use stays, with its tree |
| AvlFactory.AvlFactory.SetAdd | pass/instrument/llvm/ADT/ImmutableSet.h:1020-1023 | the canonical root of the set with the element, one more reference held by the client and all others still held; an AVL tree whose contents are the insertion; the given root itself when the element is already in it; whatever was in use stays |
| AvlFactory.AvlFactory.SetRemove | pass/instrument/llvm/ADT/ImmutableSet.h:1032-1035 | the same for removing a key; the given root itself when the key is not in it |
| AvlFactory.AvlFactory.SetEquals | pass/instrument/llvm/ADT/ImmutableSet.h:1052-1054 | operator== decides equality of contents; on canonical roots that is equality of the roots |
| AvlHistory.TwoHistories | pass/instrument/llvm/ADT/ImmutableSet.h:608-642 | two runs of additions and removals, one after the other, end in the same node if and only if they leave the same elements |
| AvlHistory.Apply | pass/instrument/llvm/ADT/ImmutableSet.h:1020-1035 | a client that takes the new root and releases the old one keeps everything else it holds, with its tree |
| AvlHistory.Build | pass/instrument/llvm/ADT/ImmutableSet.h:1020-1035 | the canonical root of the contents of a whole run of additions and removals; one reference more is held, and all others with their trees |
| AvlHistory.ContentsMeans | pass/instrument/llvm/ADT/ImmutableSet.h:1015-1035 | the contents of a run are sorted; an element is in them exactly when the last change of its key added it |
| AvlGrowth.AddedFits | pass/instrument/llvm/ADT/ImmutableSet.h:538-552 | what add_internal builds at a node is ordered and at most 3 out of balance |
| AvlGrowth.RemovedFits | pass/instrument/llvm/ADT/ImmutableSet.h:558-575 | what remove_internal builds at a node is ordered and at most 3 out of balance |
| AvlCanonical.CanonicalIff | pass/instrument/llvm/ADT/ImmutableSet.h:608-642 | in every reachable state two live canonical nodes are equal if and only if their contents are |
| AvlCanonical.WorthKeep | pass/instrument/llvm/ADT/ImmutableSet.h:628-632 | what is not smaller than a tree cannot hang on it, so it survives that tree's destruction |
| NodeMoves.NodeBase.Copy | pass/instrument/llvm/ADT/IntervalMap.h:231-241 | copies the elements, the overlapping move to the left included, and no others change |
| NodeMoves.NodeBase.MoveLeft | pass/instrument/llvm/ADT/IntervalMap.h:243-250 | moves the elements down |
| NodeMoves.NodeBase.MoveRight | pass/instrument/llvm/ADT/IntervalMap.h:252-261 | moves overlapping elements up without losing one |
| NodeMoves.NodeBase.Erase | pass/instrument/llvm/ADT/IntervalMap.h:265-278 | closes the gap |
| NodeMoves.NodeBase.Shift | pass/instrument/llvm/ADT/IntervalMap.h:280-285 | opens a gap of one |
| NodeMoves.NodeBase.TransferToLeftSib | pass/instrument/llvm/ADT/IntervalMap.h:287-296 | the first elements go to the end of the left sibling |
| NodeMoves.NodeBase.TransferToRightSib | pass/instrument/llvm/ADT/IntervalMap.h:298-307 | the last elements go to the front of the right sibling |
| NodeMoves.NodeBase.AdjustFromLeftSib | pass/instrument/llvm/ADT/IntervalMap.h:309-328 | moves as many as both sizes allow, in either direction, and keeps the concatenation |
| SiblingSizes.AdjustSiblingSizes | pass/instrument/llvm/ADT/IntervalMap.h:330-376 | for any number of siblings with equal totals: every node reaches exactly its requested size and the concatenation of all elements is unchanged |
| SiblingSizes.FirstPass | pass/instrument/llvm/ADT/IntervalMap.h:338-355 | the pass from the right settles every node whose left siblings can supply it |
| SiblingSizes.SecondPass | pass/instrument/llvm/ADT/IntervalMap.h:357-370 | the pass from the left settles the rest |
| SiblingSizes.FlatMove | pass/instrument/llvm/ADT/IntervalMap.h:338-370 | moving between nodes that are not neighbours keeps the concatenation when those in between are empty |
| SiblingSizes.NoExcess | pass/instrument/llvm/ADT/IntervalMap.h:338-355 | what the first pass leaves unsettled is too small, never too large |
| SiblingSizes.NoShortage | pass/instrument/llvm/ADT/IntervalMap.h:357-370 | when all nodes to the right are drained the totals force equality |
| IntervalLeaf.InsertFrom | pass/instrument/llvm/ADT/IntervalMap.h:625-678 | reports overflow, with position and leaf unchanged, exactly if the leaf is full and no interval with the value touches the new one; else leaves a sane, ordered leaf that maps the points of the interval to the value and all others as before, with a key left between neighbours of equal value, its true size and position |
| IntervalLeaf.FindFrom | pass/instrument/llvm/ADT/IntervalMap.h:573-585 | the first entry from the start on that may contain the point |
| IntervalLeaf.WithIntervalMaps | pass/instrument/llvm/ADT/IntervalMap.h:625-678 | the new leaf maps the points of the interval to the value and all others as before, for closed and half-open intervals |
| IntervalLeaf.WithIntervalOk | pass/instrument/llvm/ADT/IntervalMap.h:551-558 | the leaf with the interval added is sane, ordered and fully coalesced |
| IntervalLeaf.SpacedMeans | pass/instrument/llvm/ADT/IntervalMap.h:557-558 | neighbours with equal values are coalesced exactly when no key lies between them |
| IntervalLeaf.NothingToJoin | pass/instrument/llvm/ADT/IntervalMap.h:638-669 | an interval is joined to a neighbour exactly if some interval with its value touches it |
| IntervalLeaf.ContainsMeans | pass/instrument/llvm/ADT/IntervalMap.h:128-160 | what closed and half-open intervals contain, and when they are empty, in plain comparisons |
| IntervalLeaf.JoiningExample | pass/instrument/llvm/ADT/IntervalMap.h:638-647 | intervals joined and not joined, closed and half-open |
| IntervalTree.Lookup | pass/instrument/llvm/ADT/IntervalMap.h:1076-1081 | for a root leaf and for a tree of any height: the value of the interval that holds the point, in plain comparisons for closed and half-open intervals, else the default; so what a linear search over all entries finds |
| IntervalTree.TreeSafeLookup | pass/instrument/llvm/ADT/IntervalMap.h:1142-1153 | descending by stop keys gives the linear search's answer |
| IntervalTree.SafeFindBranch | pass/instrument/llvm/ADT/IntervalMap.h:722-734 | the unbounded scan of a branch stays inside its occupied part and finds the first subtree that may hold the point |
| IntervalTree.SafeFindLeaf | pass/instrument/llvm/ADT/IntervalMap.h:587-600 | so does that of a leaf |
| IntervalTree.SafeLookup | pass/instrument/llvm/ADT/IntervalMap.h:603-611 | a leaf answers for its own entries |
| IntervalTree.DescendOk | pass/instrument/llvm/ADT/IntervalMap.h:737-742 | the chosen child maps the point exactly as the whole tree does |
| IntervalTree.LinearLookupMeans | pass/instrument/llvm/ADT/IntervalMap.h:1071-1081 | the linear search is the map's meaning: the value of the interval that contains the point, else the default |
| IntervalTree.LookupExample | pass/instrument/llvm/ADT/IntervalMap.h:1076-1081 | a branch over two leaves, and what it maps some keys to |
| IntervalOverlaps.AllOverlaps | pass/instrument/llvm/ADT/IntervalMap.h:2038-2155 | every pair of overlapping intervals exactly once, in ascending order; overlap in plain comparisons for closed and half-open intervals |
| IntervalOverlaps.Overlaps.Advance | pass/instrument/llvm/ADT/IntervalMap.h:2059-2087 | terminates, stops at an overlap or an end, and passes no overlapping pair |
| IntervalOverlaps.Overlaps.Next | pass/instrument/llvm/ADT/IntervalMap.h:2133-2140 | moves past the current pair and no other |
| IntervalOverlaps.Overlaps.SkipA | pass/instrument/llvm/ADT/IntervalMap.h:2120-2124 | leaves the current interval of the first map and loses nothing of the later ones |
| IntervalOverlaps.Overlaps.SkipB | pass/instrument/llvm/ADT/IntervalMap.h:2126-2130 | the same for the second map |
| IntervalOverlaps.Overlaps.AdvanceBothTo | pass/instrument/llvm/ADT/IntervalMap.h:2142-2153 | reaches an overlap of which neither interval ends before the key, and passes no such overlap |
| IntervalOverlaps.Overlaps.Intersection | pass/instrument/llvm/ADT/IntervalMap.h:2107-2118 | start and stop delimit exactly the common points |
| IntervalOverlaps.FirstToEnd | pass/instrument/llvm/ADT/IntervalMap.h:2133-2140 | the interval that ends first overlaps nothing further on, so it is the one to leave |
| IntervalOverlaps.OverlapMeans | pass/instrument/llvm/ADT/IntervalMap.h:133-135 | two intervals overlap exactly when some key is in both |
| IntervalOverlaps.CatchUpA | pass/instrument/llvm/ADT/IntervalMap.h:2063-2067 | intervals that end before the other map's current one starts are in no pair any more |
| EquivalenceClasses.EquivalenceClasses.IsEquivalent | pass/instrument/llvm/ADT/EquivalenceClasses.h:242-250 | after any mix of operations, true exactly for the pairs in the equivalence the unions generate |
| EquivalenceClasses.EquivLeast | pass/instrument/llvm/ADT/EquivalenceClasses.h:242-250 | that relation lies inside every equivalence relation containing the united pairs |
| EquivalenceClasses.GeneratedMeans | pass/instrument/llvm/ADT/EquivalenceClasses.h:242-250 | sharing a leader is the generated relation |
| EquivalenceClasses.EquivalenceClasses.UnionSets | pass/instrument/llvm/ADT/EquivalenceClasses.h:216-221 | inserts both values and adds the pair to the unions |
| EquivalenceClasses.EquivalenceClasses.UniteLeaders | pass/instrument/llvm/ADT/EquivalenceClasses.h:222-240 | the second leader's members are appended to the first one's list; uniting a class with itself changes nothing |
| EquivalenceClasses.EquivalenceClasses.Splice | pass/instrument/llvm/ADT/EquivalenceClasses.h:226-239 | the four pointer updates keep both overloaded pointers and the leader bit right at every node |
| EquivalenceClasses.EquivalenceClasses.GetLeader | pass/instrument/llvm/ADT/EquivalenceClasses.h:81-86 | the leader, with leader pointers on the way rewritten and nothing else changed |
| EquivalenceClasses.EquivalenceClasses.Compress | pass/instrument/llvm/ADT/EquivalenceClasses.h:81-86 | rewriting one leader pointer keeps the structure |
| EquivalenceClasses.SplicedCellOk | pass/instrument/llvm/ADT/EquivalenceClasses.h:93-96 | linking the end of one list to the leader of another, with the three pointer updates beside it, leaves both pointers and the leader bit of every node right for the joined list |
| EquivalenceClasses.EquivalenceClasses.EndFacts | pass/instrument/llvm/ADT/EquivalenceClasses.h:88-91 | a leader's other pointer is the last node of its class's list, which has no next node |
| EquivalenceClasses.EquivalenceClasses.Insert | pass/instrument/llvm/ADT/EquivalenceClasses.h:198-202 | a new singleton class, or the existing node |
| EquivalenceClasses.EquivalenceClasses.FindLeader | pass/instrument/llvm/ADT/EquivalenceClasses.h:204-214 | the leader, or the end iterator for an unknown value |
| EquivalenceClasses.EquivalenceClasses.Members | pass/instrument/llvm/ADT/EquivalenceClasses.h:252-295 | the walk from the leader visits each member of the class exactly once, in the order of the class's list, and ends at the recorded end of list |
| EquivalenceClasses.EquivalenceClasses.NumClasses | pass/instrument/llvm/ADT/EquivalenceClasses.h:186-193 | the number of classes |
| EquivalenceClasses.EquivalenceClasses.Assign | pass/instrument/llvm/ADT/EquivalenceClasses.h:128-138 | the copy has the same classes, listed in the same order; assigning a value to itself empties it |
| EquivalenceClasses.JoinedOk | pass/instrument/llvm/ADT/EquivalenceClasses.h:222-240 | appending one list to another keeps the lists a partition with the leaders in front |
| EquivalenceClasses.ListIsClass | pass/instrument/llvm/ADT/EquivalenceClasses.h:252-295 | a list holds exactly the values equivalent to its members, each once |
| Hashing.HashContiguous | pass/instrument/llvm/ADT/Hashing.h:447-467 | the hash of the byte stream, at every length |
| Hashing.StreamRecorded | pass/instrument/llvm/ADT/Hashing.h:447-467 | what is mixed: all whole chunks once and in order, then the last 64 bytes if some are left over, last the length; up to 64 bytes go to hash_short |
| Hashing.HashIterator | pass/instrument/llvm/ADT/Hashing.h:403-436 | the same hash through the 64-byte buffer; the assertion after the first fill holds if and only if the item size divides 64 or everything fits |
| Hashing.HashSixPairs | pass/instrument/llvm/ADT/Hashing.h:413-413 | an input on which the assertion fails |
| Hashing.HashRest | pass/instrument/llvm/ADT/Hashing.h:415-436 | refilling, rotating and mixing reproduces the chunks and the last 64 bytes |
| Hashing.Fill | pass/instrument/llvm/ADT/Hashing.h:407-413 | the buffer takes as many whole items as fit; behind them the end of the chunk before stays |
| Hashing.RotatedWindow | pass/instrument/llvm/ADT/Hashing.h:425-428 | rotating a partly refilled buffer gives the last 64 bytes of the stream |
| Hashing.StoreAndAdvance | pass/instrument/llvm/ADT/Hashing.h:383-396 | stores if and only if the rest of the item fits |
| Hashing.Combiner.CombineData | pass/instrument/llvm/ADT/Hashing.h:510-547 | an item split across the buffer's end keeps the stream; aborts exactly when the second store cannot take the rest |
| Hashing.Combiner.Combine | pass/instrument/llvm/ADT/Hashing.h:549-562 | the recursion over the arguments |
| Hashing.Combiner.Finish | pass/instrument/llvm/ADT/Hashing.h:564-584 | the flush, with and without a mixed chunk |
| Hashing.HashCombine | pass/instrument/llvm/ADT/Hashing.h:602-606 | the hash of the concatenated bytes, whatever the item sizes; always so when no item exceeds 64 bytes |
| Hashing.SplitItem | pass/instrument/llvm/ADT/Hashing.h:516-546 | what the partial store, the mix and the second store leave behind |
| Hashing.SmallItemsStorable | pass/instrument/llvm/ADT/Hashing.h:539-545 | items of at most 64 bytes never abort |
| Hashing.ExactlyFull | pass/instrument/llvm/ADT/Hashing.h:413-413 | items of a size that divides 64 fill the buffer exactly |
| Hashing.DividesFull | pass/instrument/llvm/ADT/Hashing.h:413-413 | and only such items do |
| PtrAuth.AutiaPacia | pass/instrument/pacinst.c:86-150 | authenticating a signed pointer returns it if and only if the two ids agree modulo 256 |
| PtrAuth.AutiaMeans | pass/instrument/pacinst.c:134-169 | what authenticates: the top byte alone must be the signature; the byte below it is ignored |
| PtrAuth.PaciaParts | pass/instrument/pacinst.c:86-99 | signing changes the top byte only and stripping undoes it |
| PtrAuth.PaciaTop | pass/instrument/pacinst.c:94-98 | the top byte of a signed pointer is the exclusive or of the low bytes of pointer and id; below it nothing changes |
| PtrAuth.SameTop | pass/instrument/pacinst.c:94-98 | under one id two stripped pointers carry the same byte if and only if their low bytes agree |
| PtrAuth.SignedExample | pass/instrument/pacinst.c:86-169 | one address signed, and authenticated under its own and another id |
| PtrAuth.XpacMeans | pass/instrument/pacinst.c:17-32 | stripping keeps the low 48 bits and clears the others |
| PtrAuth.FreeSeesNoViolation | pass/instrument/ptauth-rtlib.c:279-288 | the bits that free tests after authenticating are never set, so that test never fires with the software signature |
| PtrAuth.BackwardSearch | pass/instrument/ptauth-rtlib.c:72-124 | tests the distances of the naive scan, in order, up to the nearest one that hits or cannot be read; gives the stripped pointer for a hit, a fault for the other, and the pointer as it came without either |
| PtrAuth.EndsIff | pass/instrument/ptauth-rtlib.c:88-92 | the loop ends if and only if the stripped address is at least 1023 or some candidate hits or cannot be read; otherwise the signed remainder makes it jump back to address 0 for ever |
| PtrAuth.NullStops | pass/instrument/ptauth-rtlib.c:88-96 | where address 0 cannot be read the search always ends, and from a stripped address of at most 1023 a search without a hit faults |
| PtrAuth.EndlessSearch | pass/instrument/ptauth-rtlib.c:88-92 | an input on which the loop never ends, address 0 being readable |
| PtrAuth.FaultingSearch | pass/instrument/ptauth-rtlib.c:88-96 | the same search where address 0 is not readable: the second round faults |
| PtrAuth.ScanMeans | pass/instrument/ptauth-rtlib.c:88-93 | the naive scan has each 16-aligned address from x-1 down to x-1023 once, descending |
| PtrAuth.SkipLands | pass/instrument/ptauth-rtlib.c:89-92 | the skip lands on the next aligned address and passes none |
| PtrAuth.HitMeans | pass/instrument/ptauth-rtlib.c:94-99 | a test compares the pointer's top byte with the signature of the address behind the metadata |
| PtrAuth.OwnMetadata | pass/instrument/ptauth-rtlib.c:94-116 | from an interior pointer within reach the object's own metadata is tested, and passes exactly under ids that agree with the signing one modulo 256, so also after free has overwritten the id |
| PtrAuth.InteriorFound | pass/instrument/ptauth-rtlib.c:72-124 | for every interior pointer of a live, readable 16-aligned object less than 1024 bytes from its metadata, the nearest candidate that stops the search is a hit |
| BitWords.BitDiffMask | pass/instrument/llvm/ADT/BitVector.h:417-423 | the difference of two powers of two has exactly the bits of the range |
| BitWords.BitShl | pass/instrument/llvm/ADT/BitVector.h:651-699 | bits under a left shift of a word |
| BitVectors.BitVector.Flip | pass/instrument/llvm/ADT/BitVector.h:478-483 | every bit is complemented, and the unused ones stay zero |
| BitVectors.BitVector.constructor | pass/instrument/llvm/ADT/BitVector.h:139-145 | a vector of the given number of bits, all of the given value, with the unused ones zero |
| BitWords.FirstBitMeans | pass/instrument/llvm/ADT/BitVector.h:229-230 | the trailing-zero count is the least set bit |
| BitWords.LastBitMeans | pass/instrument/llvm/ADT/BitVector.h:259-260 | the leading-zero count gives the greatest set bit |
| BitVectors.BitVector.SetRange | pass/instrument/llvm/ADT/BitVector.h:410-437 | sets exactly the bits from the first to before the last, within a word and across words |
| BitVectors.BitVector.ResetRange | pass/instrument/llvm/ADT/BitVector.h:449-476 | resets exactly those |
| BitVectors.BitVector.FindFirstIn | pass/instrument/llvm/ADT/BitVector.h:206-233 | the least set index of the range, or -1 if there is none |
| BitVectors.BitVector.FindLastIn | pass/instrument/llvm/ADT/BitVector.h:235-264 | the greatest set index of the range, or -1 |
| BitVectors.BitVector.FindFirstUnsetIn | pass/instrument/llvm/ADT/BitVector.h:266-295 | the least clear index of the range, or -1 |
| BitVectors.BitVector.FindLastUnsetIn | pass/instrument/llvm/ADT/BitVector.h:297-328 | the greatest clear index of the range, or -1 |
| BitVectors.BitVector.SetUnusedBits | pass/instrument/llvm/ADT/BitVector.h:844-865 | changes exactly the bits from the size to the end of the memory |
| BitVectors.BitVector.Grow | pass/instrument/llvm/ADT/BitVector.h:867-874 | reallocation keeps the bits and clears the rest, whatever the new memory held |
| BitVectors.BitVector.Resize | pass/instrument/llvm/ADT/BitVector.h:371-390 | the old bits up to the smaller size, then the given value; unused bits stay zero; the memory is the old one or new |
| BitVectors.BitVector.ShiftRight | pass/instrument/llvm/ADT/BitVector.h:602-649 | every bit moves down by n across word boundaries, zeros come in |
| BitVectors.BitVector.ShiftLeft | pass/instrument/llvm/ADT/BitVector.h:651-699 | every bit moves up by n, zeros come in, and nothing leaks past the size |
| BitVectors.BitVector.WordShr | pass/instrument/llvm/ADT/BitVector.h:813-828 | the move by whole words |
| BitVectors.BitVector.WordShl | pass/instrument/llvm/ADT/BitVector.h:781-811 | the move by whole words, upwards |
| BitVectors.BitVector.ApplyMask | pass/instrument/llvm/ADT/BitVector.h:881-906 | adds or clears exactly the selected bits of the portable mask, inverted or not, and keeps unused bits zero |
| BitVectors.MergedBits | pass/instrument/llvm/ADT/BitVector.h:638-646 | a right-shifted word takes its high bits from the word above |
| BitVectors.CarriedBits | pass/instrument/llvm/ADT/BitVector.h:688-695 | a left-shifted word takes its low bits from the word below |

## Left out

- BreadthFirst.BfIter.ToNext: a queue element's optional child iterator is not modelled, since one call consumes it from start to end.
- IntervalOverlaps.Overlaps.Advance: positions are indices into the maps' entry sequences; the iterators' paths through the trees are not modelled.
- IntervalLeaf.InsertFrom: keys are integers, under the closed and the half-open traits.
- DenseMaps.DenseMap.LookupBucketFor: masking with the bucket count minus one is written as a remainder, and the two reserved keys are a separate bucket state, so a caller cannot pass them.
- EquivalenceClasses.EquivalenceClasses.Assign: the ordered set of nodes is a map; the copy visits the values in any order, the sorted one included.
- AvlFactory.AvlFactory.GetCanonicalTree: the cache is a map whose missing entries are null; its own DenseMap is modelled separately.
- Hashing.HashCombine: arguments are sequences of bytes, one per argument; how a value gives its hashable data is not modelled.
- PtrAuth.BackwardSearch: logging is left out, and with it the abort of a build without logging after a failed search (`pass/instrument/ptauth-rtlib.c:116-121`); a search that does not end is in `PtrAuth.After`, not in the method.
- EquivalenceClasses.ECValue.SetNext: the leader bit is a field of its own, not the low bit of the next pointer.
- BitVectors.BitVector.ApplyMask: a mask word is a 64-bit word whose high half is clear, and the counts of trailing and leading zeros are defined here, their header not being part of this model.
- The interval map's insertion and erasure through tree iterators, with splitting, `distribute` and path moves: their bodies are partly outside the repository.
- `SmallDenseMap`, `MapVector`, `SetVector`, `SmallSet`, `ScopedHashTable`, `FoldingSet` and the pointer wrappers: thin layers or simpler invariants than those proved here.
- Bit vector members that only loop over words (`count`, `any`, `flip` of one bit, `&=`, `|=`, comparisons): they would only add easy members.
- The instrumentation pass itself: it rewrites LLVM IR through classes that are not in the repository.
- Allocation, free and validation in the runtime, beyond the layout and the tests above: inline assembly, `prctl`, random numbers and the hardware variants. No claim is made that stale pointers are rejected.
- Move constructors, placement new, debug epochs, reverse iteration and allocator plumbing.
