# xor_list: a verified model of the XOR-linked list engine

This project models the list engine of `xor_list`, a doubly linked list in
which every node stores one link word, `xorPtr`, holding the exclusive or of
its two neighbours' addresses. The list owns two sentinel nodes,
`beforeHead` and `afterTail`. In an empty list each sentinel's link word is
the address of the other. A cursor is a `(prev, current)` pair of
addresses. It steps forward with `next = prev ^ current->xorPtr` and
backward with `newPrev = prev->xorPtr ^ current`. Two cursors are equal
when their `current` addresses are equal.

Every structural change goes through four constant-time link primitives:

- `insertNodeBefore` and `insertSequenceBefore` link a node or a detached
  run in before a cursor.
- `cutSequence` unlinks a run. It leaves the run as a detached chain whose
  outer ends link to nullptr.
- `mergeSequences` merges a detached ascending run into an ascending run
  that sits in place.

The `...ToThis` wrappers keep `length` in step with these primitives. The
public operations are built on them: `insert`/`emplace`, `push_*`/`pop_*`,
`erase`, `clear`, `resize`, `assign`, `splice`, `reverse`, `unique`,
`merge`, `sort` and `swapWithoutAllocators`.

How the model is laid out:

- **Addresses.** An address is a natural number (`XorLinks.Ptr`) and 0 is
  nullptr. `XorLinks.XorPointers` is bitwise exclusive or on naturals.
- **Node memory.** All nodes live in one object, `NodeMemory.Memory`. Its
  two maps give each live node's link word (`link`) and payload (`value`).
  Every link write of the source is an update of `link`.
- **Link primitives.** Each primitive is a pure function from the old link
  map to the new one (`InsertNodeLinks`, `InsertSequenceLinks`,
  `CutLinks`). A `Memory` method performs each rewrite in place, and its
  contract is that function.
- **Lists.** A list is the class `XorListEngine.XorList`. Its fields are the
  sentinel addresses, the `length` counter and a ghost sequence `nodes` of
  the node addresses between the sentinels.
- **The XOR-link invariant.** `Chain(link, [beforeHead] + nodes +
  [afterTail])` says that each node's word is the exclusive or of its
  neighbours. Together with `length == |nodes|` it forms `Valid()`. Every
  operation preserves `Valid()`.
- **Payloads.** Payloads are `int`. The order is `std::less` and the
  equality is `std::equal_to`.
- **Sequence-level meaning.** Each operation states its result on `nodes`
  and on the payload sequence `Elements()`. It also states a frame,
  `KeptApart`: every link word and payload outside the lists involved is
  unchanged.
- **Fresh addresses.** The allocator's answers are parameters. `ps` or `p`
  is the address a node construction returns.

The sequence functions the operations are proved against live in `Runs`
(merge order, duplicate removal, reversal, repetition) and in `ListShape`
(cursor positions, run moves, and the reversal's link rewrite). The
per-branch proofs of the loops live in `MergeSteps` (`mergeSequences`) and
`SortSteps` (`sort`). `SpliceFinding` holds the finding below.

## Model

| member | source | states |
|---|---|---|
| XorLinks.XorWithNull | include/xor_list/xor_list.h:752-771 | xorPointers with nullptr (0) on either side returns the other address unchanged |
| XorLinks.XorCommutes | include/xor_list/xor_list.h:758-761 | the (PtrInteger, Node*) overload that swaps its arguments computes the same word |
| XorLinks.XorCancel | include/xor_list/xor_list.h:768-771 | `(a ^ b) ^ b == a`, which lets a link word give back one neighbour from the other |
| XorLinks.Next | include/xor_list/xor_list.h:659-667 | `++it`: the new prev is the old current, and the old current's word xor the new current is the old prev |
| XorLinks.Prev | include/xor_list/xor_list.h:695-703 | `--it`: the new current is the old prev, and the old prev's word xor the new prev is the old current |
| XorLinks.NextThenPrev | include/xor_list/xor_list.h:659-703 | stepping a cursor forward and then back gives the same (prev, current) pair |
| XorLinks.PrevThenNext | include/xor_list/xor_list.h:659-703 | stepping a cursor back and then forward gives the same (prev, current) pair |
| XorLinks.NextInChain | include/xor_list/xor_list.h:659-667 | on a chain a + b, `++` moves the cursor between a and b one node to the right |
| XorLinks.PrevInChain | include/xor_list/xor_list.h:695-703 | on a chain a + b, `--` moves the cursor between a and b one node to the left |
| XorLinks.WalkInChain | include/xor_list/xor_list.h:659-667 | n forward steps from the cursor between a and b stand between a + b[..n] and b[n..] |
| XorLinks.WalkBackInChain | include/xor_list/xor_list.h:695-703 | n backward steps move the cursor n nodes to the left |
| XorLinks.RelinkReplaces | include/xor_list/xor_list.h:809-816 | `p->xorPtr = xorPointers(xorPointers(p->xorPtr, gone), added)` makes p forget neighbour `gone` and take `added` in its place, keeping its other neighbour |
| XorLinks.InsertNodeLinks | include/xor_list/xor_list.h:804-819 | insertNodeBefore writes only the node's, position.prev's and position.current's words, with no write where a side is nullptr |
| XorLinks.InsertNodeChain | include/xor_list/xor_list.h:804-819 | inserting a fresh node at the cursor between a and b turns the chain a + b into a + [node] + b |
| XorLinks.InsertSequenceLinks | include/xor_list/xor_list.h:836-853 | insertSequenceBefore writes only the run's two end words and the two words around the position |
| XorLinks.InsertSequenceChain | include/xor_list/xor_list.h:836-853 | linking a detached chain r in between a and b gives the chain a + r + b |
| XorLinks.CutLinks | include/xor_list/xor_list.h:872-888 | cutSequence writes only the four words at the cut's borders |
| XorLinks.CutChain | include/xor_list/xor_list.h:872-888 | cutting r from a + r + b leaves the chain a + b and a detached chain r whose ends xor with nullptr |
| XorLinks.CutHead | include/xor_list/xor_list.h:1067 | cutting the head node of a detached run leaves the rest a detached chain and changes nothing outside the run |
| XorLinks.ChainReversed | include/xor_list/xor_list.h:394-411 | the same link words chain a sequence and its reverse |
| ListShape.BeginEnd | include/xor_list/xor_list.h:243-271 | begin() is `{&beforeHead, beforeHead.xorPtr}` at position 0, and end() is `{afterTail.xorPtr, &afterTail}` at position size() |
| ListShape.WalkWholeList | include/xor_list/xor_list.h:243-271 | walking forward from begin() reaches end() in exactly size() steps, and walking back from end() reaches begin() |
| ListShape.PosApart | include/xor_list/xor_list.h:671-674 | two cursors of one list compare equal (same current) exactly when they stand at the same position |
| ListShape.InsertNodeShape | include/xor_list/xor_list.h:804-819 | inserting at position k makes the node the k-th, and the returned cursors are positions k and k + 1 of the new list |
| ListShape.InsertRunShape | include/xor_list/xor_list.h:836-853 | inserting a detached run at position k keeps the XOR chain and returns positions k and k + the run's length |
| ListShape.CutShape | include/xor_list/xor_list.h:872-888 | cutting positions i..j leaves the list prefix + suffix, a detached run, and `end` = the cursor at position i of the new list |
| ListShape.ReverseLinks | include/xor_list/xor_list.h:394-411 | reverse() rewrites only the words of the sentinels and of the first and last nodes |
| ListShape.ReverseShape | include/xor_list/xor_list.h:394-411 | those four rewrites chain beforeHead, the reversed nodes and afterTail |
| ListShape.MoveRunPermutes | include/xor_list/xor_list.h:514-524 | moving a run within one list only reorders it: same length, same multiset |
| ListShape.MoveRunInPlace | include/xor_list/xor_list.h:505-508 | moving a run before its own first node or before the node after it changes nothing: the early return of single-node splice, and the corrected range splice of the Findings row |
| ListShape.ValuesMoveRun | include/xor_list/xor_list.h:503-524 | payloads follow their nodes when a run moves |
| ListShape.OtherListKept | include/xor_list/xor_list.h:804-888 | a list whose nodes the primitives do not touch stays intact with the same payloads |
| Runs.Values | include/xor_list/xor_list.h:654-657 | the payload sequence has one entry per node, the k-th being `*it` at the k-th node |
| Runs.MergeRuns | include/xor_list/xor_list.h:1042-1089 | the merge result holds exactly the nodes of both runs (multiset), and its length is the sum |
| Runs.MergeRunsAscending | include/xor_list/xor_list.h:1042-1089 | merging two ascending runs gives an ascending run |
| Runs.MergeRunsKeepsOrder | include/xor_list/xor_list.h:1042-1089 | each input run keeps its internal order inside the merge |
| Runs.MergeRunsStable | include/xor_list/xor_list.h:1065-1085 | a to-run node precedes every from-run node whose payload is not less than its own, because only a strictly smaller from-node moves ahead |
| Runs.UniqueRuns | include/xor_list/xor_list.h:528-554 | unique() keeps only nodes of the list |
| Runs.UniqueNoAdjacentEqual | include/xor_list/xor_list.h:539-553 | after unique() no two neighbouring payloads are equal |
| Runs.UniqueKeeps | include/xor_list/xor_list.h:539-553 | the i-th node survives exactly when it is the first node or its payload differs from its predecessor's |
| Runs.UniqueSubsequence | include/xor_list/xor_list.h:539-553 | the kept nodes stay in their original order |
| Runs.UniqueRunsValues | include/xor_list/xor_list.h:539-553 | the payloads after unique() are the payloads with every repeat of the preceding payload dropped |
| Runs.ReversedTwice | include/xor_list/xor_list.h:394-411 | reversing twice gives back the original node sequence |
| Runs.ReversedValues | include/xor_list/xor_list.h:394-411 | reversing the nodes reverses the payload sequence |
| Runs.ValuesPermute | include/xor_list/xor_list.h:273-344 | relinking nodes as a permutation permutes the payloads in the same way |
| Runs.Repeat | include/xor_list/xor_list.h:462-482 | the fill has count entries, each equal to val |
| MergeSteps.MergeMove | include/xor_list/xor_list.h:1065-1081 | branch `isLess(*beginFrom, *beginTo)`: the from-head is cut and relinked before beginTo, and the loop invariant holds again |
| MergeSteps.MergeStep | include/xor_list/xor_list.h:1082-1085 | branch `++beginTo`: the to-node joins the merged prefix, and the invariant holds again |
| MergeSteps.MergeFinish | include/xor_list/xor_list.h:1052-1064 | branch `beginTo == endTo`: the rest of the from-run is linked in before endTo, the chain is the full merge, and resultBegin/endTo bound it |
| MergeSteps.MergeExit | include/xor_list/xor_list.h:1050-1088 | when the from-run is used up, the to-chain is the full merge and the returned cursors bound it |
| SortSteps.SortStart | include/xor_list/xor_list.h:296-298 | with 32 empty slots the sort's invariant holds over the whole list |
| SortSteps.CarryMerge | include/xor_list/xor_list.h:311-315 | merging a full slot with the carried run empties the slot, carries the ascending merge on, and loses no node |
| SortSteps.CarryPlace | include/xor_list/xor_list.h:305-323 | the carried run lands in the first empty slot (slot 31 when all 32 were merged), and every full slot still holds a detached ascending run |
| SortSteps.FinalMerge | include/xor_list/xor_list.h:329-339 | merging the next full slot into the result keeps the result an ascending detached run of all nodes seen so far |
| SortSteps.FinalEnd | include/xor_list/xor_list.h:324-343 | after the final loop the result is one ascending detached chain holding exactly the nodes sorted |
| NodeMemory.Memory.CreateNode | include/xor_list/xor_list.h:774-790 | a free address becomes a live node with the given payload and a null link word |
| NodeMemory.Memory.DestroyRun | include/xor_list/xor_list.h:901-911 | destroying the detached run frees exactly its nodes and changes no other word or payload |
| NodeMemory.Memory.AddSentinels | include/xor_list/xor_list.h:100-102 | `beforeHead(&afterTail), afterTail(&beforeHead)` |
| NodeMemory.Memory.SetValue | include/xor_list/xor_list.h:453 | `*iter = val` overwrites one payload and no link |
| NodeMemory.Memory.InsertNodeBefore | include/xor_list/xor_list.h:804-819 | the link map becomes InsertNodeLinks of the old one, and the result is `{(position.prev, node), (node, position.current)}` |
| NodeMemory.Memory.InsertSequenceBefore | include/xor_list/xor_list.h:836-853 | the link map becomes InsertSequenceLinks of the old one, and the result is `{(position.prev, begin.current), (end.prev, position.current)}` |
| NodeMemory.Memory.CutSequence | include/xor_list/xor_list.h:872-888 | the link map becomes CutLinks of the old one, and the result is `{(null, begin.current), (end.prev, null), (begin.prev, end.current)}` |
| NodeMemory.Memory.MergeSequences | include/xor_list/xor_list.h:1042-1089 | the to-chain becomes L + MergeRuns(T, F) + R, the returned pair bounds the merged run, and no word outside the runs and their two borders changes |
| XorListEngine.XorList.constructor | include/xor_list/xor_list.h:100-102 | a new list is empty and valid, with its sentinels pointing at each other |
| XorListEngine.XorList.Begin | include/xor_list/xor_list.h:243-246 | begin() is the cursor at position 0 |
| XorListEngine.XorList.End | include/xor_list/xor_list.h:248-251 | end() is the cursor at position size() |
| XorListEngine.XorList.Size | include/xor_list/xor_list.h:207-210 | size() is the number of nodes |
| XorListEngine.XorList.Empty | include/xor_list/xor_list.h:212-215 | empty() holds exactly when there are no nodes |
| XorListEngine.XorList.Deref | include/xor_list/xor_list.h:654-657 | `*it` at position k is the k-th payload |
| XorListEngine.XorList.Front | include/xor_list/xor_list.h:232-240 | front() is the first payload |
| XorListEngine.XorList.Back | include/xor_list/xor_list.h:222-230 | back() is `*(--end())`, the last payload |
| XorListEngine.XorList.Distance | include/xor_list/xor_list.h:521 | `std::distance(first, last)` between positions i and j counts j - i steps |
| XorListEngine.XorList.InsertNodeToThisBefore | include/xor_list/xor_list.h:793-798 | the node becomes the k-th, length grows by one, and the returned cursors are positions k and k + 1 |
| XorListEngine.XorList.InsertSequenceToThisBefore | include/xor_list/xor_list.h:822-829 | the run becomes nodes k onwards, and length grows by distance |
| XorListEngine.XorList.CutSequenceFromThis | include/xor_list/xor_list.h:856-862 | nodes i..j leave as a detached chain, the list is prefix + suffix, length drops by distance, and `end` is position i |
| XorListEngine.XorList.Emplace | include/xor_list/xor_list.h:348-351 | insert(position, val) and emplace put v at position k and return the cursor on it |
| XorListEngine.XorList.InsertRange | include/xor_list/xor_list.h:355-381 | the values are inserted in order before position k, and the cursor on the first inserted node is returned (position itself when the range is empty) |
| XorListEngine.XorList.PushBack | include/xor_list/xor_list.h:165-173 | the payloads become old + [v] |
| XorListEngine.XorList.PushFront | include/xor_list/xor_list.h:175-183 | the payloads become [v] + old |
| XorListEngine.XorList.DestroySequence | include/xor_list/xor_list.h:891-912 | nodes i..j are unlinked and freed, and the rest stays in order |
| XorListEngine.XorList.Clear | include/xor_list/xor_list.h:217-220 | every node is freed and the list is empty |
| XorListEngine.XorList.Erase | include/xor_list/xor_list.h:420-428 | nodes i..j are removed, and the returned cursor `(first.prev, last.current)` is position i of the new list |
| XorListEngine.XorList.EraseAt | include/xor_list/xor_list.h:414-417 | erase(position) removes the k-th node and returns position k |
| XorListEngine.XorList.PopFront | include/xor_list/xor_list.h:197-200 | the payloads lose their first entry |
| XorListEngine.XorList.PopBack | include/xor_list/xor_list.h:202-205 | the payloads lose their last entry |
| XorListEngine.XorList.AppendAll | include/xor_list/xor_list.h:456-459 | repeated emplace_back appends the values in order |
| XorListEngine.XorList.PopDownTo | include/xor_list/xor_list.h:1016-1019 | repeated pop_back leaves the prefix of length min(count, size()) |
| XorListEngine.XorList.Resize | include/xor_list/xor_list.h:1007-1025 | size() becomes count; a shrink keeps the prefix and a growth appends copies of v |
| XorListEngine.XorList.AssignFill | include/xor_list/xor_list.h:462-482 | the payloads become count copies of val, reusing the existing prefix of nodes |
| XorListEngine.XorList.AssignRange | include/xor_list/xor_list.h:440-460 | the payloads become the given values, reusing the existing prefix of nodes |
| XorListEngine.XorList.Transfer | include/xor_list/xor_list.h:514-524 | from another list, nodes i..j of x move before position k of this list, and both lists stay valid |
| XorListEngine.XorList.MoveWithin | include/xor_list/xor_list.h:514-524 | within one list, the run i..j moves before position k, as MoveRun states |
| XorListEngine.XorList.Splice | include/xor_list/xor_list.h:490-501 | all of x moves before position k, and x ends empty; splicing a list into itself changes nothing |
| XorListEngine.XorList.SpliceOne | include/xor_list/xor_list.h:503-512 | the node at i moves before position k, from x or within this list; the two self cases return early |
| XorListEngine.XorList.SpliceRange | include/xor_list/xor_list.h:514-524 | nodes i..j move before position k; within one list the result is MoveRun, including position == last |
| XorListEngine.XorList.Reverse | include/xor_list/xor_list.h:394-411 | the nodes and the payloads become their reverses, with no payload touched |
| XorListEngine.XorList.Unique | include/xor_list/xor_list.h:528-554 | the nodes become UniqueRuns of the old ones, and exactly the dropped nodes are freed |
| XorListEngine.XorList.MergeSequencesToThis | include/xor_list/xor_list.h:1028-1036 | the whole list becomes MergeRuns(old nodes, run), and length grows by distance |
| XorListEngine.XorList.Merge | include/xor_list/xor_list.h:557-573 | this list becomes MergeRuns(this, x) and x ends empty; merging a list with itself leaves it unchanged |
| XorListEngine.XorList.SwapWithoutAllocators | include/xor_list/xor_list.h:915-940 | the two lists exchange their nodes and payloads; swapping with itself changes nothing |
| XorListEngine.XorList.Sort | include/xor_list/xor_list.h:273-344 | the nodes become an ascending permutation of the old ones, with the same payload multiset; fewer than two nodes means nothing changes |
| SpliceFinding.SelfSpliceAtLastLosesRun | include/xor_list/xor_list.h:514-524 | as written, `splice(c, *this, a, c)` on a b c d leaves beforeHead chained to c, d, afterTail only |

## Left out

- Allocation failure: `createNode`'s deallocate-on-throw and the catch in range `insert` that destroys the partly inserted run. Dafny has no exceptions, and a node construction here cannot fail.
- The allocator itself: node addresses come in as parameters (`p`, `ps`), and the sentinels are two addresses handed to the constructor rather than members of the list object.
- `swap`/`swapImpl`, the copy and move constructors and assignments, and their allocator-propagation branches: compile-time dispatch on allocator traits. Only the relinking of `swapWithoutAllocators` is modelled.
- The initializer_list constructor and `assign(il)`, and the count constructors: these forward to `assign` and `resize`, which are modelled.
- Custom comparators and predicates: payloads are integers ordered by `std::less` and compared by `std::equal_to`.
- `resize(count)` without a value: T's default construction is a parameter `v` of `Resize`.
- Pointer width: `PtrInteger` is one of uint8..uint64 chosen by `sizeof(Node*)`. Addresses here are unbounded naturals, which matches any width because exclusive or never carries.
- The iterator/const_iterator conversions, `operator->`, postfix `++`/`--`, the const overloads and the virtual destructors: they add no behaviour beyond the cursor steps modelled.
- XorListEngine.XorList.Sort: stability is not stated; that equal payloads keep their original order through the slots is left unproved, although each merge step's stability is (`Runs.MergeRunsStable`).
- XorListEngine.XorList.SpliceRange: its requires excludes a position strictly inside a non-empty run being moved within the same list (and position == first), where the standard leaves the behaviour undefined.

## Findings

| source | as written | input that shows it | evidently intended | confidence | as-written member | corrected member |
|---|---|---|---|---|---|---|
| include/xor_list/xor_list.h:514-524 | `splice(position, *this, first, last)` returns early only when `first == last`; with `position == last` it cuts [first, last) and then inserts before the stale cursor `position`, whose prev is the run's own last node | list a b c d, `splice(c, *this, a, c)` | moving a run before the node that already follows it leaves the list unchanged (as `std::list::splice` does) | not executed | SpliceFinding.SelfSpliceAtLastLosesRun | XorListEngine.XorList.SpliceRange |
