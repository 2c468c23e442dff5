# A threaded ordered set, verified

`set.h` implements a set of keys with no duplicates. The keys are kept in a
binary search tree that is *right-threaded*: a node with no right child
reuses its right pointer as a thread to its in-order successor, or to null
for the largest key. A flag in the node says which of the two its right
pointer is. Because of the threads, the iterator's `++` needs neither a
stack nor parent pointers:

- from a threaded node it follows the thread;
- from any other node it goes to the leftmost node of the right subtree.

This project models that class over `int` keys and proves what its
operations promise:

- `insert` runs the same descent and the same three linking cases, with the
  links set in the same order. It leaves the set unchanged when the key is
  present. Otherwise it adds exactly that key and one to `size`, and it keeps
  every thread pointing at the in-order successor.
- `contains`, `operator[]` and `find` agree with the set's contents.
- `toVector` is strictly ascending, has `size` entries and holds exactly the
  contents.
- The first components of `toPairs` are `toVector`. The second component is
  the next key when the node is threaded and not the maximum, and the
  caller's `no_element` otherwise.
- The iteration starts at the least key (`begin`). Each `++` moves to the
  next key of `toVector`. The iteration reaches `end` after `size` steps,
  and `++` at `end` does nothing. `*` at `end` is the out-of-range error.
- The copy constructor re-inserts the keys of the original in pre-order. The
  copy has the same size and the same `toVector`. Later inserts into either
  set do not show in the other.

## Layout

- `sorted.dfy`, module `Sorted`: strictly ascending key sequences, and
  `InsertSorted`, which places one key into such a sequence.
- `arena.dfy`, module `Arena`:
  - The tree lives in a sequence of `Node` values. A node pointer is an
    index into that sequence, and `Null` (-1) is `nullptr`.
  - Nodes are only ever appended, and each is attached below a node that
    already exists, so a real child always has a larger index than its
    parent. `Rank` is the termination measure of the recursive walks.
  - The recursive walks are the in-order export (`SubtreeToVector`, which is
    `_toVector`), `_toPairs` (`SubtreePairs`), `_contains`
    (`SubtreeContains`) and the in-order node sequence (`Inorder`).
  - `Threaded` is the threading invariant: every threaded node points at its
    in-order successor.
  - `WellFormed` combines the structural, ordering and threading invariants
    of the whole tree.
- `insertion.dfy`, module `Insertion`:
  - `Locate`, `Attach` and `Inserted` are the pure form of `insert`.
  - `InsertPreservesWellFormed` is the main theorem about `insert`.
  - `Built` describes a sequence of inserts into an empty set.
- `iteration.dfy`, module `Iteration`: `Leftmost`, `Next` (`++`) and
  `Advanced` (`++` applied n times), and the lemmas that relate them to the
  in-order walk.
- `threaded_set.dfy`, module `ThreadedSets`:
  - The class `ThreadedSet` has the fields `nodes`, `root` and `size`. Its
    methods and functions mirror those of `set`.
  - The class `Iterator` pairs the set it walks (`owner`) with its pointer
    (`ptr`).
  - The loops of `insert`, `find`, `begin` and `++` are `while` loops over
    these fields. They are proved against the pure functions above.
- `scenarios.dfy`, module `Scenarios`: the nine-key set of the tests, built
  by nine calls to `Insert`, with its exact pairs export and its traversal.
  It also covers the empty and one-key cases, including `++` on the
  iterators that `find` and `end` return.

## Model

| member | source | states |
|---|---|---|
| Arena.ContainsListed | set.h:171-185 | Recursive search from a node finds `key` exactly when `key` is in that subtree's in-order export, provided the export is ascending. |
| Arena.NodeKeys | set.h:219-222 | In a well-formed tree no two nodes hold the same key, and every node's key is in the export (the set has no duplicates). |
| Arena.PairsInorder | set.h:319-349 | The pairs export visits nodes in in-order sequence. Each entry is the node's key paired with the key it is threaded to, or `no_element` for a real right child or a null thread. |
| Arena.ThreadsAreSuccessors | set.h:65-72 | If the threading invariant holds, every threaded node at position j of the in-order walk points at the node at position j+1, or at the subtree's successor when it is last. |
| Arena.PairsFollowThreads | set.h:319-359 | For a well-formed tree, the pairs export has one entry per node. Entry j's first component is export[j]. Its second is export[j+1] when node j is threaded and not last, and `no_element` otherwise. |
| Arena.Node.GetRight | set.h:57-63 | No contract of its own. It is the real right child, and Null for a threaded node. Its uses are stated by `ContainsListed`, `Insertion.Locate` and `Iteration.RightSubtreeSuccessors`. |
| Arena.Node.GetThread | set.h:66-72 | No contract of its own. It is the thread target, and Null for a node that is not threaded. Its meaning is stated by `ThreadsAreSuccessors` and `Iteration.NextFollowsInorder`. |
| Arena.SubtreeContains | set.h:171-185 | No contract of its own. It is `_contains`, and it is specified by `ContainsListed` and `ThreadedSets.ThreadedSet.Contains`. |
| Arena.SubtreeToVector | set.h:286-300 | No contract of its own. It is `_toVector`, and it is specified by `KeysListed`, `ThreadedSets.ThreadedSet.ToVector` and `Insertion.InsertPreservesWellFormed`. |
| Arena.ThreadKey | set.h:331-345 | No contract of its own. It is the second component that `_toPairs` computes for one node, and it is specified by `PairsFollowThreads`. |
| Arena.SubtreePairs | set.h:319-349 | No contract of its own. It is `_toPairs`, and it is specified by `PairsInorder`, `PairsFollowThreads` and `ThreadedSets.ThreadedSet.ToPairs`. |
| Arena.KeysListed | set.h:286-310 | The in-order export of a well-formed tree holds exactly the keys of its nodes. |
| Insertion.Locate | set.h:201-223 | The insertion descent either stops at a node holding the key, or falls out of the tree below a parent. When the tree is non-empty that parent is a real node. |
| Insertion.LocateAgreesWithSearch | set.h:207-223 | The descent stops at a node holding the key exactly when `contains` would find the key. |
| Insertion.AttachAsLeft | set.h:240-249 | Linking the new node as the left child of a node with no left child, threaded to that parent, gives the ascending export with the key inserted. It keeps every thread correct and adds exactly the new node to the walk. |
| Insertion.AttachAsRight | set.h:250-260 | Linking the new node as the right child of a threaded node gives the same results. The new node inherits the parent's thread and the parent stops being threaded. |
| Insertion.AttachAlongPath | set.h:199-260 | On each subtree along the descent, attaching below the spot the descent reaches inserts the key into the export in order. It keeps every thread pointing at the in-order successor and adds only the new node. |
| Insertion.Attach | set.h:240-260 | No contract of its own. It is the arena after a new node is linked below a parent. It is specified by `AttachAsLeft`, `AttachAsRight`, `AttachAlongPath` and `ThreadedSets.LinkNode`. |
| Insertion.Inserted | set.h:199-267 | No contract of its own. It is the arena after `insert`, and it is specified by `InsertPreservesWellFormed` and `ThreadedSets.ThreadedSet.Insert`. |
| Insertion.InsertPreservesWellFormed | set.h:199-267 | Inserting keeps the tree well formed and rooted at node 0. Its keys become the old keys plus `key`, and the export becomes `InsertSorted(old export, key)`. A present key leaves the arena unchanged. An absent key adds one node. |
| Insertion.Built | tests.cpp:151-170 | Inserting a sequence of keys into an empty set gives a well-formed tree whose keys are exactly those keys, with one node per distinct key. |
| Insertion.ReinsertingChangesNothing | tests.cpp:151-170 | Inserting keys that are all already present leaves the tree exactly as it was. |
| Iteration.Leftmost | set.h:433-438 | Following left links from a node ends at a node with no left child, or at Null when started from Null. |
| Iteration.Next | set.h:420-440 | One `++` stays within the arena or reaches the end. What it does is stated by `NextFollowsInorder`, `AdvancedFromEnd` and `ThreadedSets.Iterator.Advance`. |
| Iteration.Advanced | set.h:420-440 | Repeated `++` stays within the arena or reaches the end. Its meaning is stated by `IterationOrder`, `IterationVisitsExport` and `AdvancedFromEnd`. |
| Iteration.LeftmostFirst | set.h:477-491 | The leftmost node of a non-empty subtree is the first node of its in-order walk. |
| Iteration.RightSubtreeSuccessors | set.h:431-438 | A node with a real right child is followed in the in-order walk by the leftmost node of its right subtree. |
| Iteration.NextFollowsInorder | set.h:420-440 | If the threading invariant holds, one `++` from the node at position j of the in-order walk lands on position j+1, or on the successor from the last node. |
| Iteration.IterationOrder | set.h:420-440 | In a well-formed tree, k `++` steps from `begin` reach node k of the in-order walk, for every k up to `size`. Step `size` reaches the end. |
| Iteration.IterationVisitsExport | set.h:420-440 | After k < `size` steps from `begin`, the iterator holds export[k]. The iterator is at the end exactly when k equals `size`. |
| Iteration.AdvancedFromEnd | set.h:422-425 | Any number of `++` at the end leave the iterator at the end. |
| Iteration.LeftmostIsMinimum | set.h:477-492 | In a non-empty well-formed tree the leftmost node holds export[0], which is the least key of the set. |
| ThreadedSets.ThreadedSet.constructor | set.h:95-98 | A new set is empty and valid, with size 0. |
| ThreadedSets.ThreadedSet.Copy | set.h:122-126 | A copy is valid and has the original's keys, size and `toVector`. |
| ThreadedSets.ThreadedSet.CopyFrom | set.h:104-119 | Pre-order re-insertion of a subtree of another set keeps this set valid. It adds exactly the keys of that subtree. |
| ThreadedSets.ThreadedSet.Size | set.h:159-162 | `size` is the number of distinct keys in the set. |
| ThreadedSets.ThreadedSet.Contains | set.h:171-191 | `contains(key)` holds exactly when `key` is in the set. |
| ThreadedSets.ThreadedSet.Subscript | set.h:274-277 | `set[key]` holds exactly when `key` is in the set. |
| ThreadedSets.ThreadedSet.Insert | set.h:199-267 | The set stays valid with root 0, and its contents become the old contents plus `key`. A present key changes no node and not the size. An absent key adds one to `size`. The new arena is `Inserted(old arena, old root, key)`, and `toVector` becomes the old one with `key` put in place. |
| ThreadedSets.LinkNode | set.h:229-260 | Creating the node and setting its links in source order gives the arena described by `Attach`, or a single threaded root when the tree was empty. |
| ThreadedSets.ThreadedSet.ToVector | set.h:286-310 | `toVector` is strictly ascending, has `size` entries and holds exactly the set's keys. |
| ThreadedSets.ThreadedSet.ToPairs | set.h:319-359 | The pairs export has `size` entries. Entry j is (`toVector`[j], `toVector`[j+1]) when node j is threaded and not the maximum, and (`toVector`[j], `no_element`) otherwise. |
| ThreadedSets.ThreadedSet.Find | set.h:452-474 | `find(key)` returns a new iterator. It is not `end` exactly when `key` is in the set. Dereferencing it gives `key`, or the out-of-range error when the key is absent. |
| ThreadedSets.ThreadedSet.Begin | set.h:477-492 | `begin` denotes the leftmost node. An empty set gives `end`. Otherwise `*begin` is `toVector`[0] and is no greater than any key of the set. |
| ThreadedSets.ThreadedSet.End | set.h:501-504 | `end` returns a new iterator that denotes no node. Dereferencing it is the out-of-range error. |
| ThreadedSets.Iterator.constructor | set.h:372-375 | An iterator holds the given node of the given set. |
| ThreadedSets.Iterator.Deref | set.h:385-391 | `*it` is the out-of-range error exactly at the end. Otherwise it is a key of the set. |
| ThreadedSets.Iterator.Equals | set.h:399-405 | Equal iterators yield the same result. For iterators of one set, equality holds exactly when they yield the same key or are both at the end. |
| ThreadedSets.Iterator.NotEquals | set.h:411-414 | Unequal iterators of one set yield different results, and equal ones the same. |
| ThreadedSets.Iterator.Advance | set.h:420-440 | `++` moves the pointer to `Next` of the old pointer. From in-order position j it moves to position j+1, or to the end from the last node. |
| ThreadedSets.Traverse | tests.cpp:601-615 | The loop from `begin` to `end` that collects `*it` and applies `++` yields exactly `toVector`, in order. |
| ThreadedSets.CopiesAreIndependent | tests.cpp:241-273 | The copy is a new set. After the copy, inserting into the original changes only the original, and inserting into the copy changes only the copy. |
| Scenarios.BuildExample | tests.cpp:478-486 | Inserting 30, 15, 50, 8, 25, 70, 20, 28 and 60 into an empty set, in that order, gives one specific arena, including its threads. |
| Scenarios.PairsExample | tests.cpp:488-511 | For that set, `toPairs(-1)` is (8,15), (15,-1), (20,25), (25,-1), (28,30), (30,-1), (50,-1), (60,70), (70,-1). |
| Scenarios.TraverseExample | tests.cpp:601-615 | Iterating that set from `begin` to `end` yields 8, 15, 20, 25, 28, 30, 50, 60, 70. |
| Scenarios.EmptyExample | tests.cpp:736-742 | An empty set has size 0, and `find` gives `end`. `begin` equals `end` before any `++`, and still equals it after one. |
| Scenarios.FindThenAdvanceExample | tests.cpp:315-329 | In a one-key set, `*find(key)` is the key. `++` on the found iterator reaches `end`, and `++` on `end` stays at `end`. |
| Scenarios.SingletonExample | tests.cpp:744-749 | With one key, `*begin` is that key and one `++` reaches `end`. |

Nodes are identified by their index in their own set's arena. Two sets can
therefore use the same index for different nodes. `Equals` and `NotEquals`
compare the owning set as well as the index, except at the end, where every
set's end is the same null pointer. This is exactly pointer comparison in
`set.h`: nodes of different sets are different objects, and all end
iterators hold `nullptr`.

## Left out

- Keys are `int`. The class template and the string, `Movie` and `double`
  instantiations in the tests need only `<` on the key type, and the model
  uses exactly that operation.
- The destructor `_destroy` (set.h:132-152) and memory in general are left
  out. The arena never frees a node, because nothing in the modelled
  operations removes one.
- The `std::out_of_range` exception thrown by `operator*` is modelled as the
  result `Err(OutOfRange)`. There is no exception control flow.
- ThreadedSets.ThreadedSet.Size: `int Size` is a 32-bit counter in the
  source. The model's counter is unbounded, so overflow past 2^31 - 1 keys
  is not modelled.
- ThreadedSets.Iterator.Deref: its contract says only that a non-end result
  is a key of the set. The exact key at a position is stated by
  `ThreadedSet.Find`, `ThreadedSet.Begin`, `Iteration.IterationVisitsExport`
  and `ThreadedSets.Traverse`.
- ThreadedSets.ThreadedSet.Begin: in `set.h` control can fall off the end of
  `begin` after its loop. That exit cannot be reached because `Root` is
  non-null there. The model's loop stops at the leftmost node and has no
  such exit.
- ThreadedSets.ThreadedSet.ToPairs: when `no_element` equals a real key, a
  pair cannot tell "no thread" apart from "threaded to that key". The model
  reproduces this as written: the contract describes the export and does
  not resolve the ambiguity.
- The recursive walks (`_contains`, `_toVector`, `_toPairs`, `_copy`) have
  stack depth equal to the tree height. Stack exhaustion on a degenerate
  tree is not modelled.
- The iterator holds a reference to its set (`owner`) as well as its node.
  In `set.h` the iterator holds only the node pointer, and the rest of the
  node is reached through it. Iterators invalidated by a later change to
  their set are not modelled: each contract is stated for the set's current
  state.
