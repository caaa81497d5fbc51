# turbolib: models and proofs

A Dafny model of the parts of turbolib that keep state, with proofs of what they are for. To verify it, run
`dafny verify dfyconfig.toml` in this directory. Classes follow the source's in-place updates and are tied to
specification functions on values; the properties are lemmas about those functions and invariants over runs.

**Crit-bit tree and XOR Merkle tree** (`Bits`, `CriticalBit`, `CritTree`, `MerkleHash`, `Shapes`,
`CritBitTree`). `CritTree` is the tree as a value, with its invariant, its refinement of a finite map and the
fact that the map determines the tree. `CritBitTree` is the tree of nodes whose child pointers and hashes are
rewritten in place; `Shapes` says which value the nodes stand for. Keys are byte strings of one kind, a fixed
number of bytes or NUL-terminated strings; a leaf carries a 64-bit hash and a value. `PrefixQuery` and `Queries`
are the prefix queries. `KeyOrder` is the order of keys, `Endpoints` what an enumeration between two keys goes
through, and `Enumerate` the enumeration itself. `MerkleDiff` answers the points of a reconciliation, and
`Reconcile` is about what whole conversations find.

**Lock-free queue** (`FreeList`, `FreeListCalls`, `FreeListProgress`, `DequeueProtocol`, `CircularOrder`). Every atomic
operation is one step of a state machine with any number of threads, sequentially consistent; the invariants are over
all runs. `FreeListCalls` is about what a call comes back with, `FreeListProgress` about that it does.

**Cuckoo hash map** (`MaskBits`, `CuckooIndex`, `Cuckoo`, `CuckooRuns`, `SearchOrder`, `CuckooSearch`, `SearchReach`,
`MissedPath`, `CuckooMap`). A critical section is one step on a table value; a doubling is a start, one split for
each old bucket, in any order and mixed with other sections, and an end. `CuckooRuns` interleaves the sections of any
number of threads. `CuckooSearch` is the breadth-first search for a path, `SearchOrder` the order it looks at slots
in, `SearchReach` what it can find, and `CuckooMap` the class with its loops.

**Vector clocks** (`VectorClocks`, `VectorMerge`, `MergeLayout`, `BoundedVector`). The version vector and the time vector run
the same code but for `increment`, so one clock type with a time (0 in a version vector) and one class stand for
both.

**Codecs.** `ChunkParser`, `ChunkPrinter`, `SizeField`, `ChunkGrammar`, `ChunkExecute` and `ChunkExchange`: the body
states of the HTTP parser in strict mode against the chunk printer and the grammar of section 3.6.1 of RFC 2616, byte by
byte, buffer by buffer and end to end.
`Tiger`: the streaming hash against its one-shot reference, for any compression function. `Base64` and
`Base64Loops`: the order-preserving encoding (groups as in section 4 of RFC 4648, another alphabet). `Options` and
`Bytes` hold what several of these share, and `Arithmetic` two facts about division.

Some properties hold on part of the inputs only; the code is modelled as it is:

- The order-preserving encoding preserves the order of strings of one length (`Base64.OrderPreserved`), as the
  comment at src/lib/serialize/base64.cpp:46-47 says; `Base64.OrderKeptIff` is the exact condition for any lengths.
- A vector limited to a single clock reports a conflict after another key's increment, and a counter that wraps
  looks like a step back or like no change; but in a full vector an increment behind the first place of the older
  half compares as LESS_THAN even then. `VectorClocks.IncrementAnswer` is the answer in every case,
  `VectorClocks.IncrementSeenIff` the exact condition, `VectorClocks.WrapGoesBack` and
  `VectorClocks.WrapLooksNewer` are inputs for both.
- `merge` can insert past the end of its list (`VectorMerge.MixedRunsOut`); `VectorMerge.DefinedIff` says exactly
  when it does not, and the method reports the other cases.
- `diff` on an empty tree asks for a range, although the other tree may be empty too (`MerkleDiff.DiffAnswers`).
- The search for a path gives up when its queue is full, although a path may exist. Which slots it looks at depends
  on the width alone, so an insertion reports a full table if and only if all of those are occupied
  (`CuckooMap.CuckooMap.InsertAlone`, `SearchReach.OccupiedIff`). With up to three slots a bucket these are all slots
  up to four moves away (`SearchReach.NarrowFails`); with four they are all up to three moves away but one
  (`SearchReach.FourFails`). `MissedPath.SearchMisses` is a table in which a path of four moves is missed.
- A conversation that starts from one replica's top can end without naming a key the other side lacks
  (`Reconcile.OneWayMisses`). The two conversations from both tops together find every difference, unless different
  contents have the same hash (`Reconcile.EveryDifferenceReported`).
- Comparing two vectors over the limit, which the constructor accepts, can give answers that do not mirror each other
  (`VectorClocks.OverLimitTurns`); `VectorClocks.MirrorsIff` says exactly when they do.
- `enumerate(fun, first, last)` offers the stored keys from `first` to `last` for some endpoints and not for others:
  `Endpoints.RunIff` is the exact condition, `Endpoints.StartMisses` and `Endpoints.StopIsBehind` are inputs on
  which keys are left out or offered in excess. Endpoints that are stored, in order, or that span a prefix always work.
- The comparison that excludes the last leaf of an enumeration goes no further than a NUL both keys share
  (`KeyOrder.AfterIff`, `KeyOrder.SharedNulHides`); the condition above takes that into account.
- An empty buffer means the end of input to the HTTP parser and is an error in the middle of a body
  (`ChunkExecute.HttpParser.ExecuteEmpty`), so input may be split into non-empty buffers only
  (`ChunkExchange.ReceiveAll`).

## Model

| member | source | states |
|---|---|---|
| Bits.DirectionIsBit | src/lib/merkle_tree/critbit_tree.h:525-528 | The sum `1 + (bits or c)` shifted by 8 is 1 exactly when `c` has the one bit that `otherbits` leaves out. |
| Bits.OtherBitsOrder | src/lib/merkle_tree/critbit_tree.h:413-416 | Comparing two `otherbits` as numbers compares their bit positions, so the loop's two tests order critical bits. |
| Bits.IsolateHighest | src/lib/merkle_tree/critbit_tree.h:545-549 | Smearing a non-zero difference downwards and inverting leaves out exactly its highest bit, and no higher bit differs. |
| CriticalBit.FindDifferingByte | src/lib/merkle_tree/critbit_tree.h:556-572 | For keys of one kind: false exactly for equal keys; otherwise the first byte that differs, the terminator of a C string included, and the XOR of the two bytes there. |
| CriticalBit.FindCriticalBit | src/lib/merkle_tree/critbit_tree.h:540-554 | False exactly for equal keys; otherwise byte and `otherbits` name the first bit at which the keys differ, and the direction is the stored key's bit there. |
| CriticalBit.CalculateDirection | src/lib/merkle_tree/critbit_tree.h:517-523 | The side taken is the key's bit at the branch's critical bit, bits past the end reading as 0. |
| CriticalBit.BranchAfterIsIndexOrder | src/lib/merkle_tree/critbit_tree.h:413-416 | The walk's two break tests hold exactly when the branch's critical bit is after the new one. |
| CriticalBit.KindSeparates | src/lib/merkle_tree/critbit_tree.h:556-572 | Two different keys of one kind differ at some bit: fixed-size keys inside their bytes, C strings at the latest at a terminator. |
| CritTree.BestFinds | src/lib/merkle_tree/critbit_tree.h:347-353 | In a well-formed tree a key is stored if and only if the one leaf the walk ends in has it. |
| CritTree.NoEqualBit | src/lib/merkle_tree/critbit_tree.h:406-419 | The second walk of an insertion never meets a branch with the new critical bit itself. |
| CritTree.InsertWf | src/lib/merkle_tree/critbit_tree.h:363-428 | Insertion at the first differing bit keeps the crit-bit invariant (leaves agree before each critical bit, sides by that bit, bits increase downwards). |
| CritTree.InsertItems | src/lib/merkle_tree/critbit_tree.h:363-428 | Insertion of a new key adds exactly that entry to the finite map. |
| CritTree.DeleteWf | src/lib/merkle_tree/critbit_tree.h:432-477 | Removal keeps the crit-bit invariant. |
| CritTree.DeleteItems | src/lib/merkle_tree/critbit_tree.h:432-477 | Removal takes exactly that key out of the finite map. |
| CritTree.DeleteAbsent | src/lib/merkle_tree/critbit_tree.h:459-464 | Removing a key whose best match is another key leaves the tree as it is. |
| CritTree.Canonical | src/lib/merkle_tree/critbit_tree.h:363-477 | Two well-formed trees with the same map are the same tree: the shape does not depend on history. |
| CritTree.InsertThenDelete | src/lib/merkle_tree/critbit_tree.h:363-477 | Inserting a new key and removing it again gives back the original tree, structure included. |
| CritTree.HeightBound | src/lib/merkle_tree/critbit_tree.h:507-515 | With keys of at most n bytes no walk passes more than 8n branches, less the bits decided above. |
| CritTree.ApplyRefines | src/lib/merkle_tree/critbit_tree.h:363-477 | Each operation keeps the invariant and does to the map what the map operation does; inserting a stored key changes nothing. |
| CritTree.Run | src/lib/merkle_tree/critbit_tree.h:363-477 | Every history from the empty tree ends in a well-formed tree standing for the map the history builds. |
| CritTree.HistoriesAgree | src/lib/merkle_tree/critbit_tree.h:363-477 | Two histories end in the same map if and only if they end in the same tree. |
| MerkleHash.XorOfLeaves | src/lib/merkle_tree/merkle_tree.h:33-42 | Bit by bit: a node's hash has a bit set if and only if an odd number of the leaves below it have that bit in their hashes. |
| MerkleHash.SameItemsSameHashes | src/lib/merkle_tree/merkle_tree.h:33-42 | Two trees have the same branches with equal hashes at every one, and the same keys and hashes in the leaves, if and only if their sets of (key, hash) are equal; stored values do not matter. |
| Shapes.BestAlong | src/lib/merkle_tree/critbit_tree.h:507-515 | The leaf reached by following a key's bits through the nodes is the value tree's best match. |
| Shapes.InsertAlong | src/lib/merkle_tree/critbit_tree.h:405-421 | Putting the new branch at the slot the walk stops at is the value tree's insertion. |
| Shapes.DeleteAlong | src/lib/merkle_tree/critbit_tree.h:446-473 | Putting the sibling into the parent's slot is the value tree's removal. |
| Shapes.Splice | src/lib/merkle_tree/critbit_tree.h:420-421 | Rewriting one child pointer replaces exactly the subtree below it; every other link stays. |
| Shapes.SpliceStale | src/lib/merkle_tree/merkle_tree.h:23-42 | After a pointer was rewritten, only hashes on the walked path can be stale. |
| Shapes.Rehash | src/lib/merkle_tree/merkle_tree.h:33-42 | Recomputing the deepest stale branch from its children leaves only the branches above it stale. |
| Shapes.WalkBound | src/lib/merkle_tree/critbit_tree.h:507-515 | A walk through the nodes of a tree with keys of at most n bytes has at most 8n steps. |
| CritBitTree.CritBitTree.WalkTreeForBestMember | src/lib/merkle_tree/critbit_tree.h:507-515 | The leaf found holds the value tree's best match. |
| CritBitTree.CritBitTree.Find | src/lib/merkle_tree/critbit_tree.h:332-353 | The entry stored under the key, or nothing, exactly as the map has it. |
| CritBitTree.CritBitTree.Insert | src/lib/merkle_tree/critbit_tree.h:363-428 | On the heap: the new tree is the old one with the key inserted, all pointers and all branch hashes again correct; `is_new` says whether the key was absent; the returned leaf is the one in the tree that holds the key, new exactly when the key was. |
| CritBitTree.CritBitTree.FindSlot | src/lib/merkle_tree/critbit_tree.h:405-419 | The walk stops at the slot where the new branch belongs, and has pushed exactly the branches passed, deepest first. |
| CritBitTree.CritBitTree.HangBranch | src/lib/merkle_tree/critbit_tree.h:420-424 | After storing the branch and rehashing the pushed ones, every branch's hash is the XOR of the leaves below it and the change list is empty. |
| CritBitTree.CritBitTree.Remove | src/lib/merkle_tree/critbit_tree.h:432-477 | On the heap: the new tree is the old one with the key removed, pointers and hashes correct, 1 if the key was there and 0 otherwise. |
| CritBitTree.CritBitTree.FindLeaf | src/lib/merkle_tree/critbit_tree.h:446-457 | The walk ends in the best match with its parent and the parent's slot, and has pushed the branches passed except the parent. |
| CritBitTree.CritBitTree.PromoteSibling | src/lib/merkle_tree/critbit_tree.h:467-475 | The sibling takes the parent's place and the remaining branches' hashes are made correct although the freed branch is not rehashed. |
| CritBitTree.CritBitTree.OnChange | src/lib/merkle_tree/merkle_tree.h:33-42 | Going through the pushed branches front to back makes every stale hash on the path correct and empties the list. |
| CritBitTree.CritBitTree.Store | src/lib/merkle_tree/critbit_tree.h:420-421 | Writing the slot makes the heap represent the tree with the subtree replaced, and nothing else changes. |
| CritBitTree.CritBitTree.InsertIntoEmptyTree | src/lib/merkle_tree/critbit_tree.h:530-538 | The empty tree becomes a single leaf with the key and entry. |
| CritBitTree.CritBitTree.InsertNew | src/lib/merkle_tree/critbit_tree.h:390-427 | For a key found to differ at a bit, the tree becomes the old one with the key inserted there. |
| CritBitTree.CritBitTree.PlaceBranch | src/lib/merkle_tree/critbit_tree.h:400-424 | The new branch gets the new leaf on its side and the displaced subtree on the other, at the slot the walk found. |
| CritBitTree.CritBitTree.RehashBranch | src/lib/merkle_tree/merkle_tree.h:36-38 | One branch's hash becomes the XOR of its children's, which makes one more level of the path correct (what that hash is, bit by bit, is `MerkleHash.XorOfLeaves`). |
| PrefixQuery.StopsAtPrefix | src/lib/merkle_tree/critbit_tree.h:110-114 | For masks of the form 2^j - 1 the two tests of the walk stop it exactly at branches whose critical bit is not inside the prefix. |
| PrefixQuery.NearestHoldsPrefix | src/lib/merkle_tree/critbit_tree.h:95-118 | Every stored key with the prefix is below the node found, and all keys there share their first bits. |
| PrefixQuery.NearestIs | src/lib/merkle_tree/critbit_tree.h:95-118 | For any key and number of bits, stored or not, the node found holds exactly the keys that share that many bits with the key's best match. |
| PrefixQuery.BestIsClosest | src/lib/merkle_tree/critbit_tree.h:507-515 | No stored key shares more leading bits with a key than the leaf the walk ends in. |
| PrefixQuery.PrefixAll | src/lib/merkle_tree/critbit_tree.h:120-143 | Checking a single leaf decides: if it has the prefix the node holds exactly the keys with it, if not no stored key has it. |
| PrefixQuery.BytesMatchIsAgreement | src/lib/merkle_tree/critbit_tree.h:136-140 | Comparing the whole bytes and the masked last byte is comparing the prefix bits. |
| Queries.NearestSubtree | src/lib/merkle_tree/critbit_tree.h:95-118 | The walk on the heap finds the node the specification names; null exactly for the empty tree. |
| Queries.Subtree | src/lib/merkle_tree/critbit_tree.h:120-143 | Null if and only if no stored key has the prefix; otherwise a node whose leaves are exactly the keys with it. |
| Queries.BytesFit | src/lib/merkle_tree/critbit_tree.h:134-140 | The leaf check succeeds exactly when leaf and prefix agree on the prefix bits, and reads no byte past either key. |
| Queries.Begin | src/lib/merkle_tree/critbit_tree.h:310-315 | The leftmost leaf. |
| Queries.End | src/lib/merkle_tree/critbit_tree.h:324-329 | The rightmost leaf. |
| KeyOrder.OrderAscends | src/lib/merkle_tree/critbit_tree.h:280-286 | Left to right, the keys of a tree are in strictly ascending lexicographic order. |
| KeyOrder.AfterIff | src/lib/merkle_tree/util/cstrfun.h:6-16 | Of two different keys of one length `strnncmp` finds the greater one if and only if no NUL comes before their first different byte. |
| KeyOrder.AfterMeans | src/lib/merkle_tree/util/cstrfun.h:6-16 | A key it finds greater is greater; between NUL-free strings, of any lengths, it finds exactly the greater ones. |
| KeyOrder.SharedNulHides | src/lib/merkle_tree/util/cstrfun.h:6-16 | Two keys in order, different behind a NUL they share, of which neither is found greater. |
| Endpoints.GapSides | src/lib/merkle_tree/critbit_tree.h:187-199 | The node where a walk for a missing key stops has the smaller keys left of it, the greater ones right of it, and its own all on one side. |
| Endpoints.GapNeighbour | src/lib/merkle_tree/critbit_tree.h:187-203 | The last branch passed has that node on the side the key turned to, and next to it, on the other side, the nearest smaller or greater key. |
| Endpoints.StartIff | src/lib/merkle_tree/critbit_tree.h:170-205 | The start is the first key not less than `first` if and only if the best match is `first`, or is greater and the leftmost leaf of the node the walk stops at, or is less and the last turn before that node was to the left. |
| Endpoints.StopIff | src/lib/merkle_tree/critbit_tree.h:207-244 | The end is behind the last key not greater than `last` if and only if the best match is `last`, or is less and the rightmost leaf of the node the walk stops at, or is greater and the last turn was to the right (or a single leaf is seen to be too far). |
| Endpoints.RunIff | src/lib/merkle_tree/critbit_tree.h:145-246 | Between any endpoints, what is gone through is exactly the stored keys from `first` to `last` if and only if start and end are right (or the end lies before the start with no key after `last`), or, with no key in between, there is no start or it is the excluded stop. |
| Endpoints.StoredEndpoints | src/lib/merkle_tree/critbit_tree.h:145-246 | If both endpoints are stored it always is, exactly when they are in order. |
| Endpoints.PrefixRun | src/lib/merkle_tree/critbit_tree.h:145-246 | On a prefix range it is the whole node found, from its first leaf to its last, and no repair takes place. |
| Endpoints.StartMisses | src/lib/merkle_tree/critbit_tree.h:170-205 | A tree of two keys and endpoints for which the start passes over a key of the range. |
| Endpoints.StopIsBehind | src/lib/merkle_tree/critbit_tree.h:207-246 | A tree of two keys and an empty range for which the stop lies before the start and a key after the range is offered. |
| Endpoints.NodeHoldsRange | src/lib/merkle_tree/critbit_tree.h:157-168 | Every stored key between the endpoints is below the node of their common prefix. |
| Enumerate.EnumerateNode | src/lib/merkle_tree/critbit_tree.h:248-287 | The recursion over nodes with its three states is one scan over the leaves from left to right. |
| Enumerate.ScanRun | src/lib/merkle_tree/critbit_tree.h:248-287 | The scan offers the keys from the start's to the stop's, once each, in order, up to the first refusal; if the stop lies before the start, all from the start's on. |
| Enumerate.RangeTop | src/lib/merkle_tree/critbit_tree.h:157-168 | The subtree found is the node above exactly the stored keys with the endpoints' common prefix; null when there is none. |
| Enumerate.RepairParent | src/lib/merkle_tree/critbit_tree.h:187-199 | The repair walk ends at the last branch not after the missing critical bit, or at the top if there is none. |
| Enumerate.StartLeaf | src/lib/merkle_tree/critbit_tree.h:170-205 | The pass starts at the specified key's leaf, for any endpoint; nowhere exactly when the specification has none. |
| Enumerate.StopLeaf | src/lib/merkle_tree/critbit_tree.h:207-244 | It stops at the specified key's leaf, for any endpoint, and leaves it out exactly if the comparison finds it after `last`. |
| Enumerate.Greater | src/lib/merkle_tree/critbit_tree.h:244 | The loop answers as `strnncmp`, stopping at a NUL that both keys share. |
| Enumerate.SmearIsLowMask | src/lib/merkle_tree/critbit_tree.h:161-164 | The smeared inverse of `otherbits` is the mask of the bits below the critical bit, and the common prefix length follows from it. |
| Enumerate.EnumerateRange | src/lib/merkle_tree/critbit_tree.h:145-246 | For any two endpoints, in order or not, `fun` is offered the keys of the specified run in ascending order, all of them or up to and including the first it refuses; the run is all the stored keys from `first` to `last` if and only if nothing has the common prefix or the run fits; between two stored keys that is exactly when they are in order, and on a prefix range the run is the keys with the prefix. |
| Enumerate.OfferedIs | src/lib/merkle_tree/critbit_tree.h:262-278 | The pass ends at the first refusal and not before: every key before it was accepted, each time the callback remembering what came earlier. |
| MerkleDiff.KeyBitsIsIndex | src/lib/merkle_tree/merkle_tree.h:218-227 | The De Bruijn table gives the index of the critical bit plus one for every byte and every one-bit mask. |
| MerkleDiff.PointBytes | src/lib/merkle_tree/merkle_tree.h:176-186 | The byte count and mask made from `keybits` describe exactly that many bits. |
| MerkleDiff.PointResolves | src/lib/merkle_tree/merkle_tree.h:176-215 | A node's point leads back to that node, whichever key below it the point carries. |
| MerkleDiff.PointIs | src/lib/merkle_tree/merkle_tree.h:202-247 | A node's point carries a key below it (a leaf's own), its hash and its critical bit or key length; a tree's top carries those of its root and leads back to it. |
| MerkleDiff.DescentExact | src/lib/merkle_tree/merkle_tree.h:259-324 | On a traverse answer: the branch's keybits equal the point's; each child point carries a key of its child, the child's hash and exactly its critical bit or key length, and leads back to it; the children partition the branch's leaves, their hashes combine to its hash, and both have strictly larger keybits. |
| MerkleDiff.ConversationEnds | src/lib/merkle_tree/merkle_tree.h:259-324 | A conversation that always asks about a child point of the last answer has at most MAX_KEYBITS + 1 rounds, even if replicas change in between. |
| MerkleDiff.TopsAgree | src/lib/merkle_tree/merkle_tree.h:241-278 | If two non-empty trees both report no difference for each other's top, their root hashes are equal. |
| MerkleDiff.DiffAlike | src/lib/merkle_tree/merkle_tree.h:234-278 | Trees alike in keys, hashes and branches answer every point with the same result and have the same top. |
| MerkleDiff.EqualReplicasAgree | src/lib/merkle_tree/merkle_tree.h:241-278 | Trees with equal sets of (key, hash) answer every point alike, and report no difference for each other's top and for both child points of any traverse. |
| MerkleDiff.DiffAnswers | src/lib/merkle_tree/merkle_tree.h:114-173 | Exactly one of the five kinds of answer comes back, marked missing exactly for the two ranges, and when: a range (hash 0, key 0, keybits 65535) only from an empty tree, no difference for equal hashes, an exchange for one differing entry under the very key asked for, a traverse for a branch exactly at the point, a partial range otherwise. Exchange and partial range name the node by a key stored below it, its hash and its own keybits. |
| Reconcile.EveryDifferenceReported | src/lib/merkle_tree/merkle_tree.h:241-324 | Completeness, for two replicas at rest that are not empty: if no two different contents of nodes have one hash, then for every key stored in only one tree, or with different hashes, one of the two conversations that start from the tops (each asked of the other side, and then going back and forth along traverse answers) comes to a request for an exchange or a partial range about a node holding that key. |
| Reconcile.OneWayMisses | src/lib/merkle_tree/merkle_tree.h:241-324 | Both conversations are needed: a concrete pair of replicas where two keys are missing on one side, that side answers the other's top with a traverse, and both points it names are then answered with no difference. |
| MerkleDiff.HashLookup | src/lib/merkle_tree/merkle_tree.h:230-239 | The hash of the node nearest to the prefix, found or not by whether it is a branch; 0 and not found when empty. |
| MerkleDiff.GetPoint | src/lib/merkle_tree/merkle_tree.h:202-215 | The point of a node: its hash and critical bit, or the leaf's hash and whole key. |
| MerkleDiff.Top | src/lib/merkle_tree/merkle_tree.h:241-247 | The point of the root, or the null location. |
| MerkleDiff.Diff | src/lib/merkle_tree/merkle_tree.h:259-324 | On the heap `diff` answers as specified, case by case. |
| MerkleDiff.ChildPoints | src/lib/merkle_tree/merkle_tree.h:304-322 | The two child points name the children by their leftmost keys; the third is the point asked for with this tree's hash. |
| FreeList.PopIsExact | src/third_party_lib/concurrentqueue/concurrentqueue.h:1452-1456 | At a successful exchange in `try_get` the node is the head of the list, the value installed is its true successor (no ABA), and the should-be-on-list flag is clear. |
| FreeList.WriterAlone | src/third_party_lib/concurrentqueue/concurrentqueue.h:1483-1494 | A thread about to write a node's next pointer is the only one with a reference or a claim to it, and the node is not on the list. |
| FreeList.StepKeeps | src/third_party_lib/concurrentqueue/concurrentqueue.h:1415-1503 | Every atomic step keeps the invariant: acyclic duplicate-free list, reference word equal to list membership plus live references plus flag, at most one holder. |
| FreeList.RunKeeps | src/third_party_lib/concurrentqueue/concurrentqueue.h:1415-1503 | So it holds in every state of every run of any number of threads. |
| FreeList.PopTakesFirst | src/third_party_lib/concurrentqueue/concurrentqueue.h:1454-1463 | In every run a successful exchange in `try_get` takes the first node off the list and leaves exactly the rest. |
| FreeList.ReleaseIsClear | src/third_party_lib/concurrentqueue/concurrentqueue.h:1456-1462 | The assertion after the exchange: in every run, whatever the other threads did since, the flag of the node won is clear when its two references are dropped, and both are still counted. |
| FreeList.HeldOnce | src/third_party_lib/concurrentqueue/concurrentqueue.h:1438-1475 | A node is in at most one caller's hands, and then neither at the head of the list nor just won by another thread. |
| FreeList.OneWinner | src/third_party_lib/concurrentqueue/concurrentqueue.h:1455-1463 | Two threads never win the same node. |
| FreeList.NothingLost | src/third_party_lib/concurrentqueue/concurrentqueue.h:1415-1503 | When no thread is busy every node is held by one caller or on the list, and its reference word is 0 or 1 accordingly. |
| FreeListCalls.LoadHeadIs | src/third_party_lib/concurrentqueue/concurrentqueue.h:1443-1444 | In any interleaving, reading the head ends `try_get` if and only if the list is empty, and else leads to its first node. |
| FreeListCalls.NullMeansEmpty | src/third_party_lib/concurrentqueue/concurrentqueue.h:1438-1475 | In every run, whenever `try_get` ends without a node the list was empty at some moment of that very call. |
| FreeListCalls.LoneGet | src/third_party_lib/concurrentqueue/concurrentqueue.h:1438-1463 | Wherever the other threads stand, `try_get` alone ends within six operations, with the first node in the caller's hands and the rest of the list left, or with nothing changed exactly if the list is empty. |
| FreeListCalls.LoneAdd | src/third_party_lib/concurrentqueue/concurrentqueue.h:1425-1503 | Wherever the other threads stand, `add` alone ends within five operations: the node is then the first of the list if no thread still refers to it, and else flagged, the list unchanged. |
| FreeListProgress.NeverBlocked | src/third_party_lib/concurrentqueue/concurrentqueue.h:1425-1503 | From every state of every run, whichever call a thread is in and wherever the others stand, it alone ends its call within 27 operations. |
| DequeueProtocol.WonIsThere | src/third_party_lib/concurrentqueue/concurrentqueue.h:1926-2023 | All tickets together have won no more elements than were enqueued, because an overcommit value read before a ticket counts only what smaller tickets lost. |
| DequeueProtocol.HeadWithinTail | src/third_party_lib/concurrentqueue/concurrentqueue.h:1926-2023 | `headIndex` never passes `tailIndex` and the overcommit count never passes the optimistic count. |
| DequeueProtocol.StepKeeps | src/third_party_lib/concurrentqueue/concurrentqueue.h:2218-2308 | Each atomic step of a single or bulk dequeue, and each enqueue, keeps the counter invariant. |
| DequeueProtocol.RunKeeps | src/third_party_lib/concurrentqueue/concurrentqueue.h:2218-2308 | The invariant holds in every state of every run, any number of consumers mixing single and bulk dequeues. |
| DequeueProtocol.ClaimIsThere | src/third_party_lib/concurrentqueue/concurrentqueue.h:1960-1990 | What a consumer is about to claim has been enqueued. |
| DequeueProtocol.ClaimsDisjoint | src/third_party_lib/concurrentqueue/concurrentqueue.h:1960-1990 | The claims are consecutive runs of indices: none is claimed twice and none skipped. |
| DequeueProtocol.ClaimedOnce | src/third_party_lib/concurrentqueue/concurrentqueue.h:1960-1990 | In every run no index is claimed twice, and every claimed index was enqueued. |
| DequeueProtocol.QuietCounters | src/third_party_lib/concurrentqueue/concurrentqueue.h:1926-2023 | With no consumer at work, optimistic count minus overcommit is the head index. |
| DequeueProtocol.NeverBlocked | src/third_party_lib/concurrentqueue/concurrentqueue.h:1926-2023 | In every run a consumer in the middle of a call can always take its next step, an idle one can start a call, and an enqueue is always possible. |
| DequeueProtocol.LoneDequeue | src/third_party_lib/concurrentqueue/concurrentqueue.h:2218-2308 | Alone, a dequeue of up to max elements ends within six operations and claims the smaller of max and the size: it fails only on an empty queue, and then leaves everything as it was. |
| CircularOrder.ComparesWrapped | src/third_party_lib/concurrentqueue/concurrentqueue.h:455-466 | The wrapped comparison orders counters that are less than half a word apart, however often they wrapped. |
| CircularOrder.HalfIsUnordered | src/third_party_lib/concurrentqueue/concurrentqueue.h:455-466 | At exactly half a word apart neither counter is less. |
| CircularOrder.SingleIsBulkOfOne | src/third_party_lib/concurrentqueue/concurrentqueue.h:2218-2230 | The test of the single dequeue and the test of the bulk dequeue agree. |
| CuckooIndex.AltIndexInvolution | src/third_party_lib/libcuckoo/cuckoohash_map.hh:911-923 | `alt_index` applied twice gives the bucket back, at every table size. |
| CuckooIndex.OtherBucket | src/third_party_lib/libcuckoo/cuckoohash_map.hh:915-922 | The tag is made odd for it: a key's two buckets differ in every table of two buckets or more. |
| CuckooIndex.SignedTags | src/third_party_lib/libcuckoo/cuckoohash_map.hh:917-920 | The tag counts as a signed byte times the hash constant, at both ends of its range. |
| CuckooIndex.IndexGrows | src/third_party_lib/libcuckoo/cuckoohash_map.hh:905-909 | The first bucket at the doubled size lies over the one at the old size. |
| CuckooIndex.AltIndexGrows | src/third_party_lib/libcuckoo/cuckoohash_map.hh:911-923 | So does the second bucket. |
| CuckooIndex.TwoHomes | src/third_party_lib/libcuckoo/cuckoohash_map.hh:1611-1640 | A bucket of the doubled table is an old bucket or exactly the old size above one. |
| Cuckoo.KeyIsHere | src/third_party_lib/libcuckoo/cuckoohash_map.hh:905-930 | A stored key whose buckets can be locked lies in one of its two buckets with its own partial key, even in the middle of a doubling. |
| Cuckoo.ContainsKey | src/third_party_lib/libcuckoo/cuckoohash_map.hh:1416-1429 | Scanning the two buckets finds the key if and only if the map has it. |
| Cuckoo.InsertKeeps | src/third_party_lib/libcuckoo/cuckoohash_map.hh:1439-1461 | The direct insertion answers duplicated if and only if the key is there, needs to displace something if and only if it is not and both buckets are full, adds exactly one entry on success, and changes nothing otherwise. |
| Cuckoo.InsertPlace | src/third_party_lib/libcuckoo/cuckoohash_map.hh:1439-1461 | The direct insertion uses the first bucket unless it is full, and there the first free slot; no other slot changes. |
| Cuckoo.HopKeeps | src/third_party_lib/libcuckoo/cuckoohash_map.hh:1181-1199 | A move of one item to its other bucket leaves the map as it is, whatever happened since the search; it is refused if and only if the item is gone or replaced or the target is taken, and then changes nothing. |
| Cuckoo.HopAndInsertKeeps | src/third_party_lib/libcuckoo/cuckoohash_map.hh:1463-1488 | The last move, the second look for the key and the insertion are together an insertion into the map or nothing. |
| Cuckoo.DeleteKeeps | src/third_party_lib/libcuckoo/cuckoohash_map.hh:1532-1542 | Deletion takes exactly the key out of the map and succeeds if and only if it was there. |
| Cuckoo.UpdateKeeps | src/third_party_lib/libcuckoo/cuckoohash_map.hh:1360-1378 | Update changes exactly that key's value and succeeds if and only if it was there. |
| Cuckoo.FindAnswers | src/third_party_lib/libcuckoo/cuckoohash_map.hh:1400-1414 | Find gives the map's value, or reports the key missing. |
| Cuckoo.StayOrGo | src/third_party_lib/libcuckoo/cuckoohash_map.hh:1611-1690 | Every item of a split bucket either goes up or satisfies the else branch's assertion, and is then at home at the new size. |
| Cuckoo.SplitUp | src/third_party_lib/libcuckoo/cuckoohash_map.hh:1640-1690 | The slot an item goes up to is free, and the move keeps the map. |
| Cuckoo.SplitBucketKeeps | src/third_party_lib/libcuckoo/cuckoohash_map.hh:1611-1706 | Splitting one bucket keeps the map and leaves every item in one of its two new buckets. |
| Cuckoo.StartDoublingKeeps | src/third_party_lib/libcuckoo/cuckoohash_map.hh:1611-1706 | Starting to double keeps the map, doubles the mask and leaves no bucket open until it is split. |
| Cuckoo.EndDoublingKeeps | src/third_party_lib/libcuckoo/cuckoohash_map.hh:1611-1706 | When all old buckets are split the doubled table satisfies the ordinary invariant, holds the same map and is open to everyone. |
| CuckooRuns.StepRefines | src/third_party_lib/libcuckoo/cuckoohash_map.hh:1360-1542 | Every critical section, lookups included, keeps the invariant and is atomically its map operation, with thread-local data as stale as it may be; a lookup hands out exactly the map's value; a hop or the end of an insertion succeeds if and only if the mask is still the one read, the item to be moved is still there, its target (or the free slot) is free, and for an insertion the key is absent. |
| CuckooRuns.RunRefines | src/third_party_lib/libcuckoo/cuckoohash_map.hh:1360-1706 | Over every interleaving, doublings included: each answer, and each value a lookup hands out, is the one a plain map would give at that moment, the table stands for that map, and inserts minus deletes is its size. |
| SearchOrder.LastDigit | src/third_party_lib/libcuckoo/cuckoohash_map.hh:1085-1089 | Taking a base-slot_per_bucket digit off a path's number takes its last slot off the path. |
| SearchOrder.CodeFits | src/third_party_lib/libcuckoo/cuckoohash_map.hh:952-966 | A path's number stays below twice slot_per_bucket to the path's length. |
| SearchOrder.NumberFinds | src/third_party_lib/libcuckoo/cuckoohash_map.hh:1032-1068 | Every path has a place in the order in which the search comes to paths while all is occupied. |
| SearchOrder.NumberOfNth | src/third_party_lib/libcuckoo/cuckoohash_map.hh:1032-1068 | And only one: no path is met twice. |
| SearchOrder.NthLength | src/third_party_lib/libcuckoo/cuckoohash_map.hh:1032-1068 | The order is breadth first: the paths of up to n slots come before all others, and there are as many as the geometric sum says. |
| SearchOrder.FullAtLast | src/third_party_lib/libcuckoo/cuckoohash_map.hh:985-1022 | When the queue is full, exactly as many slots have been looked at as `Looks` says: all those of paths of up to four moves up to three slots a bucket, and 510 + 508 / (w - 1) for w of them. |
| SearchOrder.EmptyAtLast | src/third_party_lib/libcuckoo/cuckoohash_map.hh:985-1022 | And when it is empty, too. |
| CuckooSearch.ShorterIsFull | src/third_party_lib/libcuckoo/cuckoohash_map.hh:1032-1068 | When the search takes out a path, everything that can be walked in fewer steps was taken out before and leads to full buckets only. |
| CuckooSearch.FoundIsLoopless | src/third_party_lib/libcuckoo/cuckoohash_map.hh:1032-1068 | The path found never visits a bucket twice. |
| SearchReach.OccupiedIff | src/third_party_lib/libcuckoo/cuckoohash_map.hh:1032-1068 | The first n slots looked at are all occupied if and only if every path with a number below n + 2 can be walked. |
| SearchReach.NarrowFails | src/third_party_lib/libcuckoo/cuckoohash_map.hh:1032-1068 | With up to three slots a bucket the search fails if and only if no path of up to four moves leads to a free slot. |
| SearchReach.WideFails | src/third_party_lib/libcuckoo/cuckoohash_map.hh:1032-1068 | With more it looks at no slot beyond three moves: it fails whenever no path of up to three moves leads to a free slot, whatever four moves would do. |
| SearchReach.FourFails | src/third_party_lib/libcuckoo/cuckoohash_map.hh:1032-1068 | With four slots a bucket, the default, it fails if and only if no path of up to two moves leads to a free slot and all slots three moves away are occupied, but for the one slot it does not get to. |
| MissedPath.SearchMisses | src/third_party_lib/libcuckoo/cuckoohash_map.hh:1032-1068 | A concrete table of eight buckets, five of them full, that satisfies the map's invariant: four moves would free a slot for a new key, and every slot the search looks at is occupied. |
| CuckooSearch.NextIsTarget | src/third_party_lib/libcuckoo/cuckoohash_map.hh:1111-1126 | The bucket worked out from the key's hash is the one the stored partial gives, and the source's assertion on it holds. |
| CuckooSearch.LastMove | src/third_party_lib/libcuckoo/cuckoohash_map.hh:1160-1200 | Along a recorded path in a table at rest the last move passes its revalidation, and the remaining path stays good. |
| CuckooSearch.EndsPath | src/third_party_lib/libcuckoo/cuckoohash_map.hh:1160-1200 | When only the last move is left, the path hands the end of the insertion a slot of one of the key's own buckets and a move that goes through. |
| CuckooMap.CuckooMap.TryFindInsertBucket | src/third_party_lib/libcuckoo/cuckoohash_map.hh:1313-1337 | False exactly if the key is in the bucket; otherwise no slot matches it, and the slot returned is the first free one, or none exactly if the bucket is full. |
| CuckooMap.CuckooMap.CuckooInsert | src/third_party_lib/libcuckoo/cuckoohash_map.hh:1439-1461 | The method does to the fields what the specified insertion does to the table. |
| CuckooMap.CuckooMap.CuckooDelete | src/third_party_lib/libcuckoo/cuckoohash_map.hh:1532-1542 | The method does to the fields what the specified deletion does to the table. |
| CuckooMap.CuckooMap.CheckInBucket | src/third_party_lib/libcuckoo/cuckoohash_map.hh:1282-1298 | The first slot of the bucket that holds the key; none exactly if no slot matches it. |
| CuckooMap.CuckooMap.AddToBucket | src/third_party_lib/libcuckoo/cuckoohash_map.hh:1300-1311 | The slot gets the entry with its key's partial, and the inserts are counted up. |
| CuckooMap.CuckooMap.MoveAlong | src/third_party_lib/libcuckoo/cuckoohash_map.hh:1181-1199 | One hop of the path, with its three revalidations. |
| CuckooMap.CuckooMap.SlotSearch | src/third_party_lib/libcuckoo/cuckoohash_map.hh:1032-1068 | In a table at rest the breadth-first search ends. It returns, in its number, a shortest path through occupied slots to a free one, without loops, and that slot is the first free one in the order of the search; it fails if and only if every slot it looks at is occupied. |
| CuckooMap.CuckooMap.ExpandItem | src/third_party_lib/libcuckoo/cuckoohash_map.hh:1039-1064 | One queue item: a free slot in its bucket ends the search; otherwise every item of the bucket is queued one step further, unless the path is long enough or the queue runs over. |
| CuckooMap.CuckooMap.ReadSlots | src/third_party_lib/libcuckoo/cuckoohash_map.hh:1085-1101 | Reading the digits off the number from the end gives the path's slots and leaves 0 or 1, its starting bucket. |
| CuckooMap.CuckooMap.ReadRecords | src/third_party_lib/libcuckoo/cuckoohash_map.hh:1102-1129 | The records follow the path bucket by bucket. |
| CuckooMap.CuckooMap.PathSearch | src/third_party_lib/libcuckoo/cuckoohash_map.hh:1078-1129 | The records made from the number say where each item goes, end in a free slot, and start in one of the two buckets; -1 if and only if every slot the search looks at is occupied. |
| CuckooMap.CuckooMap.PathMove | src/third_party_lib/libcuckoo/cuckoohash_map.hh:1139-1202 | In a table at rest every move succeeds, the map is unchanged and the path's first slot ends up free. |
| CuckooMap.CuckooMap.InsertAlone | src/third_party_lib/libcuckoo/cuckoohash_map.hh:1439-1495 | With nobody else at work an insertion answers as the map would; it reports a full table if and only if the key is absent, both its buckets are full and so is every slot the search looks at, and then nothing changed. |
| CuckooMap.CuckooMap.MoveBucket | src/third_party_lib/libcuckoo/cuckoohash_map.hh:1611-1690 | Splitting a bucket in place gives the specified split; the source's assertion on items that stay holds. |
| VectorClocks.CompareDecides | src/lib/vector_clock/bounded_version_vector.h:64-108 | Below the limit `compare` decides the vector-clock order exactly, in all four cases. |
| VectorClocks.CompareIs | src/lib/vector_clock/bounded_version_vector.h:64-77 | For any two lists: less if what is compared of the second has a clock that what is compared of the first lacks or has older; greater the other way round, or for being the longer list. |
| VectorClocks.ByKeyFirst | src/lib/vector_clock/bounded_version_vector.h:156-159 | Of several clocks with one key the first counts. |
| VectorClocks.CompareMirrors | src/lib/vector_clock/bounded_version_vector.h:64-77 | Comparing the other way round mirrors the answer: for lists of equal length, and for any two of distinct keys of which one is below the limit; so for all vectors within the limit. |
| VectorClocks.MirrorsIff | src/lib/vector_clock/bounded_version_vector.h:40-77 | For any two lists, as the constructor takes them: the answer mirrors if and only if the lengths are equal or what is compared of the longer list has a clock that what is compared of the shorter lacks or has older. |
| VectorClocks.OverLimitTurns | src/lib/vector_clock/bounded_version_vector.h:40-77 | Two concrete lists over a limit of 2 that do not mirror: GREATER_THAN one way and CONFLICT the other. |
| VectorClocks.IncrementIsSeen | src/lib/vector_clock/bounded_version_vector.h:45-57 | After any single increment of a newer clock (limit at least 2) the old vector compares LESS_THAN and the new one GREATER_THAN, although the oldest clock may be evicted and both sides cut. |
| VectorClocks.IncrementAnswer | src/lib/vector_clock/bounded_version_vector.h:45-57 | What comparing before with after an increment answers, both ways, in every case: any limit, any list within it, a new clock that is newer, equal or older. |
| VectorClocks.IncrementSeenIff | src/lib/vector_clock/bounded_version_vector.h:45-57 | The old vector compares LESS_THAN if and only if the new clock is newer and there is room for two clocks (or for one, and no other key is stored), or the vector was full and the key behind the first place of its older half. |
| VectorClocks.VersionGoesUp | src/lib/vector_clock/bounded_version_vector.h:45-57 | A version vector's new clock is newer except exactly when its 32-bit count wraps. |
| VectorClocks.TimeGoesUp | src/lib/vector_clock/bounded_time_vector.h:65-83 | A time vector's new clock is newer whatever time is supplied, backwards included, except exactly when time stands still and the 16-bit count wraps. |
| VectorClocks.WrapGoesBack | src/lib/vector_clock/bounded_version_vector.h:45-57 | A concrete wrapped count that makes the increment compare as GREATER_THAN. |
| VectorClocks.WrapLooksNewer | src/lib/vector_clock/bounded_version_vector.h:45-57 | In any full vector of at least four clocks the last one may wrap to 0, and the increment still compares as LESS_THAN. |
| VectorClocks.StaleCutsNew | src/lib/vector_clock/bounded_version_vector.h:134-147 | Where `findEnd` cuts the new vector when the new clock is not newer. |
| VectorClocks.StaleHides | src/lib/vector_clock/bounded_version_vector.h:134-179 | When a full vector renews a clock of its older half with one that is not newer, the cut hides the clock that was replaced and shows the new one: LESS_THAN. |
| VectorClocks.RenewPlaces | src/lib/vector_clock/bounded_version_vector.h:45-57 | Where every clock is after an increment, which one is lost, and that keys stay distinct. |
| VectorClocks.RenewCutsOld | src/lib/vector_clock/bounded_version_vector.h:134-147 | Where `findEnd` cuts the old vector against the new one. |
| VectorClocks.RenewCutsNew | src/lib/vector_clock/bounded_version_vector.h:134-147 | Where `findEnd` cuts the new vector against the old one. |
| VectorMerge.MergeIsMaximum | src/lib/vector_clock/bounded_version_vector.h:79-104 | Before clocks are dropped a merge that stays inside the list is the pointwise maximum of the two vectors. |
| VectorMerge.MergeKeeps | src/lib/vector_clock/bounded_version_vector.h:79-108 | A merge keeps keys distinct and the size within the limit; what is kept is the front of the pointwise maximum. |
| VectorMerge.MergeIsLeast | src/lib/vector_clock/bounded_version_vector.h:79-104 | The merge is the least vector that both inputs are at most. |
| VectorMerge.MergeComparesAbove | src/lib/vector_clock/bounded_version_vector.h:64-108 | Below the limit `compare` finds both inputs less than or equal to their merge. |
| VectorMerge.DefinedIff | src/lib/vector_clock/bounded_version_vector.h:82-102 | A merge stays inside the list if and only if our clocks behind the insert position do not run out, which is decided from the two inputs. |
| VectorMerge.OrderlyMerge | src/lib/vector_clock/bounded_version_vector.h:79-104 | It does, and is the maximum, when no confirmed clock is followed by a replacement further to the front; in particular when the shared clocks are all newer or all not newer. |
| VectorMerge.MixedRunsOut | src/lib/vector_clock/bounded_version_vector.h:88-91 | A concrete mixed merge whose insertion would be past the end. |
| VectorMerge.DisjointInterleaves | src/lib/vector_clock/bounded_version_vector.h:103-107 | Two vectors without a common key are interlaced, ours first, and cut at the limit. |
| MergeLayout.Gathers | src/lib/vector_clock/bounded_version_vector.h:83-92 | As long as ours confirms none of theirs, theirs gather in front in their order, and behind them stand ours without the keys replaced. |
| MergeLayout.FirstConfirmed | src/lib/vector_clock/bounded_version_vector.h:93-101 | At the first clock that ours confirms, the clocks gathered in front are interlaced with ours before it, and the insert position is right behind it. |
| MergeLayout.AfterMatch | src/lib/vector_clock/bounded_version_vector.h:83-102 | From then on, whatever comes: a new or newer clock goes right behind what is in front, a confirmed one moves the position behind itself, and a newer one that ours has in front already takes one clock of the rest over, or runs past the end. |
| MergeLayout.LaysOut | src/lib/vector_clock/bounded_version_vector.h:79-108 | An orderly merge is exactly this list: the leading clocks of theirs interlaced with ours before the first match, then theirs in their order with ours up to each confirmed clock; and of it the first clocks up to the limit. |
| VectorMerge.WeaveAt | src/lib/vector_clock/bounded_version_vector.h:182-196 | In the interlaced part even places are ours in order and odd places theirs. |
| BoundedVector.BoundedVector.IncrementVersion | src/lib/vector_clock/bounded_version_vector.h:45-57 | In place: the specified list, in front of it the key with its count one up (1 if new, modulo 2^32); the answer of comparing old and new, both ways and for every place of the key, with the clock older exactly if its 32-bit count wraps. |
| BoundedVector.BoundedVector.IncrementTime | src/lib/vector_clock/bounded_time_vector.h:65-83 | In place, for any supplied time: the specified list, in front of it the key with the supplied time and count 0 if it is new or the time moved on, else with the stored time and its count one up (modulo 2^16); the answer of comparing old and new, with the clock older exactly if time stands still and its 16-bit count wraps. |
| BoundedVector.BoundedVector.PushFront | src/lib/vector_clock/bounded_version_vector.h:45-57 | The edit both increments make gives the specified list, and the comparison of old and new answers as specified for any new clock. |
| BoundedVector.BoundedVector.KeySet | src/lib/vector_clock/bounded_version_vector.h:156-159 | Copying a list into a set keeps the first clock of every key, and has every key. |
| BoundedVector.BoundedVector.FindEnd | src/lib/vector_clock/bounded_version_vector.h:134-147 | The loop finds the specified cut. |
| BoundedVector.BoundedVector.CompareCut | src/lib/vector_clock/bounded_version_vector.h:149-179 | Copying to sets, walking the first and striking out of the second gives the specified answer. |
| BoundedVector.BoundedVector.Strike | src/lib/vector_clock/bounded_version_vector.h:161-178 | Less exactly if the second set has a key the first lacks or a newer clock, greater exactly the other way round. |
| BoundedVector.BoundedVector.Compare | src/lib/vector_clock/bounded_time_vector.h:90-103 | The method answers as specified, swapped sides included. |
| BoundedVector.BoundedVector.Reorient | src/lib/vector_clock/bounded_version_vector.h:182-196 | Moving clocks up one at a time interlaces the additions with ours. |
| BoundedVector.BoundedVector.MergeClock | src/lib/vector_clock/bounded_version_vector.h:83-102 | One turn of the merge loop does to the list, the insert position and the flag what the specification says; it reports a turn that would go past the end, exactly when the specification has none. |
| BoundedVector.BoundedVector.PopToLimit | src/lib/vector_clock/bounded_version_vector.h:106-107 | The clocks past the limit are dropped from the back, and no others. |
| BoundedVector.BoundedVector.Merge | src/lib/vector_clock/bounded_time_vector.h:105-135 | In place: the specified merge, with distinct keys and within the limit, for any two lists whose merge stays inside the list; it reports exactly the others. |
| ChunkParser.AccumulateIsExact | src/third_party_lib/http_parser/http_parser.c:1957-1967 | One more digit passes the conservative test exactly when it can, and then the 64-bit product neither wraps nor reaches ULLONG_MAX. |
| ChunkParser.ContentLengthIs | src/third_party_lib/http_parser/http_parser.c:1572-1597 | A Content-Length value is taken if and only if it is digits and spaces, a digit first, of at most 2^64 - 7, and is then the number written. |
| SizeField.LengthIsRead | src/third_party_lib/http_parser/http_parser.c:1572-1597 | A Content-Length of decimal digits, leading zeros included, is the number the digits stand for, if and only if that is at most 2^64 - 7; else it is refused. |
| ChunkParser.BodyStarts | src/third_party_lib/http_parser/http_parser.c:1825-1866 | Behind a header the body begins in a state the source's assertions hold in, whatever the header says about the length; a chunked body begins with the length left as it is, ULLONG_MAX if the header has none. |
| ChunkParser.StepKeeps | src/third_party_lib/http_parser/http_parser.c:1918-2034 | Every byte keeps what the source asserts on its states: the size is not 0 nor ULLONG_MAX in a body, 0 after it, and the header count starts again. |
| ChunkParser.RunKeeps | src/third_party_lib/http_parser/http_parser.c:1918-2034 | So it holds after any input. |
| ChunkParser.RunChunkData | src/third_party_lib/http_parser/http_parser.c:1998-2019 | A stretch of chunk data is delivered as it is and the rest of the chunk counted down. |
| SizeField.UnhexIsPlace | src/third_party_lib/http_parser/http_parser.c:225-240 | A character has the value of its place in 0123456789abcdef or 0123456789ABCDEF, and no other has one. |
| SizeField.SizeIsRead | src/third_party_lib/http_parser/http_parser.c:1918-1969 | A size of hexadecimal digits of either case, leading zeros included, is read as the number they stand for if and only if that is at most 2^64 - 17; else it is refused as too large. |
| SizeField.SizeLine | src/third_party_lib/http_parser/http_parser.c:1918-1996 | An extension behind a semicolon or a space, up to the CR, leaves the size alone; then comes the chunk's data, or the trailer after size 0. |
| SizeField.ChunkIsTaken | src/third_party_lib/http_parser/http_parser.c:1918-2034 | However its size is written, a chunk is delivered whole and the next one can follow. |
| SizeField.NoSize | src/third_party_lib/http_parser/http_parser.c:1918-1955 | Where a size begins anything but a digit is refused; inside it anything but a digit, CR, semicolon or space is. |
| SizeField.HeaderLimit | src/third_party_lib/http_parser/http_parser.c:155-162 | A line may have 81920 bytes and not one more (a bare LF that ends the message counts twice). |
| SizeField.TokenIs | src/third_party_lib/http_parser/http_parser.c:182-218 | A trailer field begins with visible ASCII that is no separator, as section 2.2 of RFC 2616 has it. |
| ChunkGrammar.Taken | src/third_party_lib/http_parser/http_parser.c:1918-2034 | Every text of the chunked grammar without trailer fields (sizes within the limit, any extensions, a bare LF allowed at the very end) is taken as one message, and its chunks' data is what is delivered. |
| ChunkGrammar.AcceptsExactly | src/third_party_lib/http_parser/http_parser.c:1918-2034 | From a chunk's start, input is taken as exactly one message if and only if it is a text of that grammar. |
| ChunkGrammar.OneMeaning | src/third_party_lib/http_parser/http_parser.c:1918-2034 | However such a text is read, it carries the same body. |
| ChunkGrammar.RefusedFor | src/third_party_lib/http_parser/http_parser.c:1913-2034 | Which error a byte is refused with, and in which states, the size's digits apart. |
| ChunkGrammar.RefusedDelivers | src/third_party_lib/http_parser/http_parser.c:1913-2034 | A byte that is refused delivers nothing and completes nothing; one byte completes at most one message, exactly when the parser is then behind it. |
| ChunkPrinter.HttpByteStream.Write | src/lib/http/HttpByteStream.cpp:24-39 | The bytes sent are the header, once, and then the size in hexadecimal, the data and the line ends. |
| ChunkPrinter.HttpByteStream.WriteHeader | src/lib/http/HttpByteStream.cpp:53-59 | The header for the status is sent and remembered as sent. |
| ChunkPrinter.HttpByteStream.Reset | src/lib/http/HttpByteStream.cpp:47-51 | The next write sends a header again, with status 200. |
| ChunkPrinter.SizeReadsBack | src/third_party_lib/http_parser/http_parser.c:1918-1969 | A printed size is read back as the same number if and only if it is at most 2^64 - 17; larger ones are refused. |
| SizeField.PrintedDigits | src/lib/serialize/str.h:27-32 | The printed size is lower case, without leading zeros, and its digits stand for the number. |
| ChunkPrinter.RunChunk | src/third_party_lib/http_parser/http_parser.c:1918-2034 | A printed chunk is delivered whole and the next one can follow. |
| ChunkPrinter.RunLastChunk | src/third_party_lib/http_parser/http_parser.c:1982-1996 | The empty chunk and its blank line complete the message once. |
| ChunkPrinter.HttpByteStream.SetStatus | src/lib/http/HttpByteStream.cpp:42-45 | The next header sent has this status. |
| ChunkPrinter.PrintRuns | src/lib/http/HttpByteStream.cpp:24-39 | The bytes of any non-empty writes followed by an empty one are parsed to exactly the bytes written and one end of message. |
| ChunkPrinter.CutShort | src/third_party_lib/http_parser/http_parser.c:1918-2034 | Input that ends a message with its last byte is, cut short anywhere, neither an error nor a complete message, and the end of input there is an error. |
| ChunkExchange.SendAll | src/lib/http/HttpByteStream.cpp:24-39 | A list of `write` calls sends the header once and then the chunks in order. |
| ChunkExchange.ReceiveAll | src/lib/http/HttpParser.cpp:32-39 | Feeding the parser any non-empty buffers reports the error of their bytes one by one, or none and the same state and body: how input is split into non-empty buffers makes no difference. |
| ChunkExchange.Exchange | src/lib/http/HttpByteStream.cpp:24-39 | Any non-empty writes and an empty one, sent by the stream and received in any non-empty buffers by a parser before its first chunk, whatever length its field has (ULLONG_MAX behind the stream's own header) and whatever it received before: accepted, with exactly the bytes written added to the body and one end of message. |
| ChunkPrinter.IdentityBody | src/third_party_lib/http_parser/http_parser.c:1870-1916 | A body of known length is exactly that many bytes however long the input, and complete once, with the last of them. |
| ChunkPrinter.EofBody | src/third_party_lib/http_parser/http_parser.c:647-654 | A body up to the end of input is all of the input, and is complete once, with the end. |
| ChunkPrinter.BodyBehindHeader | src/third_party_lib/http_parser/http_parser.c:1842-1866 | Behind a header without chunks: exactly the length given is the body and the message is complete with its last byte; without one all input up to its end is, or, where the header rules a body out, nothing; input that ends sooner is an error. |
| ChunkExecute.HttpParser.TakeByte | src/third_party_lib/http_parser/http_parser.c:1913-2034 | The states outside a body do to the fields what the specification says for one byte. |
| ChunkExecute.HttpParser.TakeChunkData | src/third_party_lib/http_parser/http_parser.c:1998-2019 | Taking as much of a chunk as the buffer has is taking its bytes one by one. |
| ChunkExecute.HttpParser.TakeOne | src/third_party_lib/http_parser/http_parser.c:2021-2034 | A byte outside a body, with the bytes of a chunk in this buffer handed over at the CR behind it; on an error they are not. |
| ChunkExecute.HttpParser.TakeIdentity | src/third_party_lib/http_parser/http_parser.c:1870-1916 | Taking as much of a body as the buffer has is taking its bytes one by one; the last byte completes the message. |
| ChunkExecute.HttpParser.TakeToEof | src/third_party_lib/http_parser/http_parser.c:1907-1911 | A body to the end of input takes the whole buffer. |
| ChunkExecute.HttpParser.Execute | src/third_party_lib/http_parser/http_parser.c:627-2073 | Accepted input has exactly the effect of its bytes one by one; an error is reported at the byte that causes it, and what has been handed over then is the body up to where the stretch of body began that this buffer had not ended, if there is one, and all of it otherwise. |
| ChunkExecute.HttpParser.ExecuteEmpty | src/third_party_lib/http_parser/http_parser.c:647-666 | From any state: an empty buffer completes a body that runs to the end of input once more, is ignored after a message and after an error, and is an error within a message; behind what is modelled of it, either. Nothing else changes. |
| ChunkExecute.HttpParser.ParseBuffer | src/lib/http/HttpParser.cpp:32-39 | True exactly if the buffer was accepted; a non-empty buffer then has the effect of its bytes one by one, an empty one that of the end of input. |
| Tiger.FinishedIsHash | src/third_party_lib/crypto_base/tiger.c:698-735 | The padded last block or two complete the hash of the padded message, for every length. |
| Tiger.FinishedFolds | src/third_party_lib/crypto_base/tiger.c:709-731 | Up to 55 left-over bytes need one more block, from 56 on two; zeros fill up to the length word. |
| Tiger.PaddedInjective | src/third_party_lib/crypto_base/tiger.c:709-731 | Different messages whose bit length fits the length word are never padded to the same blocks. |
| Tiger.PaddedIs | src/third_party_lib/crypto_base/tiger.c:698-731 | The padded message byte by byte: the message, 0x01 or in version 2 0x80, zeros, and in the last eight bytes the length in bits, lowest byte first; as few blocks of 64 as hold it. |
| Tiger.OutputIs | src/third_party_lib/crypto_base/tiger.c:733-734 | The digest is the three words in their order, each with its lowest byte first, cut to the size asked for and to 24. |
| Tiger.Finish | src/third_party_lib/crypto_base/tiger.c:709-731 | The loops over the buffer make exactly the specified last blocks. |
| Tiger.PadTo8 | src/third_party_lib/crypto_base/tiger.c:709-717 | The padding byte and zeros fill up to a multiple of 8 bytes behind the buffered ones. |
| Tiger.FillUp | src/third_party_lib/crypto_base/tiger.c:726-730 | Zeros and the length word fill the block. |
| Tiger.Reference | src/third_party_lib/crypto_base/tiger.c:740-801 | The one-shot implementation hashes the padded message block by block. |
| Tiger.TigerContext.constructor | src/third_party_lib/crypto_base/tiger.c:640-650 | A fresh context is the state after the empty message; unknown versions become 1. |
| Tiger.TigerContext.Update | src/third_party_lib/crypto_base/tiger.c:652-696 | Afterwards the context is the state after everything so far: all whole blocks compressed in order, less than a block buffered, the length counted modulo 2^64. |
| Tiger.TigerContext.End | src/third_party_lib/crypto_base/tiger.c:698-735 | The digest is that of the padded message, cut to the size asked for, with the version's padding byte (`OutputIs` and `PaddedIs` say what these are, byte by byte). |
| Tiger.HashParts | src/third_party_lib/crypto_base/tiger.c:652-735 | Any split of a message into updates gives the one-shot hash of the whole. |
| Base64.CharsAscend | src/lib/serialize/base64.cpp:44-51 | The alphabet is sorted by byte value. |
| Base64.CharFound | src/lib/serialize/base64.cpp:44-56 | Every character of the alphabet is accepted and found at its own place. |
| Base64.OnlyAlphabet | src/lib/serialize/base64.cpp:47-56 | Nothing but the alphabet is accepted. |
| Base64.OctetsOfSextets | src/lib/serialize/base64.cpp:74-77 | Splitting three bytes into four parts and joining them gives the bytes back. |
| Base64.OctetsOfFewer | src/lib/serialize/base64.cpp:132-140 | One byte needs two parts and two bytes three, whatever the padding is decoded as. |
| Base64.RoundTrip | src/lib/serialize/base64.cpp:64-146 | Decoding an encoding gives the original bytes, for every byte string, both padded tails included. |
| Base64.OrderPreserved | src/lib/serialize/base64.cpp:44-51 | Strings of one length are ordered as their encodings are, both ways. |
| Base64.EncodeKeepsOrder | src/lib/serialize/base64.cpp:44-51 | Two strings that first differ at a byte both have are in the same order once encoded, whatever their lengths. |
| Base64.OrderKeptIff | src/lib/serialize/base64.cpp:44-51 | For strings of any lengths the order is kept except exactly where one is a prefix of the other, not of a multiple of three bytes, and goes on with small bytes. |
| Base64.PrefixMayTurn | src/lib/serialize/base64.cpp:98-99 | A concrete pair whose order the padding turns. |
| Base64Loops.EncodeBytes | src/lib/serialize/base64.cpp:64-105 | The loops compute the specified encoding, which decodes to the input. |
| Base64Loops.Characters | src/lib/serialize/base64.cpp:73-80 | Splitting a group and looking its parts up gives the specified characters. |
| Base64Loops.LastGroup | src/lib/serialize/base64.cpp:85-101 | One or two left-over bytes, filled up with zeros, give their characters and the padding. |
| Base64Loops.Octets | src/lib/serialize/base64.cpp:117-127 | Looking a group of characters up and joining the parts gives the specified bytes. |
| Base64Loops.LastBytes | src/lib/serialize/base64.cpp:131-143 | One, two or three left-over characters give none, one or two bytes. |
| Base64Loops.DecodeText | src/lib/serialize/base64.cpp:107-146 | The loops compute the specified decoding of any text: up to the first character outside the alphabet, a single left-over character dropped. |

## Left out

- `lower_bound` as an ordered lower bound: it returns the best-match leaf, which is all that is modelled of it.
- The second overload of `enumerate`, which visits a whole subtree, and `clear`, which frees it.
- Changing a stored value or hash in place through `pair::second()`; the tree's hashes are then stale until the next change.
- Failing allocations: `posix_memalign` is taken to succeed, and freed nodes are simply dropped.
- CritBitTree.CritBitTree.Insert: branch bytes are unbounded numbers, not 32-bit ones.
- MerkleDiff.Diff: keys are of fixed size with fewer than 65535 bits, so that 16-bit keybits hold every bit count and differ from the null location's.
- Reconcile.EveryDifferenceReported: replicas at rest and not empty (an empty one asks for a range at once), and no two different contents with one hash; equal XORs are reported as no difference, and nothing is claimed about the entries then. The exchange or range that is asked for is not modelled.
- Weak memory orders, and wrap-around of the queue's counters except for the comparison itself.
- The queue's block index, block recycling through emptiness counters, element construction and exceptions, and the choice among producers.
- DequeueProtocol.LoneDequeue: the tokens and the element transfer around the counters are not modelled.
- FreeList.StepKeeps: the reference word is a number with the flag as its top bit; it never wraps in a run.
- The cuckoo map's locks: a critical section is one atomic step, enabled when the buckets' locks can be had.
- CuckooMap.CuckooMap.SlotSearch: stated for a table nobody else changes; for a search that others disturb `CuckooRuns.StepRefines` covers the moves with any records, good or stale. The circular array of the queue is its contents, of at most 511 items.
- CuckooMap.CuckooMap.PathSearch: its early ends, which only a change by others can reach, are not taken.
- CuckooMap.CuckooMap.PathMove: stated for a table nobody else changes; a path of no moves is then already free.
- The slow way to grow (`cuckoo_expand_simple`), load-factor exceptions, iterators and the table's locked view.
- BoundedVector.BoundedVector.Merge: where the source goes past the end of its list, with no defined effect, the method stops and reports it, and says nothing about the list then.
- The iterator that `increment` uses after pushing to the front of the deque: positions stand for iterators.
- BoundedVector.BoundedVector.IncrementTime: the wall clock is a parameter.
- Request lines, status lines, URLs and header fields of the HTTP parser, trailer fields included: after the first byte of one the model ends.
- ChunkExecute.HttpParser.Execute: callbacks return 0 and do not pause; input behind a message or in a trailer field is passed over.
- ChunkExchange.Exchange: the parser starts behind the header, which is not parsed.
- The skip-body flag and upgrades of the HTTP parser.
- ChunkPrinter.HttpByteStream.Write: the header is any function of the status, and the underlying stream takes all bytes.
- The contents of Tiger's compression function and its tables, and big-endian machines.
- Base64Loops.DecodeText: lengths are unbounded, where the source counts in 32-bit integers.
- Sockets, servers, thread pools, files, processes and random numbers: input and output or foreign calls.
- URLs, string helpers, status texts, the routing table, the circular map and the hash ring: they would add easier members only.
