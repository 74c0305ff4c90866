# satz-algorithms in Dafny

This project models the algorithms and data structures of the Swift package
`satz-algorithms` and proves what their code and documentation promise.
The package ships several parallel snapshots of the same component. Each
family is modelled once, and every snapshot maps onto that one model.

- **Persistent red-black map** (`RedBlack`, `RBTreeMap`; `sorted_entries.dfy`
  holds the sorted-sequence facts they use).
  - Snapshots: `RBTree/` (class nodes and struct nodes), `BSTree/RBTree.swift`
    and `RbTree/RBTree.swift`.
  - Insertion uses Okasaki's balance (cases 1-4). Deletion uses Kahrs'
    `delformLeft`/`delformRight`, `balanceLeft`/`balanceRight`,
    `balanceForRemove` and `combine`.
  - A node is an immutable datatype value. Copy-on-write (`makeUnique`,
    `ensureUnique`, `with(...)`, `clone`) followed by an in-place write
    has the effect of a path copy, so persistence holds by construction.
  - The map (`RBTree`) is a class whose `insert`/`remove` reassign `root` and
    `count`. It is specified against the in-order entry sequence
    `Contents()`.
  - `get` is the two-way search loop.
- **Ternary search trees** (`TernarySearch`): `TSTree` and
  `GenericTSTree`, both with digits modelled as `char`.
  - Operations: insert, get, delete with pruning, longest stored prefix,
    keys in lexicographic order, prefix search with a cap, enumeration that
    stops when the block says so, and `.`-wildcard search.
- **Dictionary trie** (`Tries`): `Trie`, with the same operations.
  - Unlike the TST, the empty key is stored at the root.
- **Subsequence-indexed trees** (`SubsequenceTrees`): `STSTree`,
  `SubseqTSTree` (optional case folding) and `SubsequenceTST`.
  - Each stores a word under every non-empty subsequence of it.
  - `STSTree` and `SubseqTSTree` create a missing middle child with the
    character just matched, not the next one. So insertion can leave nodes
    that hold no word, and a search that stops on one calls its block with
    the empty set (`MiddleLinkNode`).
  - `SubsequenceTST` adds `fuzzySearch`. Its edit-distance table
    `isFuzzyMatch` is the `EditDistance` module, a 2-D array filled row by
    row.
- **Strings** (`Strings`): `allSubsequences` (the recursive `backtrack`,
  also `generateSubsequences`), `nGrams`, and ASCII lower-casing.
- **N-gram indexes** (`NGramIndexes`): `InvertedIndex` and `NGramIndex`.
  - Posting maps from gram to the set of document IDs.
  - Idempotent add, conjunctive search, tombstone delete and compaction.
- **Sorted-array search** (`SortedArray`): `lowerBound`/`upperBound`, range
  intersection and binary search, from `Satz+SortedArray.swift` and
  `SortedArrayUtils.swift`.
- **Graphs and topological sorting** (`Digraphs`, `Kahn`, `AlgorithmT`).
  - `Digraph` and `DynamicDigraph` (and the `DynamicDigraph` nested in
    `KahnAlgorithm.swift`) are one class. It has mirrored successor and
    predecessor maps and an `edgeCount`.
  - Kahn's algorithm runs over that class.
  - Knuth's Algorithm T (TAOCP Vol. 1, section 2.2.3) works on an array of
    nodes. The count/qlink overlay queue and the successor lists are kept
    as in the code.
  - `GenericAlgorithmT` renumbers vertices through a bimap.
  - Both sorts are proved to return a topological order, or `None` exactly
    when none exists.
- **Integers and sequences** (`Euclid`, `Integers`, `Permutation`).
  - `Euclid`: Euclid's gcd (three snapshots) and extended Euclid (Algorithm E,
    TAOCP Vol. 1, section 1.2.1).
  - `Integers`: `next_even` and `next_odd`.
  - `Permutation`: `applyPermutation`, pure and in place by following
    cycles with `swapAt`.

Generic `Comparable` keys are `int`, and strings are `seq<char>`. A
`precondition` of the code is a `requires`. The error paths the code handles
(a missing key, an empty result, a cyclic graph) are results (`Option`,
`[]`, `None`).

## Model

| member | source | states |
|---|---|---|
| RedBlack.LBalance | Sources/SatzAlgorithms/RBTree/RBTree+_Node.swift:404-434 | lbalance keeps the in-order entries; on a red node it changes nothing; when it rotates (cases 1-2) the result is a red node with two black children |
| RedBlack.RBalance | Sources/SatzAlgorithms/RBTree/RBTree+_Node.swift:436-467 | rbalance keeps the in-order entries; on a red node it changes nothing; when it rotates (cases 3-4) the result is a red node with two black children |
| RedBlack.LBalanceKeepsInvariant | Sources/SatzAlgorithms/RBTree/RBTree+Insert.swift:59-92 | a black node whose left child has at most a red-red violation at its top becomes a red-black subtree of the same black height |
| RedBlack.RBalanceKeepsInvariant | Sources/SatzAlgorithms/RBTree/RBTree+Insert.swift:94-123 | the mirror image for the right child |
| RedBlack.Balance | Sources/SatzAlgorithms/RBTree/RBTree+_Node.swift:202-263 | balance keeps the in-order entries and leaves a red node unchanged |
| RedBlack.BalanceKeepsInvariant | Sources/SatzAlgorithms/RBTree/RBTree+Delete.swift:87-155 | a black node with one infrared child is rebalanced into a red-black subtree of the same black height |
| RedBlack.Ins | Sources/SatzAlgorithms/RBTree/RBTree+_Node.swift:91-121 | node insert returns a non-empty tree that has one entry more exactly when it reports a new key |
| RedBlack.InsUpdates | Sources/SatzAlgorithms/RBTree/RBTree+Insert.swift:25-56 | on an ordered tree, insert is sorted-map update: entries below the key, the new entry, entries above it; `isNew` holds iff the key was absent, and otherwise the old entry is replaced |
| RedBlack.InsKeepsInvariant | Sources/SatzAlgorithms/RBTree/RBTree+_Node.swift:91-121 | insert keeps the black height and leaves at most a red-red violation at the root, and none when the root was black or the key existed |
| RedBlack.BalanceRemove | Sources/SatzAlgorithms/RBTree/RBTree+_Node.swift:183-200 | balanceForRemove keeps the in-order entries; it is called on two red children or on a black node |
| RedBlack.BalanceRemoveKeepsInvariant | Sources/SatzAlgorithms/RBTree/RBTree+Delete.swift:68-84 | on a black node with one infrared child, balanceRemove yields a red-black subtree of the same black height |
| RedBlack.BalanceLeft | Sources/SatzAlgorithms/RBTree/RBTree+_Node.swift:265-302 | balanceLeft keeps the in-order entries in each of its three cases |
| RedBlack.BalanceRight | Sources/SatzAlgorithms/RBTree/RBTree+_Node.swift:304-341 | balanceRight keeps the in-order entries in each of its three cases |
| RedBlack.BalanceLeftKeepsInvariant | Sources/SatzAlgorithms/RBTree/RBTree+Delete.swift:157-198 | with a left side one black level short, one of the three cases applies (the far-nephew assert holds and the final preconditionFailure is unreachable), and the result has the right side's black height |
| RedBlack.BalanceRightKeepsInvariant | Sources/SatzAlgorithms/RBTree/RBTree+Delete.swift:201-242 | the mirror image: a case always applies, and the result has the left side's black height |
| RedBlack.Combine | Sources/SatzAlgorithms/RBTree/RBTree+_Node.swift:344-395 | combine returns the other side when one is nil, and otherwise a tree whose in-order entries are left's followed by right's |
| RedBlack.CombineSameColor | Sources/SatzAlgorithms/BSTree/RBTree.swift:432-517 | the two same-colour cases of combine (red-red, black-black) give in-order entries left followed by right |
| RedBlack.CombineKeepsInvariant | Sources/SatzAlgorithms/RBTree/RBTree+Delete.swift:245-290 | combining two red-black subtrees of equal black height keeps that height, with no red-red violation below the root, and none at all when both roots are black |
| RedBlack.Del | Sources/SatzAlgorithms/RBTree/RBTree+_Node.swift:127-145 | delete keeps equal black heights; below a black node the height drops by one with at most a root violation; below a red node or nil it is unchanged and red-black |
| RedBlack.DelformLeft | Sources/SatzAlgorithms/RBTree/RBTree+_Node.swift:148-162 | deleting on the left recolours red when the left child is red or nil and calls balanceLeft when it is black, with the same black-height facts as delete |
| RedBlack.DelformRight | Sources/SatzAlgorithms/RBTree/RBTree+_Node.swift:164-180 | the mirror image on the right |
| RedBlack.DelRemoves | Sources/SatzAlgorithms/RBTree/RBTree+Delete.swift:17-33 | on an ordered tree, delete is sorted-map removal: the remaining entries are those below and above the key, and the returned value is the key's value, or nil when absent |
| RBTreeMap.TwoWaySearch | Sources/SatzAlgorithms/RBTree/RBTree+Search.swift:18-37 | the descent compares with `<` only and tests equality once on the last candidate; on an ordered tree it returns the key's entry iff the key is present, and nil on an empty tree |
| RBTreeMap.SizeIsCount | Sources/SatzAlgorithms/BSTree/RBTree.swift:156-159 | doCount, the number of nodes, equals the number of in-order entries |
| RBTreeMap.RBTree.constructor | Sources/SatzAlgorithms/RbTree/RBTree.swift:25-28 | a new map has a nil root and count 0 |
| RBTreeMap.RBTree.Copy | Sources/SatzAlgorithms/RBTree/RBTree.swift:89-96 | a copy is a separate map with the same root and count; later edits reassign only its own fields, so the original's lookups and count are unchanged |
| RBTreeMap.RBTree.Insert | Sources/SatzAlgorithms/RBTree/RBTree.swift:48-59 | the map stays a red-black tree with a black root; its entries become below + new entry + above; it returns true iff the key was absent, and count grows by one exactly then |
| RBTreeMap.RBTree.Remove | Sources/SatzAlgorithms/RBTree/RBTree.swift:62-69 | the map stays red-black; the key's entry is removed; the old value (or nil) is returned; count drops by one exactly when it is non-nil |
| RBTreeMap.RBTree.Get | Sources/SatzAlgorithms/RBTree/RBTree.swift:77-79 | get returns the value stored under the key, or nil |
| RBTreeMap.RBTree.GetEntry | Sources/SatzAlgorithms/BSTree/RBTree.swift:78-96 | the older get returns the entry with that key iff the key is present |
| SortedArray.LowerBound | Sources/SatzAlgorithms/Satz+SortedArray.swift:62-84 | for partitioned input, the result i lies in [start, start + count]; comp(e, value) holds before i and fails from i on |
| SortedArray.UpperBound | Sources/SatzAlgorithms/Satz+SortedArray.swift:23-45 | for partitioned input, the result i lies in [start, start + count]; comp(value, e) fails before i and holds from i on |
| SortedArray.PartitionPoint | Sources/SatzAlgorithms/SortedArrayUtils.swift:58-76 | the partition point is unique: it is the number of elements that satisfy the predicate |
| SortedArray.SortedPartitions | Sources/SatzAlgorithms/Satz+SortedArray.swift:51-54 | on a sorted array, `e < value` and `value < e` are partitioned, so the default lowerBound and upperBound apply |
| SortedArray.IntersectClosed | Sources/SatzAlgorithms/Satz+SortedArray.swift:87-95 | true iff some element lies in lo...hi |
| SortedArray.IntersectHalfOpen | Sources/SatzAlgorithms/Satz+SortedArray.swift:98-105 | true iff some element lies in lo..<hi |
| SortedArray.BinarySearch | Sources/SatzAlgorithms/Satz+SortedArray.swift:114-122 | true iff the value occurs in the sorted array, for any startIndex |
| SortedArray.BinarySearchByCount | Sources/SatzAlgorithms/SortedArrayUtils.swift:106-110 | binary_search as written: it compares the lower bound with `array.count`, and the result is a value or a trap |
| SortedArray.BinarySearchByCountAtZero | Sources/SatzAlgorithms/SortedArrayUtils.swift:106-110 | when startIndex is 0, binary_search is true iff the value is present |
| SortedArray.BinarySearchByCountMisses | Sources/SatzAlgorithms/SortedArrayUtils.swift:109 | with startIndex 1, a present value can be reported absent |
| SortedArray.BinarySearchByCountTraps | Sources/SatzAlgorithms/SortedArrayUtils.swift:109 | with startIndex past count, an absent value reads past the end |
| Euclid.StepKeepsDivisors | Sources/SatzAlgorithms/Satz+Gcd.swift:13-19 | one step (m, n) to (n, m % n) keeps the set of common divisors, so the loop preserves gcd(m, n) |
| Euclid.GcdUnique | Sources/SatzAlgorithms/gcd.swift:4-19 | the greatest common divisor is unique |
| Euclid.Gcd | Sources/SatzAlgorithms/Satz+Gcd.swift:6-20 | for m, n > 0, the result is a positive common divisor that every common divisor divides |
| Euclid.GcdExtended | Sources/SatzAlgorithms/Satz+Gcd.swift:26-47 | for m, n > 0, d is the gcd and a*m + b*n == d |
| Euclid.GcdAlternating | Sources/satz-algorithms/taocp1.swift:5-21 | the alternating-remainder loop returns the gcd for m, n > 0 |
| Integers.NextEven | Sources/satz-algorithms/integer.swift:7-16 | the result is even and n < r <= n + 2, with n + 2 only for even n |
| Integers.NextOdd | Sources/satz-algorithms/integer.swift:20-29 | the result is odd and n < r <= n + 2, with n + 2 only for odd n |
| Permutation.Apply | Sources/SatzAlgorithms/Satz+Permutation.swift:7-10 | with equal lengths, r[i] == values[indices[i]] |
| Permutation.Swap | Sources/SatzAlgorithms/Satz+Permutation.swift:26 | swapAt exchanges two positions, leaves the rest alone, and keeps the multiset |
| Permutation.SwapAt | Sources/SatzAlgorithms/Satz+Permutation.swift:26 | the array afterwards is the swapped sequence |
| Permutation.CycleStep | Sources/SatzAlgorithms/Satz+Permutation.swift:23-28 | one inner-loop step keeps the cycle invariant and moves to the next index of the cycle |
| Permutation.CycleEnd | Sources/SatzAlgorithms/Satz+Permutation.swift:30 | closing a cycle settles position i |
| Permutation.ApplyInPlace | Sources/SatzAlgorithms/Satz+Permutation.swift:17-32 | when indices is a permutation, values becomes the pure result, is a rearrangement of the original, and indices becomes the identity |
| Digraphs.IncidentVertices | Sources/SatzAlgorithms/digraph/DigraphUtils.swift:21-23 | contains both endpoints of every edge and nothing that is not an endpoint |
| Digraphs.Validate | Sources/SatzAlgorithms/digraph/DigraphUtils.swift:13-15 | true iff the vertex set contains every edge's endpoints |
| Digraphs.ListSet | Sources/SatzAlgorithms/Digraph/TSort/AlgorithmT.swift:115-118 | listing a set gives each element exactly once |
| Digraphs.BuildAdjacency | Sources/SatzAlgorithms/Digraph/Digraph.swift:28-43 | the maps built from the edges mirror each other and hold exactly the distinct edges |
| Digraphs.CountArcs | Sources/SatzAlgorithms/Digraph/Digraph.swift:39-42 | the sum of the successor-set sizes is the number of distinct edges |
| Digraphs.MirroredQueries | Sources/SatzAlgorithms/Digraph/Digraph.swift:107-117 | in mirrored maps, v in targets(u) iff u in sources(v) iff the edge is present |
| Digraphs.InsertKeepsWellFormed | Sources/SatzAlgorithms/Digraph/Digraph.swift:52-63 | adding an edge between vertices keeps the maps mirrored and adds one to edgeCount exactly when it is new |
| Digraphs.RemoveKeepsWellFormed | Sources/SatzAlgorithms/Digraph/Digraph.swift:72-85 | removing an edge keeps the maps mirrored and subtracts one from edgeCount exactly when it was present |
| Digraphs.NoTopologicalOrder | Sources/SatzAlgorithms/Digraph/TSort/KahnAlgorithm.swift:30 | if every vertex of a non-empty set has a predecessor in that set, no topological order exists |
| Digraphs.Digraph.constructor | Sources/SatzAlgorithms/Digraph/Digraph.swift:28-43 | needs every endpoint to be a vertex; the graph has exactly the given edges, duplicates collapsed |
| Digraphs.Digraph.HasEdges | Sources/SatzAlgorithms/digraph/DynamicDigraph.swift:23-25 | true iff an edge remains |
| Digraphs.Digraph.InDegree | Sources/SatzAlgorithms/Digraph/Digraph.swift:91-93 | the number of distinct sources into the vertex, 0 when it has none |
| Digraphs.Digraph.OutDegree | Sources/SatzAlgorithms/Digraph/Digraph.swift:99-101 | the number of distinct targets out of the vertex, 0 when it has none |
| Digraphs.Digraph.Sources | Sources/SatzAlgorithms/Digraph/Digraph.swift:107-109 | u is in sources(v) iff the edge u to v is present |
| Digraphs.Digraph.Targets | Sources/SatzAlgorithms/Digraph/Digraph.swift:115-117 | v is in targets(u) iff the edge u to v is present |
| Digraphs.Digraph.AddEdge | Sources/SatzAlgorithms/Digraph/Digraph.swift:52-63 | needs both endpoints to be vertices; returns true iff the edge is new; the edge set gains it; edgeCount grows exactly then |
| Digraphs.Digraph.RemoveEdge | Sources/SatzAlgorithms/digraph/DynamicDigraph.swift:71-81 | reports whether the edge was present; the edge set loses it; edgeCount drops exactly then |
| Kahn.ZeroInDegree | Sources/SatzAlgorithms/Digraph/TSort/KahnAlgorithm.swift:18 | the initial work-list holds each vertex of in-degree 0 once |
| Kahn.ReleaseTargets | Sources/SatzAlgorithms/Digraph/TSort/KahnAlgorithm.swift:22-28 | removing the output vertex's out-edges enqueues the targets whose in-degree reaches 0 and keeps the loop invariant |
| Kahn.FinishSorted | Sources/SatzAlgorithms/Digraph/TSort/KahnAlgorithm.swift:30 | when no edge remains, the output is a topological order of all vertices |
| Kahn.FinishBlocked | Sources/SatzAlgorithms/Digraph/TSort/KahnAlgorithm.swift:30 | when edges remain after the queue empties, the graph has no topological order |
| Kahn.KahnSort | Sources/SatzAlgorithms/Digraph/TSort/KahnAlgorithm.swift:14-31 | for valid input, the result is a topological order (each vertex once, every edge's source first), or nil exactly when none exists |
| Kahn.KahnSortEdges | Sources/SatzAlgorithms/KahnAlgorithm.swift:80-83 | sorting a bare edge list uses exactly the incident vertices, with the same guarantee |
| AlgorithmT.RecordRelations | Sources/SatzAlgorithms/Digraph/TSort/AlgorithmT.swift:51-62 | after steps T1-T3, count[k] is the in-degree of k and top[k] lists k's successors |
| AlgorithmT.ScanZeros | Sources/SatzAlgorithms/Digraph/TSort/AlgorithmT.swift:64-73 | step T4 threads the count-0 vertices into a queue through qlink, ending at R |
| AlgorithmT.EraseRelations | Sources/SatzAlgorithms/Digraph/TSort/AlgorithmT.swift:85-94 | step T6 erases all relations of the output vertex and appends newly freed successors to the queue |
| AlgorithmT.EraseSuccessor | Sources/SatzAlgorithms/Digraph/TSort/AlgorithmT.swift:86-93 | erasing one relation decrements its successor's count and queues it when the count reaches 0 |
| AlgorithmT.FinishSorted | Sources/SatzAlgorithms/Digraph/TSort/AlgorithmT.swift:96-100 | with N == 0 at the end, the output (sentinel 0 dropped) is a topological order of 1...n |
| AlgorithmT.Blocked | Sources/SatzAlgorithms/Digraph/TSort/AlgorithmT.swift:100 | a vertex never output keeps a positive count from unoutput predecessors, so no topological order exists |
| AlgorithmT.FinishBlocked | Sources/SatzAlgorithms/Digraph/TSort/AlgorithmT.swift:100 | with N != 0 at the end, the graph has no topological order |
| AlgorithmT.TSort | Sources/SatzAlgorithms/Digraph/TSort/AlgorithmT.swift:48-101 | for n >= 1 and edges within 1...n, the result is a topological order of 1...n, or nil exactly when none exists |
| AlgorithmT.MakeBiMap | Sources/SatzAlgorithms/Digraph/TSort/AlgorithmT.swift:115-124 | int and vertex are inverse bijections between the vertex list and 1...count |
| AlgorithmT.Renumber | Sources/SatzAlgorithms/Digraph/TSort/AlgorithmT.swift:135-137 | each edge is mapped through int(_:) endpoint by endpoint |
| AlgorithmT.Relabel | Sources/SatzAlgorithms/Digraph/TSort/AlgorithmT.swift:139-141 | each output number is mapped back through vertex(_:) |
| AlgorithmT.RelabelSorted | Sources/SatzAlgorithms/Digraph/TSort/AlgorithmT.swift:132-142 | a topological order of the renumbered graph maps back to a topological order of the original |
| AlgorithmT.RelabelBlocked | Sources/SatzAlgorithms/Digraph/TSort/AlgorithmT.swift:132-142 | if the renumbered graph has no topological order, the original has none |
| AlgorithmT.GenericTSort | Sources/SatzAlgorithms/Digraph/TSort/AlgorithmT.swift:132-142 | for a non-empty vertex set covering the edges, the result is a topological order, or nil exactly when none exists |
| Strings.Backtrack | Sources/SatzAlgorithms/Satz+String.swift:11-19 | backtrack appends, in depth-first order, every extension of `current` by a choice of later indices |
| Strings.AllSubsequences | Sources/SatzAlgorithms/Satz+String.swift:7-22 | the result is the depth-first enumeration of index-subsequences (empty for the empty string) |
| Strings.AllSubsequencesCount | Sources/SatzAlgorithms/Extension/StringUtils.swift:7-22 | there are 2^n - 1 results, counted by index choice, so repeated characters give duplicates |
| Strings.AllSubsequencesSpec | Sources/SatzAlgorithms/Satz+String.swift:7-22 | x is a result iff x is non-empty and a subsequence of the input |
| Strings.NGrams | Sources/SatzAlgorithms/Satz+String.swift:24-37 | [] when n <= 0 or the string is shorter than n; otherwise count - n + 1 grams, gram i being characters [i, i + n) |
| Strings.Lower | Sources/SatzAlgorithms/StringIndex/InvertedIndex.swift:66 | lower-casing keeps the length and maps each character (A-Z to a-z) |
| Strings.LowerIdempotent | Sources/SatzAlgorithms/TSTree/SubsequenceTST.swift:72 | lower-casing twice is lower-casing once |
| EditDistance.DistanceProperties | Sources/SatzAlgorithms/TSTree/SubsequenceTST.swift:139-158 | the table's last entry is 0 for equal strings, symmetric, at least the length difference and at most the longer length |
| EditDistance.FillRow | Sources/SatzAlgorithms/TSTree/SubsequenceTST.swift:150-155 | one row of dp becomes the minimum of deletion, insertion and substitution for each column; other rows are unchanged |
| EditDistance.IsFuzzyMatch | Sources/SatzAlgorithms/TSTree/SubsequenceTST.swift:139-158 | for non-empty word and pattern, true iff the edit distance is at most maxDistance |
| TernarySearch.FindNodeSound | Sources/SatzAlgorithms/TSTree/TSTree.swift:59-88 | the node reached for a key holds that key's value, and its middle subtree stores exactly the key's extensions |
| TernarySearch.InsSound | Sources/SatzAlgorithms/TSTree/TSTree.swift:101-124 | node insert stores the value under the key, changes no other key, reports whether the key was new, and keeps order and pruning |
| TernarySearch.InsSize | Sources/SatzAlgorithms/TSTree/TSTree.swift:119-122 | the number of stored keys grows by one exactly when the key was new |
| TernarySearch.DelSound | Sources/SatzAlgorithms/TSTree/TSTree.swift:141-188 | the corrected delete clears only the key, reports whether it was stored, and unlinks exactly the nodes left empty |
| TernarySearch.DelSize | Sources/SatzAlgorithms/TSTree/TSTree.swift:141-188 | the number of stored keys drops by one exactly when a value was cleared, and a pruned node stores nothing |
| TernarySearch.DelAsWrittenClearsOtherKey | Sources/SatzAlgorithms/TSTree/TSTree.swift:141-157 | as written, deleting the absent key "a" from a tree holding only "b" clears "b" |
| TernarySearch.EmptyIsNil | Sources/SatzAlgorithms/TSTree/TSTree.swift:126-139 | a pruned tree that stores nothing is nil, so deleting the last key nils the root |
| TernarySearch.EntriesSound | Sources/SatzAlgorithms/TSTree/TSTree.swift:298-308 | every collected key is stored, with its value |
| TernarySearch.EntriesComplete | Sources/SatzAlgorithms/TSTree/TSTree.swift:298-308 | every stored key is collected |
| TernarySearch.EntriesSorted | Sources/SatzAlgorithms/TSTree/TSTree.swift:298-308 | keys are collected in strictly increasing lexicographic order |
| TernarySearch.EntriesCount | Sources/SatzAlgorithms/TSTree/TSTree.swift:298-308 | as many keys are collected as are stored |
| TernarySearch.PrefixEntriesSpec | Sources/SatzAlgorithms/StringIndex/GenericTSTree.swift:254-275 | the entries under a prefix are exactly the stored keys that start with it, in lexicographic order |
| TernarySearch.PrefixKeysSpec | Sources/SatzAlgorithms/TSTree/TSTree.swift:215-226 | searchAll returns exactly the stored keys with the prefix, in lexicographic order |
| TernarySearch.KeysSpec | Sources/SatzAlgorithms/TSTree/TSTree.swift:40-45 | keys() lists every stored key once, in lexicographic order |
| TernarySearch.WildSound | Sources/SatzAlgorithms/TSTree/TSTree.swift:313-351 | every key the wildcard walk collects is stored and matches the pattern |
| TernarySearch.WildComplete | Sources/SatzAlgorithms/TSTree/TSTree.swift:313-351 | every stored key that matches the pattern is collected |
| TernarySearch.WildSpec | Sources/SatzAlgorithms/TSTree/TSTree.swift:286-296 | search(pattern) returns exactly the stored keys of pattern length that match every non-`.` position |
| TernarySearch.EnumerateIsRun | Sources/SatzAlgorithms/StringIndex/GenericTSTree.swift:296-310 | enumeration feeds the entries to the block in lexicographic order and stops as soon as it returns false |
| TernarySearch.EnumerateNodeIsRun | Sources/SatzAlgorithms/StringIndex/GenericTSTree.swift:277-283 | enumerate(withPrefix:) does the same from the prefix node |
| TernarySearch.Take | Sources/SatzAlgorithms/StringIndex/GenericTSTree.swift:240-248 | a cap of n keeps the first min(n, count) keys, and none when n <= 0 |
| TernarySearch.RunCollecting | Sources/SatzAlgorithms/TSTree/TSTree.swift:228-236 | the collecting block with a cap yields the first keys up to the cap |
| TernarySearch.TSTree.constructor | Sources/SatzAlgorithms/TSTree/TSTree.swift:32 | an empty tree with count 0 |
| TernarySearch.TSTree.GetNode | Sources/SatzAlgorithms/TSTree/TSTree.swift:59-83 | the loop reaches the node the recursive definition names |
| TernarySearch.TSTree.Get | Sources/SatzAlgorithms/TSTree/TSTree.swift:53-57 | returns the value stored under a non-empty key, or nil |
| TernarySearch.TSTree.Contains | Sources/SatzAlgorithms/TSTree/TSTree.swift:47-51 | true iff a non-empty key is stored |
| TernarySearch.TSTree.Insert | Sources/SatzAlgorithms/TSTree/TSTree.swift:90-99 | after insert, get returns the value and no other key changes; count grows exactly when the key was absent |
| TernarySearch.TSTree.Delete | Sources/SatzAlgorithms/TSTree/TSTree.swift:126-139 | the corrected delete removes only the key; count drops exactly when it was stored; the root is nil once count is 0 |
| TernarySearch.TSTree.FindPrefix | Sources/SatzAlgorithms/TSTree/TSTree.swift:190-210 | returns the longest stored prefix of the query, or "" |
| TernarySearch.TSTree.Keys | Sources/SatzAlgorithms/TSTree/TSTree.swift:40-45 | count keys, each stored one once, in lexicographic order |
| TernarySearch.TSTree.SearchAll | Sources/SatzAlgorithms/TSTree/TSTree.swift:215-226 | returns the prefix keys in lexicographic order |
| TernarySearch.TSTree.EnumerateWithPrefix | Sources/SatzAlgorithms/TSTree/TSTree.swift:246-252 | runs the block over the entries with the prefix, in order, until it returns false |
| TernarySearch.TSTree.EnumerateKeysAndValues | Sources/SatzAlgorithms/StringIndex/GenericTSTree.swift:51-55 | runs the block over all entries, in order, until it returns false |
| TernarySearch.TSTree.SearchWithPrefix | Sources/SatzAlgorithms/TSTree/TSTree.swift:228-236 | the first maxResults prefix keys in lexicographic order, and [] for maxResults <= 0 |
| TernarySearch.TSTree.GenericSearchWithPrefix | Sources/SatzAlgorithms/StringIndex/GenericTSTree.swift:240-248 | every prefix match when n >= count, [] when n <= 0, otherwise the first n in lexicographic order |
| TernarySearch.TSTree.Search | Sources/SatzAlgorithms/TSTree/TSTree.swift:286-296 | exactly the stored keys that match the wildcard pattern, in strictly increasing lexicographic order, so each once |
| TernarySearch.WildSorted | Sources/SatzAlgorithms/TSTree/TSTree.swift:313-351 | the wildcard walk collects its keys in strictly increasing lexicographic order: left subtree, then the node's digit, then right subtree |
| TernarySearch.LexIrreflexive | Sources/SatzAlgorithms/TSTree/TSTree.swift:286-296 | no key precedes itself, so an increasing result has no repeats |
| Tries.DescendSound | Sources/SatzAlgorithms/StringIndex/Trie.swift:176-183 | the node reached by a prefix stores exactly the prefix's extensions; a missing path means no key has the prefix |
| Tries.PutSound | Sources/SatzAlgorithms/StringIndex/Trie.swift:72-83 | insert from position i stores the value under the rest of the key, changes nothing else, and reports whether it was new |
| Tries.PutAtRoot | Sources/SatzAlgorithms/StringIndex/Trie.swift:72-83 | insert at the root, the empty key included: the key set grows by one exactly when the key was new |
| Tries.RemoveSound | Sources/SatzAlgorithms/StringIndex/Trie.swift:95-111 | delete clears only the key, reports whether it was stored, and unlinks children left with no value and no children |
| Tries.RemoveAbsent | Sources/SatzAlgorithms/StringIndex/Trie.swift:95-111 | deleting an absent key changes nothing |
| Tries.RemoveAtRoot | Sources/SatzAlgorithms/StringIndex/Trie.swift:91-111 | the key set shrinks by one exactly when the key was stored, and is unchanged otherwise |
| Tries.SearchPattern | Sources/SatzAlgorithms/StringIndex/Trie.swift:219-243 | the recursive walk appends exactly the stored keys that match the rest of the pattern, each once |
| Tries.SearchWildcard | Sources/SatzAlgorithms/StringIndex/Trie.swift:230-236 | under ".", the loop over every child appends exactly the stored keys below the node matching the rest of the pattern, each once |
| Tries.Trie.constructor | Sources/SatzAlgorithms/StringIndex/Trie.swift:18 | an empty trie with count 0 |
| Tries.Trie.Get | Sources/SatzAlgorithms/StringIndex/Trie.swift:59-66 | returns the value stored under the key (the empty key is legal), or nil |
| Tries.Trie.Contains | Sources/SatzAlgorithms/StringIndex/Trie.swift:54-57 | true iff the key is stored |
| Tries.Trie.Insert | Sources/SatzAlgorithms/StringIndex/Trie.swift:72-83 | stores the value under the key and nothing else changes; count grows exactly when the key was absent |
| Tries.Trie.Delete | Sources/SatzAlgorithms/StringIndex/Trie.swift:91-111 | removes only the key; count drops exactly when it was stored; an absent key leaves the trie as it was |
| Tries.Trie.FindPrefix | Sources/SatzAlgorithms/StringIndex/Trie.swift:115-130 | returns the longest non-empty stored prefix of the query, or "" |
| Tries.Trie.FindPrefixNode | Sources/SatzAlgorithms/StringIndex/Trie.swift:176-183 | the loop reaches the node of the prefix, or nil when the path is missing |
| Tries.Visit | Sources/SatzAlgorithms/StringIndex/Trie.swift:200-216 | the helper's result is the block's verdict on the entries it was called on, which are distinct stored entries below the node; all of them when it returns true; the block refused at most the last of them, so it was not called again after returning false |
| Tries.VisitChildren | Sources/SatzAlgorithms/StringIndex/Trie.swift:207-215 | the loop over the children adds each child's walk, stops at the first false, and otherwise completes the walk below the node |
| Tries.VisitOneChild | Sources/SatzAlgorithms/StringIndex/Trie.swift:208-213 | one child's walk appended to what was visited keeps the entries sound and distinct, and complete up to that child when the block did not refuse |
| TernarySearch.StopsAtLastAppend | Sources/SatzAlgorithms/StringIndex/Trie.swift:207-213 | a walk whose earlier entries were all accepted, followed by a child walk that stopped at its last entry, stops at its last entry |
| Tries.Trie.EnumerateKeysAndValues | Sources/SatzAlgorithms/StringIndex/Trie.swift:34-48 | the block sees stored entries, each key once; when it never returns false it sees every entry, and it is not called again after it returns false |
| Tries.Trie.EnumerateWithPrefix | Sources/SatzAlgorithms/StringIndex/Trie.swift:160-164 | the same, for the entries whose key starts with the prefix |
| Tries.Trie.SearchWithPrefix | Sources/SatzAlgorithms/StringIndex/Trie.swift:140-151 | at most n distinct stored keys, all with the prefix, [] for n <= 0; when fewer than n come back, all prefix keys are there |
| Tries.Trie.Keys | Sources/SatzAlgorithms/StringIndex/Trie.swift:21-26 | count keys, each stored key once |
| Tries.Trie.Search | Sources/SatzAlgorithms/StringIndex/Trie.swift:166-174 | exactly the stored keys of pattern length that match every non-`.` position, each once |
| SubsequenceTrees.AddToAll | Sources/SatzAlgorithms/TSTree/STSTree.swift:98-100 | the word joins the word set of exactly the given subsequences |
| SubsequenceTrees.RemoveFromAll | Sources/SatzAlgorithms/TSTree/STSTree.swift:150-156 | the word leaves the word set of exactly the given subsequences |
| SubsequenceTrees.SproutSound | Sources/SatzAlgorithms/TSTree/STSTree.swift:111-143 | the nodes insertSubsequence creates at a missing link, including a middle child made with the character just matched, store the word under the rest of the subsequence and nothing else, ordered and with no removable node |
| SubsequenceTrees.PlantSound | Sources/SatzAlgorithms/TSTree/STSTree.swift:103-144 | the insertion walk adds the word to the node of the rest of the subsequence, leaves every other key's words alone, and keeps the tree ordered with no removable node |
| SubsequenceTrees.AddWordSound | Sources/SatzAlgorithms/TSTree/STSTree.swift:103-144 | insertSubsequence adds the word to the node of that subsequence and nowhere else |
| SubsequenceTrees.MiddleLinkNode | Sources/SatzAlgorithms/TSTree/STSTree.swift:131-137 | after inserting "ab" into an empty tree, the walk for "aa" ends on a node that holds no word |
| SubsequenceTrees.RemoveWordSound | Sources/SatzAlgorithms/TSTree/STSTree.swift:159-191 | deleteSubsequence removes the word from that node only, and prunes nodes left empty |
| SubsequenceTrees.AddKeepsIndex | Sources/SatzAlgorithms/TSTree/STSTree.swift:90-100 | after adding a word under all its subsequences, each node holds exactly the words that have its key as a subsequence |
| SubsequenceTrees.RemoveKeepsIndex | Sources/SatzAlgorithms/TSTree/STSTree.swift:150-156 | the same after removal from all its subsequences |
| SubsequenceTrees.NoWordsIsNil | Sources/SatzAlgorithms/TSTree/STSTree.swift:196-216 | once no node holds a word, pruning has left a nil root |
| SubsequenceTrees.Walk | Sources/SatzAlgorithms/TSTree/STSTree.swift:62-85 | the search loop reaches the pattern's node, or nil |
| SubsequenceTrees.SomeOf | Sources/SatzAlgorithms/TSTree/STSTree.swift:41-47 | `prefix(n)` of a set gives min(n, size) distinct members, all of them when n >= size |
| SubsequenceTrees.FeedAll | Sources/SatzAlgorithms/TSTree/STSTree.swift:52-57 | the block sees words of the set, each once, and all of them unless it stops early; it accepted every word it saw but the last, so it is not called again after it returns false |
| SubsequenceTrees.AddAlongSound | Sources/SatzAlgorithms/TSTree/SubsequenceTST.swift:33-67 | SubsequenceTST's insertSubsequence adds the word to every node along the path, not only the last |
| SubsequenceTrees.AddAlongAll | Sources/SatzAlgorithms/TSTree/SubsequenceTST.swift:24-30 | a node gets the word iff its key is a prefix of some inserted subsequence |
| SubsequenceTrees.CoveredSubsequences | Sources/SatzAlgorithms/TSTree/SubsequenceTST.swift:97-112 | a prefix of a subsequence is itself one, so adding along paths reaches exactly the subsequence nodes |
| SubsequenceTrees.STSTree.constructor | Sources/SatzAlgorithms/TSTree/STSTree.swift:30 | an empty tree with no words |
| SubsequenceTrees.STSTree.Count | Sources/SatzAlgorithms/TSTree/STSTree.swift:36 | count is 0 iff no word is stored |
| SubsequenceTrees.STSTree.IsEmpty | Sources/SatzAlgorithms/TSTree/STSTree.swift:35 | true iff count is 0 |
| SubsequenceTrees.STSTree.SearchNode | Sources/SatzAlgorithms/TSTree/STSTree.swift:62-85 | for a non-empty pattern, the block is called exactly when the walk ends on a node, and then receives exactly the stored words that have the pattern as a subsequence (possibly none); when the walk falls off the tree no stored word matches |
| SubsequenceTrees.STSTree.Search | Sources/SatzAlgorithms/TSTree/STSTree.swift:41-47 | min(maxResults, matches) distinct stored words, each having the pattern as a subsequence; [] when the walk falls off the tree, for any maxResults |
| SubsequenceTrees.STSTree.Enumerate | Sources/SatzAlgorithms/TSTree/STSTree.swift:52-59 | the block sees matching words, each once, and all of them unless it stops early; it is not called again after it returns false |
| SubsequenceTrees.STSTree.Insert | Sources/SatzAlgorithms/TSTree/STSTree.swift:90-100 | an empty or present word changes nothing; otherwise the word is added and the index invariant holds |
| SubsequenceTrees.STSTree.Delete | Sources/SatzAlgorithms/TSTree/STSTree.swift:150-156 | the word is removed; an absent word changes nothing; the root is nil once no word is left |
| SubsequenceTrees.SubseqTSTree.constructor | Sources/SatzAlgorithms/TSTree/SubseqTSTree.swift:33-37 | an empty tree with the given case mode |
| SubsequenceTrees.SubseqTSTree.Count | Sources/SatzAlgorithms/TSTree/SubseqTSTree.swift:40 | count is 0 iff no word is stored |
| SubsequenceTrees.SubseqTSTree.Search | Sources/SatzAlgorithms/TSTree/SubseqTSTree.swift:44-67 | min(maxResults, matches) distinct words; with ignoringCase, pattern and word are compared lower-cased, otherwise as given; [] when the walk falls off the tree, for any maxResults |
| SubsequenceTrees.SubseqTSTree.Insert | Sources/SatzAlgorithms/TSTree/SubseqTSTree.swift:73-83 | an empty or present word changes nothing; otherwise the word (kept as given) is added |
| SubsequenceTrees.SubseqTSTree.Delete | Sources/SatzAlgorithms/TSTree/SubseqTSTree.swift:133-140 | the word is removed; an absent word changes nothing; the root is nil once no word is left |
| SubsequenceTrees.SubsequenceTST.Insert | Sources/SatzAlgorithms/TSTree/SubsequenceTST.swift:24-30 | the word is added with no emptiness or duplicate check |
| SubsequenceTrees.SubsequenceTST.Search | Sources/SatzAlgorithms/TSTree/SubsequenceTST.swift:71-91 | [] for an empty pattern or a walk that falls off the tree, for any maxResults; otherwise min(maxResults, matches) distinct words whose lower-cased form has the lower-cased pattern as a subsequence |
| SubsequenceTrees.SubsequenceTST.ExactPhase | Sources/SatzAlgorithms/TSTree/SubsequenceTST.swift:116-120 | min(5, matches) stored words whose lower-cased form has the lower-cased query as a subsequence, none for an empty query; all of them when fewer than 5 match |
| SubsequenceTrees.SubsequenceTST.FuzzyPhase | Sources/SatzAlgorithms/TSTree/SubsequenceTST.swift:122-132 | the scan keeps what the exact phase found, adds only words within maxDistance, stops at the cap (never more than maxResults), and adds all of them unless the cap is reached |
| SubsequenceTrees.SubsequenceTST.FuzzySearch | Sources/SatzAlgorithms/TSTree/SubsequenceTST.swift:115-134 | at most maxResults distinct hits, and at least min(maxResults, exact hits); when the exact hits (fewer than 5) fit under the cap, every one of them is returned, even if fuzzy hits fill the rest; with room to spare, every stored word within maxDistance is included |
| NGramIndexes.Post | Sources/SatzAlgorithms/StringIndex/InvertedIndex.swift:66-70 | the new ID joins the posting of exactly the document's grams |
| NGramIndexes.Unpost | Sources/SatzAlgorithms/StringIndex/InvertedIndex.swift:89-96 | the ID leaves the posting of exactly the given grams, and emptied postings are dropped |
| NGramIndexes.FindMatching | Sources/SatzAlgorithms/StringIndex/InvertedIndex.swift:36-43 | {} for no grams; otherwise exactly the IDs posted under every gram |
| NGramIndexes.FindMatchingInOrder | Sources/SatzAlgorithms/StringIndex/NGramIndex.swift:50-60 | nil for no grams or an unindexed gram; otherwise exactly the IDs posted under every gram |
| NGramIndexes.MatchingIds | Sources/SatzAlgorithms/StringIndex/InvertedIndex.swift:28-43 | under the index invariant, an ID is posted under all query grams iff it is live and its document has every gram of the query |
| NGramIndexes.DocumentsOf | Sources/SatzAlgorithms/StringIndex/NGramIndex.swift:62 | each matching ID is mapped to its document once |
| NGramIndexes.AscendingDocumentsOf | Sources/SatzAlgorithms/StringIndex/InvertedIndex.swift:33 | the same, in ascending ID order |
| NGramIndexes.SurvivorHasLiveId | Sources/SatzAlgorithms/StringIndex/InvertedIndex.swift:113-120 | every document kept by compact was live |
| NGramIndexes.LiveIdSurvives | Sources/SatzAlgorithms/StringIndex/InvertedIndex.swift:113-120 | every live document is kept by compact |
| NGramIndexes.SurvivorsDistinct | Sources/SatzAlgorithms/StringIndex/InvertedIndex.swift:113-120 | compact keeps the documents distinct |
| NGramIndexes.InvertedIndex.constructor | Sources/SatzAlgorithms/StringIndex/InvertedIndex.swift:14-20 | needs gramSize >= 2; starts with no documents, postings or tombstones |
| NGramIndexes.IndexOf | Sources/SatzAlgorithms/StringIndex/InvertedIndex.swift:107 | the first position at which a stored text occurs |
| NGramIndexes.Appended | Sources/SatzAlgorithms/StringIndex/InvertedIndex.swift:78-80 | adding texts one by one keeps the old documents as a prefix, adds exactly the texts not yet stored, and keeps the documents distinct |
| NGramIndexes.AppendedAllNew | Sources/SatzAlgorithms/StringIndex/InvertedIndex.swift:78-80 | when the texts are new and distinct, they are appended as they are, in order |
| NGramIndexes.InvertedIndex.FirstIndex | Sources/SatzAlgorithms/StringIndex/InvertedIndex.swift:64 | finds the ID of the first occurrence of a stored text, or nil iff it is not stored |
| NGramIndexes.InvertedIndex.AddDocument | Sources/SatzAlgorithms/StringIndex/InvertedIndex.swift:63-71 | a stored text keeps its ID with nothing changed, even when tombstoned; a new text gets ID = old count and is posted under every gram of its lower-cased form |
| NGramIndexes.InvertedIndex.AddDocuments | Sources/SatzAlgorithms/StringIndex/InvertedIndex.swift:78-80 | the old documents stay a prefix, unchanged, and the texts not yet stored follow in the order of their first occurrence; the documents are exactly the old ones plus the texts, and the texts are appended as they are when all are new and distinct; no tombstone changes |
| NGramIndexes.InvertedIndex.Search | Sources/SatzAlgorithms/StringIndex/InvertedIndex.swift:28-34 | in ascending ID order, exactly the live documents that contain every gram of the lower-cased query; [] when the query has no grams |
| NGramIndexes.InvertedIndex.SearchWithGram | Sources/SatzAlgorithms/StringIndex/InvertedIndex.swift:51-54 | [] unless the gram has gramSize characters; otherwise the live documents containing it |
| NGramIndexes.InvertedIndex.Delete | Sources/SatzAlgorithms/StringIndex/InvertedIndex.swift:85-99 | an ID out of range or already tombstoned changes nothing; otherwise it is tombstoned and removed from every posting |
| NGramIndexes.InvertedIndex.DeleteText | Sources/SatzAlgorithms/StringIndex/InvertedIndex.swift:106-109 | deleting by text tombstones the ID of the text's first occurrence and removes that ID from every posting set; an unknown text changes nothing |
| NGramIndexes.InvertedIndex.Compact | Sources/SatzAlgorithms/StringIndex/InvertedIndex.swift:113-120 | the surviving documents in their original order, renumbered from 0 and re-indexed, with no tombstones |
| NGramIndexes.NGramIndex.constructor | Sources/SatzAlgorithms/StringIndex/NGramIndex.swift:22-26 | needs n >= 2; starts empty |
| NGramIndexes.NGramIndex.AddDocument | Sources/SatzAlgorithms/StringIndex/NGramIndex.swift:32-41 | idempotent for a known text; a new text gets ID = old count, posted under its grams (lower-cased unless caseSensitive) |
| NGramIndexes.NGramIndex.Search | Sources/SatzAlgorithms/StringIndex/NGramIndex.swift:50-60 | [] when the query is shorter than n; otherwise exactly the documents that contain all the query's grams, each once |
| NGramIndexes.NGramIndex.SearchWithGram | Sources/SatzAlgorithms/StringIndex/NGramIndex.swift:68-71 | [] unless the gram has n characters; the gram is not case-normalised |

## Left out

- Reference counting: `isKnownUniquelyReferenced`, `makeUnique`, `ensureUnique`, `clone`, `with(...)` and the setters that write through `_Storage` are not modelled one by one. A node is an immutable value, and a rebuilt node is the copy-on-write result. Aliasing between tree versions therefore cannot be observed.
- Each node rotation (entry swap plus pointer rewiring) is the equivalent constructor rearrangement.
- The struct-node accessors that force-unwrap `_root`, `left` or `right` become pattern matches on `Node`.
- Printing (`prettyPrint`, `print`) is string formatting and is not modelled.
- Iteration order of Swift `Set` and `Dictionary` is unspecified. Trie enumeration, `words.prefix(n)`, NGramIndex search, fuzzySearch, and Kahn's targets and initial vertex list choose an arbitrary element (`:|`). Their contracts are order-free.
- `shuffled()` in STSTree and SubseqTSTree insert is randomness. The subsequences are added in an arbitrary order, and the proved properties do not depend on it.
- `lowercased()` is modelled as ASCII lower-casing (`Strings.LowerChar`), with no Unicode case mapping. A `Character` is one `char`, not a grapheme cluster.
- GenericTSTree's generic `Digit` is `char`, and its `Key` is `seq<char>`.
- The generic `Comparable` keys of the red-black map and the sorted-array searches are `int`. The comparator overloads of lowerBound and upperBound keep their comparator as a parameter.
- Euclid.Gcd, Euclid.GcdExtended, Euclid.GcdAlternating: integers are unbounded, so fixed-width overflow is not modelled.
- Integers.NextEven, Integers.NextOdd: these do not model the trap of `n + 1` or `n + 2` at `Int.max`, because integers are unbounded.
- `StringUtils.nGrams`, which NGramIndex calls, is not part of this model. It is taken to split the same way as `Satz.nGrams`.
- NGramIndexes.InvertedIndex.Delete takes a `nat`. The source's `Int` ID could be negative, and that traps on the array read.
- NGramIndex's doc comment asks for n > 2, while its code checks n >= 2. The code is followed.
- NGramIndexes.NGramIndex.Search: the result order comes from a `Set`, not insertion order as the doc comment says. The contract gives only membership.
- STSTree and SubseqTSTree's `parentNodes` array and `tryPrune` walk are modelled by the recursive delete, which unlinks, from the bottom up, each node on the path that is left with no word and no child, stopping at the first that keeps one. The order in which the source unlinks them is not modelled.
- Trie's insert loop and its child dictionaries are modelled by recursion over a `map<char, TrieNode>`.
- SubsequenceTrees.SubsequenceTST.FuzzySearch: the contract does not say which exact hits are kept when they alone exceed maxResults, nor which fuzzy hits fill the cap, because both depend on `Set` order.
- SubsequenceTrees.STSTree.Search, SubsequenceTrees.SubseqTSTree.Search, SubsequenceTrees.SubsequenceTST.Search: a negative maxResults is excluded only when the walk ends on a node, where Swift's `prefix(_:)` traps. An empty pattern or a walk that falls off the tree returns [] for any maxResults, and the contracts cover that.
- Permutation.ApplyInPlace: the contract requires indices to be a permutation. On other indices, such as [1, 1], the source's inner cycle loop never ends; the model does not capture that divergence.
- Digraphs.Digraph.RemoveEdge: it does not require both endpoints to be vertices. Digraph.swift asserts that, but DynamicDigraph does not. The result is a `bool`, which stands for DynamicDigraph's `Arc?` (non-nil exactly when true).
- The tests' `measure` blocks and thread safety are not modelled. Thin wrappers (`TopologicalSorter.swift`, `TSorter.swift`, `Satz+TSort.swift`) only delegate to the sorts above.

## Findings

| source | as written | input that shows it | evidently intended | confidence | as-written member | corrected member |
|---|---|---|---|---|---|---|
| Sources/SatzAlgorithms/TSTree/TSTree.swift:141-157 | at the last key position, delete clears the value of whatever node it reached, without comparing that node's character with the key's last character (GenericTSTree.swift:163-179 is the same) | a tree holding only "b"; delete("a") reaches the "b" node at index 0 and clears it, so "b" is lost and count drops | descend left or right while the characters differ, and clear only the node whose character matches | not executed | TernarySearch.DelAsWrittenClearsOtherKey | TernarySearch.DelSound |
| Sources/SatzAlgorithms/SortedArrayUtils.swift:106-110 | binary_search compares the lower bound with `array.count` instead of `endIndex` | a slice with indices 1..<3 holding [5, 7]: lower_bound for 7 is 2 == count, so 7 is reported absent | compare with `endIndex`, as Satz+SortedArray.swift:114-122 does | not executed | SortedArray.BinarySearchByCountMisses | SortedArray.BinarySearch |
