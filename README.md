# Camp records: order, search structures and sorts

This project models the algorithmic core of a small C++ benchmark program about
summer-camp records. A `Camp` has five string fields: `squad`, `year`, `name`,
`date` and `shift_number`. The core is:

- the record order, a lexicographic comparison over (year, squad, shift number,
  name), with `==` and the derived `<=`, `>`, `>=` (`Records`, with the string
  order it is built on in `Lex`);
- an unbalanced binary search tree. Insertion descends by the full record order,
  with ties going right. Lookup is by `year` only (`SearchTree`);
- a fixed-size hash table with separate chaining, keyed by `year`, using the
  polynomial hash `h = (h * 31 + c) mod n` (`ChainedHash`);
- three in-place sorts of a vector of records: selection sort, insertion sort and
  cocktail (shaker) sort (`Sorts`).

The recursive tree operations are modelled as functions on a value `Tree`, and
the tree object as a class holding its root. The hash table is a class holding
an array of chains. Its ghost history `inserted` lists every record inserted so
far, and its validity predicate ties each chain to that history. The sorts are
methods on `array<Camp>`, with their loops and loop invariants. Longer loop
bodies are factored into helper methods: the minimum search of selection sort,
the shift of insertion sort, and the two passes of shaker sort.

Proved properties:

- The record `<` is a strict total order, the derived operators agree with it,
  and `date` plays no part in it.
- Tree insertion keeps the search-tree invariant and adds exactly the new record.
- Tree lookup is sound and complete for `year`, because `year` is the primary
  key of the order.
- The hash is a base-31 polynomial reduced mod `n`. Insertion appends to exactly
  one chain. Lookup finds the earliest inserted record with the key.
- All three sorts produce a sorted permutation of their input.
- Insertion sort is stable.
- Every sort leaves already sorted input unchanged.

## Model

| member | source | states |
|---|---|---|
| Lex.LessIffLessAt | K1.cpp:29-32 | String `<` holds exactly when there is a position up to which both strings agree and where the first either ends while the second goes on, or has the smaller character |
| Lex.LessIrreflexive | K1.cpp:29-32 | No string is `<` itself |
| Lex.LessAsymmetric | K1.cpp:29-32 | Two strings are never each `<` the other |
| Lex.LessTransitive | K1.cpp:29-32 | String `<` is transitive |
| Lex.LessTotal | K1.cpp:29-32 | Any two strings are equal or one is `<` the other |
| Records.LessIrreflexive | K1.cpp:25-33 | No record is `<` itself |
| Records.LessAsymmetric | K1.cpp:25-33 | Two records are never each `<` the other |
| Records.LessTransitive | K1.cpp:25-33 | Record `<` is transitive across all four levels of the nested comparison |
| Records.Trichotomy | K1.cpp:21-33 | For any two records exactly one of `a < b`, `a == b`, `b < a` holds |
| Records.DateIgnored | K1.cpp:21-33 | Records that differ only in `date` are `==`, and neither is `<` the other |
| Records.DerivedOperators | K1.cpp:35-45 | `a > b` iff `b < a`; `a >= b` iff `b < a` or `a == b`; `a <= b` iff not `b < a`. L.1.cpp (lines 33-46) defines these three operators the same way, so the equivalences hold there too |
| Records.NotLessTransitive | L.1.cpp:22-46 | `>=` (written as not `<`) is transitive |
| Records.LessThenNotLess | L.1.cpp:22-46 | `a < b` and `b <= c` give `a < c` |
| Records.YearPrimary | K1.cpp:25-32 | A smaller `year` makes a record smaller, and a smaller record never has a larger `year` |
| SearchTree.InsertNode | K1.cpp:94-104 | Inserting adds exactly `item` to the multiset of stored records, keeps the search-tree invariant (left subtree `<` node, right subtree not `<` node) and keeps the root record |
| SearchTree.SearchNode | K1.cpp:106-119 | A hit returns a stored record whose `year` is the key; a miss returns `result` unchanged |
| SearchTree.SearchComplete | K1.cpp:106-119 | On a search tree the year-only walk hits exactly when some stored record has that `year`; on the empty tree it misses |
| SearchTree.InsertAll | K1.cpp:124-126 | Inserting a sequence of records one by one keeps the search-tree invariant and stores exactly those records |
| SearchTree.FirstInsertedIsFound | K1.cpp:94-119 | A lookup of the first inserted record's `year` returns that record, whatever is inserted after it |
| SearchTree.TwoRecordsSameYear | K1.cpp:94-119 | Inserting (2021, A, 1, Bob) and then (2021, B, 1, Amy), a lookup of "2021" returns Bob's record |
| SearchTree.BinarySearchTree.constructor | K1.cpp:122 | A new tree is empty and valid |
| SearchTree.BinarySearchTree.Insert | K1.cpp:124-126 | Public insert keeps the tree valid and adds exactly `item` to its contents |
| SearchTree.BinarySearchTree.Search | K1.cpp:128-130 | Public search is true exactly when a stored record has `year == key`; on a hit the result is such a stored record, on a miss it is the caller's `result` unchanged |
| ChainedHash.HashFold | K1.cpp:139-144 | Each step of the hash loop keeps the running value in `[0, n)` |
| ChainedHash.Hash | K1.cpp:139-144 | The hash of any key lies in `[0, n)`, and the empty key hashes to 0 |
| ChainedHash.FoldIsPolynomial | K1.cpp:139-144 | Reducing mod `n` after every step gives the same value as reducing the whole base-31 polynomial once |
| ChainedHash.HashIsPolynomial | K1.cpp:139-144 | The hash of a key is its base-31 polynomial value mod `n` |
| ChainedHash.Chain | K1.cpp:151-154 | A bucket's chain holds exactly the inserted records whose `year` hashes to that bucket |
| ChainedHash.ChainAppend | K1.cpp:151-154 | Inserting one more record appends it to the end of its own bucket's chain and changes no other chain |
| ChainedHash.FindYear | K1.cpp:156-165 | A linear scan finds nothing exactly when no record has the key, and otherwise returns the first record with the key |
| ChainedHash.FindYearInChain | K1.cpp:156-165 | Scanning only the key's chain finds the same record as scanning every inserted record in insertion order |
| ChainedHash.HashMap.constructor | K1.cpp:147-149 | A new table has `initialSize` empty chains and is valid |
| ChainedHash.HashMap.HashFunction | K1.cpp:139-144 | The character loop returns an index in `[0, table.size())` equal to the fold `Hash` |
| ChainedHash.HashMap.Insert | K1.cpp:151-154 | Insert appends `record` to the end of chain `Hash(record.year)`, leaves every other chain and the bucket count unchanged, and keeps the table valid |
| ChainedHash.HashMap.Search | K1.cpp:156-165 | Search is true exactly when some inserted record has `year == key`; then it returns the earliest inserted such record, otherwise `result` unchanged |
| Sorts.SelectionStep | L.1.cpp:76-86 | Swapping a minimum of the rest into position `i` extends the sorted, partitioned prefix by one and permutes the array |
| Sorts.SelectionFinished | L.1.cpp:76 | Once the outer loop stops at `n - 1` the whole array is sorted |
| Sorts.MinIndexFrom | L.1.cpp:77-82 | The inner loop finds a minimum of `a[i..]`, and it is the first one: every earlier candidate is strictly greater |
| Sorts.SelectionSort | L.1.cpp:74-87 | The result is sorted and a permutation of the input, and sorted input is left unchanged |
| Sorts.InsertionStep | L.1.cpp:92-100 | Moving `a[i]` below the run of predecessors `>` it extends the sorted prefix to `[0, i]` |
| Sorts.ShiftedPermutes | L.1.cpp:93-99 | One shift pass permutes the array |
| Sorts.ShiftedStable | L.1.cpp:95-99 | One shift pass, which moves `key` only past strictly greater records, keeps equivalent records in their relative order |
| Sorts.PassingKeepsRun | L.1.cpp:95-99 | Moving a record past a block with nothing `==` to it leaves every run of equivalent records as it was |
| Sorts.InsertionPass | L.1.cpp:92-100 | One outer step keeps the array a stable permutation of the input and grows the sorted prefix by one |
| Sorts.InsertAt | L.1.cpp:93-99 | The shift loop moves `a[i]` down to the slot after the last predecessor not `>` it, everything in between shifting up by one |
| Sorts.InsertionSort | L.1.cpp:90-101 | The result is sorted, a permutation of the input and stable, and sorted input is left unchanged |
| Sorts.SwapAdjacent | L.1.cpp:110-111 | Swapping two neighbours inside the window permutes the array and keeps the part outside the window settled |
| Sorts.ForwardStart | L.1.cpp:107-108 | Before the first comparison the forward-pass invariant holds with nothing swapped, `left` as the running maximum and the array unchanged |
| Sorts.ForwardStep | L.1.cpp:109-114 | One comparison keeps the forward-pass invariant: with a swap when `a[i] > a[i + 1]`, without one otherwise |
| Sorts.ForwardSwap | L.1.cpp:109-114 | A forward swap carries the running maximum of the window one place on and records a descent of the input |
| Sorts.ForwardKeep | L.1.cpp:109-114 | Passing a pair without a swap makes the next element the running maximum and extends the sorted part |
| Sorts.ForwardPass | L.1.cpp:108-114 | The forward pass leaves a maximum of the window at `right`, permutes the array and leaves every element outside `[left, right]` unchanged; with no swap the window is sorted and unchanged, and a swap happens only if the window had a descent |
| Sorts.ForwardSettles | L.1.cpp:120 | After a forward pass, `--right` adds the window's maximum to the settled part |
| Sorts.BackwardStart | L.1.cpp:121-122 | Before the first comparison the backward-pass invariant holds with nothing swapped and `right` as the running minimum |
| Sorts.BackwardStep | L.1.cpp:123-128 | One comparison keeps the backward-pass invariant: with a swap when `a[i - 1] > a[i]`, without one otherwise |
| Sorts.BackwardSwap | L.1.cpp:123-128 | A backward swap carries the running minimum of the window one place back |
| Sorts.BackwardKeep | L.1.cpp:123-128 | Passing a pair without a swap makes the previous element the running minimum and extends the sorted part |
| Sorts.BackwardPass | L.1.cpp:122-128 | The backward pass leaves a minimum of the window at `left`, permutes the array and leaves every element outside `[left, right]` unchanged; with no swap the window is sorted |
| Sorts.BackwardSettles | L.1.cpp:130 | After a backward pass, `++left` adds the window's minimum to the settled part |
| Sorts.SettledSorted | L.1.cpp:116-131 | A sorted window with everything outside it settled is a sorted array, so both exits of the loop leave the array sorted |
| Sorts.SortedAscending | L.1.cpp:109-118 | Sorted input has no descent, so the first forward pass makes no swap |
| Sorts.ShakerSort | L.1.cpp:103-132 | The result is sorted and a permutation of the input, including the empty vector where `right` starts at -1; sorted input is left unchanged |

## Left out

- `readData`, `operator<<`, the sorted-file output and all console output are I/O and are not modelled.
- `CampHash` combines library `std::hash<string>` values and is never used, so it is not modelled.
- The timing drivers (`performSearch`, `performAllSearches` and the `std::map`/`std::multimap` baselines) and both `main` functions depend on `clock()`, printing and library containers, and are not modelled.
- ConsoleApplication8.cpp, a decorator-pattern illustration with floating-point prices, is not part of this model.
- Tree nodes are allocated with `new` and never freed. The model keeps no heap of nodes. Every node owns its two subtrees exclusively, so a value `Tree` describes the pointer graph. The in-place rewrite of a `Node*&` link is modelled as rebuilding the descent path.
- The search out-parameter `Camp& result` is modelled as an input `result` plus a returned record, which equals `result` on a miss.
- `std::string` `<` compares characters as unsigned values. `Lex.Less` compares Dafny characters by code point. The two agree when each character stands for one byte of the string.
- ChainedHash.Hash: uses the non-negative code of each character. In the source a byte of 128 or more is a negative `char`, and `hash * 31 + c` is an `int` that can overflow when the bucket count is large; neither is modelled.
- ChainedHash.HashMap.constructor: requires at least one bucket. With zero buckets, `hashFunction` would take `% 0` and index an empty table.
- `shakerSort` computes `right` as `camps.size() - 1` converted to `int`. This is -1 for the empty vector, and the model starts `right` at `a.Length - 1` directly.
- The `do ... while (swapped)` of `shakerSort` is written as a `while true` loop with a `break` at each exit.
- Sorts.ShakerSort: states that sorted input is left unchanged but not, in its own contract, that the loop stops after the first forward pass. That pass makes no swap on sorted input by Sorts.ForwardPass and Sorts.SortedAscending, and the loop then exits at its first `break`.
