# IntToIntBtree and the arithmetic-complexity inspection, in Dafny

This project models two parts of the IntelliJ Community code base.

**`IntToIntBtree`** is the on-disk B-tree that maps 32-bit keys to 32-bit
values. The model covers:

- the page layout: a header word with the children count and two flag bits, a
  next-page word, then 8-byte slots of value (or negated child address) and key;
- the configuration the constructor derives from the page size;
- sorted nodes searched by binary search;
- hashed leaves, an open-addressed double-hash table over a prime capacity;
- `locate`'s descent, which splits full pages on the way down;
- the splitting of a hashed leaf (through `HashLeafData`) and of an interior
  node, with a parent insert or a new root;
- `get` and `put` with the fast path after a missed `get`, and `doPut`;
- `processMappings`;
- the persisted header written and read by `persistVars`.

The tree is a class. Its fields are:

- the storage: a map from page address to page words, with its length and page count;
- the persisted variables;
- the access node view;
- the last-get cache.

A ghost `Shape` records the tree the pages form. The class invariant `Valid()`
says that:

- the pages form a well-formed, routed B-tree of that shape, with distinct page
  addresses;
- `count` equals the number of entries the leaves hold, the sum of their
  children counts; `AllPairsCount` proves this is the number of pairs
  `processMappings` offers besides key 0's;
- the cached view is on the leaf where a missed key would go.

The abstract map is `Lookup`:

- key 0 lives outside the tree (`hasZeroKey` / `zeroKeyValue`);
- every other key is found by routing down the pages (`Shapes.Get`).

`Get`, `Put`, `DoPut` and `ProcessMappings` state their results against
`Lookup`. `Locate` and `SplitNode` state theirs against the routed lookup.

**`OverlyComplexArithmeticExpressionInspection`** decides when an arithmetic
expression has too many terms. The model covers `isArithmetic`,
`countTerms` and `checkExpression` over a small expression datatype. It
proves that the count is the number of terms, collected as an independent
list.

Files:

- `words.dfy`: 32-bit words and the header bit fields.
- `primes.dfy`: `isPrime` and the capacity search.
- `pages.dfy`: the page layout and the configuration.
- `probing.dfy`: the double-hash probe sequence; every slot is reached within capacity steps.
- `hashleaf.dfy`: `hashIndex`, hashed-leaf lookup and insert, and `HashLeafData`.
- `sorting.dfy`: the sort `HashLeafData` applies to its keys.
- `sortednode.dfy`: binary search and the sorted-node insert.
- `shapes.dfy` and `tree.dfy`: the ghost tree and its routed lookup.
- `split.dfy`: the pages a split produces.
- `mappings.dfy`: the processor protocol.
- `sizes.dfy`: the number of entries a tree holds, and how splits and leaf writes change it.
- `persist.dfy`: the header of `persistVars`.
- `btree.dfy`: the tree class.
- `arithmetic_complexity.dfy`: the inspection.

## Model

| member | source | states |
|---|---|---|
| `Words.WithChildrenCount` | platform/util/src/com/intellij/util/io/IntToIntBtree.java:334-346 | the new header's count field is the given count and its flag byte is the old one |
| `Words.WithFlag` | platform/util/src/com/intellij/util/io/IntToIntBtree.java:302-319 | the chosen flag bit is set or cleared, the other flag and the children count are unchanged |
| `Primes.IsPrime` | platform/util/src/com/intellij/util/io/IntToIntBtree.java:140-147 | true exactly for odd numbers that are 1 or prime (so `isPrime(1)` is true and `isPrime(2)` false) |
| `Primes.HashPageCapacity` | platform/util/src/com/intellij/util/io/IntToIntBtree.java:73-76 | stepping down by two from maxNodes+1 stops at a prime, and no odd number above it up to maxNodes+1 is prime |
| `Pages.MaxLeafNodesInHash` | platform/util/src/com/intellij/util/io/IntToIntBtree.java:78-79 | the result is even, at least 2 and below the capacity, and within one of 9/10 of the capacity |
| `Pages.MakeConfig` | platform/util/src/com/intellij/util/io/IntToIntBtree.java:66-89 | node limits from the page size; the capacity is odd and no odd number above it up to maxLeafNodes+1 is prime; the hashed-leaf limit comes from the capacity; the configuration is valid |
| `Pages.IndexToOffset` | platform/util/src/com/intellij/util/io/IntToIntBtree.java:501-503 | slot i starts at byte 8i+8 |
| `Pages.SlotWords` | platform/util/src/com/intellij/util/io/IntToIntBtree.java:468-516 | the value word and the key word of slot i are the words at `indexToOffset(i)` and 4 bytes later |
| `Pages.ZeroPage` | platform/util/src/com/intellij/util/io/IntToIntBtree.java:149-154 | a new page is all zeros and has the page's size |
| `Pages.SetKeyAt` | platform/util/src/com/intellij/util/io/IntToIntBtree.java:518-534 | slot i's key becomes v; every other key, every value and the two meta words are unchanged |
| `Pages.SetAddressAt` | platform/util/src/com/intellij/util/io/IntToIntBtree.java:480-499 | slot i's value becomes v; every other value, every key and the meta words are unchanged |
| `Pages.SetChildrenCount` | platform/util/src/com/intellij/util/io/IntToIntBtree.java:334-346 | the count becomes c, both flags and every other word are unchanged |
| `Pages.SetFlag` | platform/util/src/com/intellij/util/io/IntToIntBtree.java:550-562 | the chosen flag is set as asked, the other flag, the count and every other word are unchanged |
| `Pages.SetNextPage` | platform/util/src/com/intellij/util/io/IntToIntBtree.java:348-350 | the next-page word becomes a and nothing else changes |
| `Pages.MoveSlots` | platform/util/src/com/intellij/util/io/IntToIntBtree.java:1102-1105 | the n target slots hold the n source slots; every other slot is unchanged |
| `Probing.ProbesDistinct` | platform/util/src/com/intellij/util/io/IntToIntBtree.java:1156-1168 | with a prime capacity, the first capacity probes of a key are pairwise distinct slots |
| `Probing.ProbesCoverTable` | platform/util/src/com/intellij/util/io/IntToIntBtree.java:1156-1168 | with a prime capacity, every slot is probed within capacity steps |
| `HashLeaf.HashIndex` | platform/util/src/com/intellij/util/io/IntToIntBtree.java:1144-1185 | a hit is a probed slot holding the key; a miss is the first free probed slot, encoded −slot−1; every earlier probe is occupied; Corrupted only after more than capacity probes, never with a prime capacity and a free slot |
| `HashLeaf.FullAfterAllProbes` | platform/util/src/com/intellij/util/io/IntToIntBtree.java:1163-1166 | if the first capacity probes all hit other keys, a prime-capacity table has no free slot |
| `HashLeaf.HashIndexAgreesWithScan` | platform/util/src/com/intellij/util/io/IntToIntBtree.java:1144-1185 | on a consistent table, `hashIndex` finds the key exactly when the table maps it, and the slot's value is the mapped value |
| `HashLeaf.LiveKeysMembership` | platform/util/src/com/intellij/util/io/IntToIntBtree.java:639-650 | a key is among the live keys exactly when it is not `HASH_FREE` and some slot holds it |
| `HashLeaf.Clean` | platform/util/src/com/intellij/util/io/IntToIntBtree.java:662-665 | every table key becomes `HASH_FREE`; the values, the words beyond the table and the meta words are unchanged |
| `HashLeaf.Snapshot` | platform/util/src/com/intellij/util/io/IntToIntBtree.java:630-660 | Corrupted exactly when the table holds more live keys than recorded; otherwise the keys are the sorted live keys (zero-padded to the count) and the values map each key to its slot's value |
| `HashLeaf.SnapshotOfConsistentLeaf` | platform/util/src/com/intellij/util/io/IntToIntBtree.java:630-660 | on a consistent leaf the snapshot keys are strictly increasing, are exactly the stored keys, and carry their stored values |
| `Sorting.SortSpec` | platform/util/src/com/intellij/util/io/IntToIntBtree.java:659 | the sort is a sorted permutation of its input |
| `SortedNode.BinarySearch` | platform/util/src/com/intellij/util/io/IntToIntBtree.java:459-466 | over strictly increasing keys: a non-negative answer is a slot holding the key; a negative answer is −(insertion point)−1 |
| `SortedNode.ShiftSlotsUp` | platform/util/src/com/intellij/util/io/IntToIntBtree.java:1107-1110 | the slot-by-slot loop leaves the page the bulk move of the same slots one place up leaves |
| `SortedNode.InsertKeepsOrder` | platform/util/src/com/intellij/util/io/IntToIntBtree.java:1137-1139 | writing the key at its insertion point over the shifted slots keeps the keys strictly increasing |
| `SortedNode.InsertIntoSortedNode` | platform/util/src/com/intellij/util/io/IntToIntBtree.java:1094-1135 | the count rises by one and the keys stay sorted; itemsToMove is the number of keys above the insertion point; a leaf gains (key, value) there; an interior node gains the key with the child pointer to its right |
| `Split.InteriorHalves` | platform/util/src/com/intellij/util/io/IntToIntBtree.java:733-756 | the two halves of a split interior node are well-formed over the key ranges on either side of the median |
| `Split.ParentInsertGet` | platform/util/src/com/intellij/util/io/IntToIntBtree.java:758-791 | inserting the median and the new page into the parent keeps every lookup through the parent |
| `Split.NewRoot` | platform/util/src/com/intellij/util/io/IntToIntBtree.java:792-818 | a new root over the old and the new page, with the median, is well-formed and routes every key as before |
| `Tree.LeafUpdate` | platform/util/src/com/intellij/util/io/IntToIntBtree.java:1074-1091 | storing into the leaf at the end of a key's route changes the lookup of that key only |
| `Btree.InsertIntoHashedLeaf` | platform/util/src/com/intellij/util/io/IntToIntBtree.java:1080-1090 | afterwards the leaf maps the key to the value and every other key as before; the count rises by one; the probe succeeds within capacity steps |
| `Btree.MoveUpperHalf` | platform/util/src/com/intellij/util/io/IntToIntBtree.java:733-746 | the new page holds the upper half of the full interior node's keys and child pointers, in order |
| `Btree.SplitInterior` | platform/util/src/com/intellij/util/io/IntToIntBtree.java:733-756 | a full interior node is split at maxInteriorNodes/2: the left keeps the lower keys, the right gets the upper ones, and the median goes up |
| `Btree.IntToIntBtree.constructor` | platform/util/src/com/intellij/util/io/IntToIntBtree.java:51-90 | a new tree has the derived configuration, no root page, no pages, count 0, and maps nothing |
| `Btree.IntToIntBtree.NextPage` | platform/util/src/com/intellij/util/io/IntToIntBtree.java:149-154 | one zero page is appended at the old storage length; pagesCount rises by one; nothing else changes |
| `Btree.IntToIntBtree.PersistVars` | platform/util/src/com/intellij/util/io/IntToIntBtree.java:99-113 | a write stores the header words and leaves the variables as they were when the height fits 24 bits; a read loads the variables from the header; the pages and the view are untouched |
| `Persist.PersistAll` | platform/util/src/com/intellij/util/io/IntToIntBtree.java:99-113 | the ten `persistInt` calls write the header or leave it alone, and answer the variables the header holds |
| `Persist.PackHeightRoundTrip` | platform/util/src/com/intellij/util/io/IntToIntBtree.java:100-102 | a height below 2^24 and the zero-key flag come back out of the first word |
| `Persist.HeightCollidesWithMask` | platform/util/src/com/intellij/util/io/IntToIntBtree.java:22 | without the bound, height 2^24 with no zero key reads back as height 0 with a zero key |
| `Persist.Write` | platform/util/src/com/intellij/util/io/IntToIntBtree.java:100-112 | the header words sit at offsets 0, 4, …, 36 and no other word of the region changes |
| `Persist.Read` | platform/util/src/com/intellij/util/io/IntToIntBtree.java:100-112 | the variables read are the words at their offsets, the first one split into flag and height |
| `Persist.ReadAfterWrite` | platform/util/src/com/intellij/util/io/IntToIntBtree.java:99-113 | writing the variables and then reading them, on the same tree or a fresh one, gives back every variable when the height is below 2^24 |
| `Btree.IntToIntBtree.HashIndexOn` | platform/util/src/com/intellij/util/io/IntToIntBtree.java:1144-1185 | `hashIndex` with its statistics: the same result as `HashLeaf.HashIndex`, one more search request, no page changed |
| `Btree.IntToIntBtree.RecordHashSearch` | platform/util/src/com/intellij/util/io/IntToIntBtree.java:1150-1182 | one more request; on success the longest and the total probe counts take in this search |
| `Btree.IntToIntBtree.Search` | platform/util/src/com/intellij/util/io/IntToIntBtree.java:459-466 | on a hashed leaf, found exactly when the table maps the key, with the slot of its value; otherwise the binary-search answer |
| `Btree.IntToIntBtree.Insert` | platform/util/src/com/intellij/util/io/IntToIntBtree.java:1064-1141 | an empty leaf becomes hashed and hashedPagesCount rises; a leaf gains the pair; an interior node gains the key and the pointer at the insertion point, and movedMembersCount rises by the keys moved |
| `Btree.IntToIntBtree.Refill` | platform/util/src/com/intellij/util/io/IntToIntBtree.java:712-731 | the lower half of the sorted keys goes back into the old page and the upper half into the new one, with their values; each page is made hashed again at its first insert, so hashedPagesCount rises by two |
| `Btree.IntToIntBtree.SplitLeaf` | platform/util/src/com/intellij/util/io/IntToIntBtree.java:712-731 | a full hashed leaf is split into two hashed halves around the median key of its sorted keys; with the decrement before the refill, hashedPagesCount rises by one |
| `Btree.IntToIntBtree.SplitFull` | platform/util/src/com/intellij/util/io/IntToIntBtree.java:697-756 | a full page is split into the two halves and a median; the old page links to the new one, which links to the old successor |
| `Btree.IntToIntBtree.SplitNode` | platform/util/src/com/intellij/util/io/IntToIntBtree.java:669-828 | the split keeps the tree well-formed, every lookup and the number of entries; the node's page and the new page at the old storage end are the two halves of the split; below the root, the parent's page gains the median at the child's index with the pointer to the new page after it, and one page is added; at the root, a new root page after the new page holds the median between pointers to the two halves, and two pages are added; every other page is unchanged; the answer is the parent's address |
| `Btree.IntToIntBtree.Locate` | platform/util/src/com/intellij/util/io/IntToIntBtree.java:1032-1062 | the descent ends on the leaf of the key's route: the result is non-negative exactly when the key is stored, and then names its slot; every lookup and the number of entries are kept; the leaf it ends on is full only without split, and then the full-pages flag is set; without split no page changes; the height becomes the larger of it and the levels searched |
| `Btree.IntToIntBtree.InitAccessNodeView` | platform/util/src/com/intellij/util/io/IntToIntBtree.java:190-198 | the view starts at the root with no full page passed |
| `Btree.IntToIntBtree.DoAllocateRoot` | platform/util/src/com/intellij/util/io/IntToIntBtree.java:92-96 | the first page becomes an empty leaf root at address 0; the tree maps nothing |
| `Btree.IntToIntBtree.Get` | platform/util/src/com/intellij/util/io/IntToIntBtree.java:161-188 | found exactly when the key is mapped, and the result is its value; the map and the entry count are unchanged |
| `Btree.IntToIntBtree.Put` | platform/util/src/com/intellij/util/io/IntToIntBtree.java:200-223 | afterwards the key maps to the value and no other key changes; count rises exactly when a nonzero key was new, and still equals the entries the leaves hold; key 0 changes no page, layout, cache or view |
| `Btree.IntToIntBtree.DoPut` | platform/util/src/com/intellij/util/io/IntToIntBtree.java:225-242 | the root is allocated if missing; the key maps to the value; count rises exactly when the key was new; the zero-key fields stay |
| `Btree.IntToIntBtree.ProcessLeaf` | platform/util/src/com/intellij/util/io/IntToIntBtree.java:576-611 | the processor is offered the live slots of a hashed leaf in slot order, or the sorted slots, until it refuses one |
| `Btree.IntToIntBtree.ProcessLeafPages` | platform/util/src/com/intellij/util/io/IntToIntBtree.java:1205-1226 | the processor is offered each leaf's pairs, children left to right, until it refuses one |
| `Btree.IntToIntBtree.ProcessMappings` | platform/util/src/com/intellij/util/io/IntToIntBtree.java:1192-1203 | the zero pair is offered first, then the tree's pairs, until the processor refuses one |
| `Btree.IntToIntBtree.AllPairsCount` | platform/util/src/com/intellij/util/io/IntToIntBtree.java:1192-1226 | under the invariant, `processMappings` offers `count` pairs, plus one for key 0 when it is mapped |
| `Sizes.TreePairsCount` | platform/util/src/com/intellij/util/io/IntToIntBtree.java:1205-1226 | a well-formed tree offers as many pairs as its leaves' children counts add up to |
| `Btree.LeafWriteSize` | platform/util/src/com/intellij/util/io/IntToIntBtree.java:1074-1091 | writing a leaf's page changes the tree's entry total by the change in that leaf's children count |
| `Btree.IntToIntBtree.AllPairsAreLookup` | platform/util/src/com/intellij/util/io/IntToIntBtree.java:1192-1226 | the pairs `processMappings` offers are exactly the pairs the tree maps |
| `Mappings.VisitMeaning` | platform/util/src/com/intellij/util/io/IntToIntBtree.java:1196-1198 | the calls are the pairs up to the first refused one; the result is true exactly when none was refused |
| `Mappings.VisitAppend` | platform/util/src/com/intellij/util/io/IntToIntBtree.java:1217-1220 | offering two runs of pairs is offering the first, then the second only when nothing was refused |
| `Mappings.LivePairsMember` | platform/util/src/com/intellij/util/io/IntToIntBtree.java:582-603 | the pairs of a hashed leaf are exactly its non-free slots |
| `Mappings.LeafPairsAreStored` | platform/util/src/com/intellij/util/io/IntToIntBtree.java:576-611 | every pair a leaf offers is a stored nonzero key with its value, and every stored key is offered |
| `Mappings.TreePairsAreStored` | platform/util/src/com/intellij/util/io/IntToIntBtree.java:1206-1226 | every pair offered under a page is a key in the page's range that routes to that value, and every routed key is offered |
| `ArithmeticComplexity.IsReported` | plugins/InspectionGadgets/src/com/siyeh/ig/numeric/OverlyComplexArithmeticExpressionInspection.java:100-116 | reported exactly when the expression is arithmetic, its parent is not an arithmetic expression, it combines more than `limit` terms (counted as the independent list of its terms), and it is not the only expression of its method |
| `ArithmeticComplexity.CountTermsCountsTerms` | plugins/InspectionGadgets/src/com/siyeh/ig/numeric/OverlyComplexArithmeticExpressionInspection.java:118-141 | `countTerms` equals the number of terms: the maximal non-arithmetic or missing sub-expressions |
| `ArithmeticComplexity.SumTermsCountsTerms` | plugins/InspectionGadgets/src/com/siyeh/ig/numeric/OverlyComplexArithmeticExpressionInspection.java:122-129 | the loop over the operands adds up the terms of every operand |
| `ArithmeticComplexity.NonArithmeticIsOneTerm` | plugins/InspectionGadgets/src/com/siyeh/ig/numeric/OverlyComplexArithmeticExpressionInspection.java:119-121 | an expression that is not arithmetic counts as exactly one term, itself |
| `ArithmeticComplexity.ParenthesesAreTransparent` | plugins/InspectionGadgets/src/com/siyeh/ig/numeric/OverlyComplexArithmeticExpressionInspection.java:135-139 | parentheses neither make nor unmake arithmetic, and do not change the count |
| `ArithmeticComplexity.StringConcatenationIsNotArithmetic` | plugins/InspectionGadgets/src/com/siyeh/ig/numeric/OverlyComplexArithmeticExpressionInspection.java:144-148 | a String-typed polyadic expression is never arithmetic and counts as one term |
| `ArithmeticComplexity.SmallExpressionNotReported` | plugins/InspectionGadgets/src/com/siyeh/ig/numeric/OverlyComplexArithmeticExpressionInspection.java:37 | with the default limit of 6, an expression of at most six terms is never reported |

## Left out

- I/O: the memory-mapped storage, page buffers, locking, `doFlush`, `doClose` and `IOException` are not modelled. Pages are immutable word sequences in a map that operations replace whole. Aliasing between node views, and the `syncWithStore` re-reads after the storage grows, are therefore not captured.
- `BtreeDataStorage.persistInt` is code the tree does not contain. It is modelled as a word map from byte offset: a write stores the word and answers it; a read answers the stored word.
- Btree.IntToIntBtree.constructor: models only the `initial` case, a new empty tree. Reopening an existing file is covered by `PersistVars` reading the header.
- Pages.MaxLeafNodesInHash: `(int)(hashPageCapacity * 0.9)` is floating point. It is replaced by `capacity * 9 / 10`. The two agree for every odd capacity: the fraction of 9·capacity/10 is at least 0.1, far above the rounding error of the double. That argument is not proved here.
- Primes.IsPrime: `(int)Math.sqrt(val)` is floating point. The loop bound is written as `i * i <= val`, which tests the same odd divisors.
- Java `int` wrap-around is not modelled. Integers are unbounded here, so these do not wrap:
  - `count`, `pagesCount` and the storage length (`(int)storage.length()` past 2 GiB);
  - the statistics `hashSearchRequests`, `totalHashStepsSearched`, `movedMembersCount` and `optimizedInserts`.
- Btree.IntToIntBtree.PersistVars: requires every persisted variable to fit a Java `int`, for the same reason.
- `CorruptedException` has two sources, and both are shown not to happen on a consistent tree:
  - in `hashIndex` and `HashLeafData` it is a `Corrupted` status;
  - in `locate` (more levels than `height + 1`) the branch is proved unreachable under `Valid()`.
- The processor of `processMappings` is modelled as a pure function from a pair to "go on". The calls it receives are returned as a sequence. A processor with state of its own, or one that throws, is not captured.
- Dead code is not modelled: `offloadToSiblingsBeforeSplit` is false and `indexNodeIsHashTable` and `useDoubleHash` are true, so these are left out:
  - `doOffloadToSiblingsWhenHashed`, `doOffloadToSiblingsSorted` and their helpers;
  - the linear-probe branch of `hashIndex`;
  - the non-hashed table configuration.
- A leaf becomes hashed at its first insert, so the sorted-leaf insert is never reached on a leaf of the tree. `Insert` handles only hashed leaves and interior nodes.
- The bulk byte moves (`isLarge`) and the slot-by-slot loops are the same operation on slots. `SortedNode.ShiftSlotsUp` proves that for the insert shift.
- Not modelled, because they change no state the model has:
  - the `doSanityCheck` and `doDump` branches;
  - `dump`, `dumpStatistics`;
  - `version()`.
- Concurrency: the tree is single-threaded, and callers serialize access.
