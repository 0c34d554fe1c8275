# Verification of the cutil containers

cutil is a C library of containers. This project models its three stateful data structures, the
callback registry that is built on two of them, and the routine that packs a clean environment, and
proves with Dafny what they promise. `dafny verify dfyconfig.toml` checks all of it.

- **The threaded AVL tree** (`src/btree.c`): `Btree*.dfy`. Nodes are heap objects whose fields are
  overwritten as in C. A functional tree says which node sits where; a path from a subtree up to the
  root describes the rest while a subtree is rotated or walked to. Links, threads, keys and values
  are compared through snapshots (maps from nodes), so that most proofs are about values.
- **The array-backed list** (`src/list.c`): `ListRing.dfy`, `List.dfy`. One array of slots holds a
  used and a free ring; the rings are described by the sequences of their slot indices.
- **The chained hash table** (`src/hashtable.c`): `HashBuckets.dfy`, `HashTable.dfy`. An array of
  such lists. `Insert` and `Grow` are mutually recursive, as in C; the recursion ends because an
  inner insertion always happens at a smaller count. Hash and match functions are any that satisfy
  `Lawful`: match is an equivalence and matching items hash equal.
- **The callback registry** (`src/cb.c`): `RegistryView.dfy`, `Registry.dfy`, on top of `HashTable` and `List`. A bucket
  holds its name and the address of its list; the lists live in a store that is indexed by address.
- **The environment packer** (`src/sanitize.c`): `Sanitize.dfy`. The block is modelled as its array
  of pointers (offsets into the block, 0 being null) and the bytes of the whole block.

`Sequences.dfy`, `Numbers.dfy` and `CStrings.dfy` hold what they share. Predicates that are folded behind
`Unfold(k)`, and the like, are ordinary predicates that the verifier looks into only on demand.

A key, value or context is an address, 0 being the null pointer. A delete function is modelled by
whether it is there and by the sequence of what it is called with; `cb_call` by the sequence of the
callbacks it calls.

Three results say exactly when the original does what one would expect of it. The table of primes is
not increasing, and three of its sizes are never used (`HashBuckets.UnusedSizes`). Growing restores
`count <= 3 * size` exactly as long as `count <= 3 * 1610612741` (`HashBuckets.GrowthBounds`). The
mutual recursion of insertion and growth always ends, and it nests exactly if growth starts with more
than `4 * 1610612741` items (`HashTable.HashTable.Grow`).

## Model

| member | source | states |
|---|---|---|
| BtreeMap.RunAddsLookup | src/btree.c:718-813 | after any run of additions to an empty tree the bindings are sorted, a key is bound exactly if some addition with a non-null key and value gave it, and its value is that of the first such addition |
| BtreeMap.InsertIsMapUpdate | src/btree.c:718-789 | inserting an unbound key adds exactly that binding for all lookups, inserting a bound key changes nothing |
| BtreeMap.InsertedSorted | src/btree.c:736-758 | a binding put where its key belongs keeps the keys strictly ordered |
| BtreeMap.InsertBound | src/btree.c:753-757 | a key that is bound already is not bound again |
| BtreeMap.OneBinding | src/btree.c:867-878 | a lookup gives the value of the one binding whose key compares equal |
| Btree.KeyCmpIsTotal | src/btree.c:70-77 | the default comparison is a total order, so the map laws hold for it |
| Btree.Btree.ThreadedAvlTree | src/btree.c:636-789 | every reachable heap: true stored balance factors within -1..1, `parent` the exact inverse of the child pointers and null at the root, keys strictly ordered, threads equal to the in-order sequence, and every allocated node in exactly one of tree and free list |
| BtreeMap.FirstAddIsNew | src/btree.c:718-789 | an addition finds its key unbound exactly if it is the first of that key in the run |
| BtreeMap.FirstsAt | src/btree.c:795-813 | the i-th of the results of a run of additions tells whether the i-th addition is the first of its key |
| BtreeMap.FirstValuesAt | src/btree.c:867-878 | the i-th of the lookups after a run finds the value of the first addition of the i-th key |
| BtreeMap.FirstMeans | src/btree.c:736-758 | an addition is the first of its key exactly if no earlier one with a non-null key and value compares equal |
| BtreeMap.FoundMeans | src/btree.c:867-878 | a lookup after a run finds the value of the successful addition of an equal key, and NULL exactly if there is none |
| BtreeMap.VisitedMeans | src/btree.c:718-789 | after a run the tree holds exactly the bindings of the successful additions |
| BtreeMap.InsertMembers | src/btree.c:718-789 | an unbound key is put at one place between the others, which stay as they are |
| Btree.Run | src/btree.c:179-198 | any run of additions to a new tree, at any capacity, followed by lookups and a walk: an addition returns TRUE exactly if its key and value are not null and no earlier addition of the kind has an equal key; a lookup gives the value of the successful addition of an equal key, or NULL; the walk visits exactly the successful additions in increasing order. Without a compare function this is told in terms of the addresses, with one in terms of it |
| Btree.RunAll | src/btree.c:795-813 | the run ends in a valid tree that represents the bindings of the run |
| Btree.Btree.constructor | src/btree.c:136-173 | an empty valid tree with a first block of free nodes; its compare function is the one given, or the order of the addresses |
| Btree.Btree.Add | src/btree.c:795-813 | TRUE exactly for a non-null, unbound key and a non-null value; then exactly that binding is put between the others, else nothing changes; the heap stays a threaded AVL tree |
| Btree.Btree.InsertNode | src/btree.c:718-789 | the same for a free list that is not empty |
| Btree.Btree.FindPlace | src/btree.c:733-758 | the descent ends at a duplicate exactly if the key is bound, else at the empty child pointer where the key belongs, with the two in-order neighbours of that place |
| Btree.Btree.Hang | src/btree.c:764-776 | the new leaf is linked into the empty child pointer or the root, and nothing else is |
| Btree.Btree.HangOnly | src/btree.c:764-776 | the same, and the threads, keys and values stay |
| Btree.Btree.TieIn | src/btree.c:768-783 | the new node is tied in between its two neighbours and no other thread changes |
| Btree.Btree.Splice | src/btree.c:760-783 | a node from the free list becomes the new leaf, filled in, linked and tied |
| Btree.Btree.GetNode | src/btree.c:121-132 | the head of the free list is taken off it and no other thread changes |
| Btree.Btree.AddAt | src/btree.c:760-788 | an unbound key goes into the tree, which is valid again and holds exactly one more binding |
| Btree.Btree.BalanceTree | src/btree.c:636-715 | from a fresh leaf the climb ends, its asserts hold, and the tree is linked, balanced and in the same order, with the right root pointer |
| Btree.Btree.Tip | src/btree.c:650-659 | a grown subtree of an even node makes the factor -1 or 1 and moves the climb one node up |
| Btree.Btree.Absorb | src/btree.c:661-673 | a grown shorter subtree makes the factor 0 and the whole tree balanced |
| Btree.Btree.TipOver | src/btree.c:675-688 | the asserts of case 3: the factor of the node becomes -2 or 2, that of its child is not 0 |
| Btree.Btree.RotateAndStop | src/btree.c:675-711 | a grown taller subtree is rotated, the root pointer follows, and the whole tree is balanced |
| Btree.Btree.Rebalance | src/btree.c:785-786 | balancing leaves threads, keys and values alone |
| BtreeBalance.OneRotationFits | src/btree.c:683-705 | in case 3 exactly one of the four rotation preconditions holds |
| BtreeBalance.Rotate | src/btree.c:690-705 | the rotation that fits keeps the order and gives the subtree its height before the insertion |
| BtreeBalance.ClimbEven | src/btree.c:650-659 | case 1 moves the only wrong place one node up |
| BtreeBalance.ClimbShort | src/btree.c:661-673 | case 2 leaves the whole tree balanced with true factors |
| BtreeBalance.ClimbTall | src/btree.c:675-688 | case 3 stores -2 or 2 at the node, truly, above a child whose factor is not 0 |
| BtreeBalance.ClimbDone | src/btree.c:707-710 | once the subtree has its old height the climb may stop |
| BtreeRotate.RotateLeft | src/btree.c:270-336 | nothing changes and `p` is returned exactly if a guard fails; else every link and balance factor is that of the left rotation |
| BtreeRotate.RotateRight | src/btree.c:338-405 | nothing changes and `p` is returned exactly if a guard fails; else every link and balance factor is that of the right rotation |
| BtreeRotate.RotateLeftRight | src/btree.c:407-519 | nothing changes and `p` is returned exactly if a guard fails; else every link and balance factor is that of the left-right rotation with its table of three balance factors |
| BtreeRotate.RotateRightLeft | src/btree.c:521-633 | nothing changes and `p` is returned exactly if a guard fails; else every link and balance factor is that of the right-left rotation with its table of three balance factors |
| BtreeRotate.RotateLeftAt | src/btree.c:270-336 | in a tree that is off by two, under any parent or at the root, the heap is linked as the rotated tree with true factors |
| BtreeRotate.RotateRightAt | src/btree.c:338-405 | the mirror image |
| BtreeRotate.RotateLeftRightAt | src/btree.c:407-519 | the same for the left double rotation |
| BtreeRotate.RotateRightLeftAt | src/btree.c:521-633 | the same for the right double rotation |
| BtreeRotate.StoreFactors | src/btree.c:503-516 | the table of the two balance factors after a double rotation |
| BtreeRotate.RotateLeftHangs | src/btree.c:306-333 | the pointer changes of a left rotation link exactly the rotated tree, with true balance factors, and leave the rest of the tree linked |
| BtreeRotate.RotateRightHangs | src/btree.c:374-402 | the mirror image |
| BtreeRotate.RotateLeftRightHangs | src/btree.c:454-518 | the same for the left double rotation, for all three balances of the grandchild |
| BtreeRotate.RotateRightLeftHangs | src/btree.c:568-632 | the same for the right double rotation |
| BtreeRotate.RotatedLeftSameOrder | src/btree.c:272-293 | a left rotation keeps the in-order sequence |
| BtreeRotate.RotatedRightSameOrder | src/btree.c:340-361 | a right rotation keeps the in-order sequence |
| BtreeRotate.RotatedLeftRightSameOrder | src/btree.c:409-453 | a left double rotation keeps the in-order sequence |
| BtreeRotate.RotatedRightLeftSameOrder | src/btree.c:523-567 | a right double rotation keeps the in-order sequence |
| BtreeRotate.RotatedLeftLowers | src/btree.c:272-293 | it makes the subtree an AVL tree, one lower |
| BtreeRotate.RotatedRightLowers | src/btree.c:340-361 | it makes the subtree an AVL tree, one lower |
| BtreeRotate.RotatedLeftRightLowers | src/btree.c:409-453 | it makes the subtree an AVL tree, one lower |
| BtreeRotate.RotatedRightLeftLowers | src/btree.c:523-567 | it makes the subtree an AVL tree, one lower |
| BtreeState.ThreadedBetween | src/btree.c:768-783 | tying a node in between two neighbours threads the longer sequence |
| BtreeState.AddedIntact | src/btree.c:760-786 | taking a free node, filling it in, linking, tying and balancing leads from a sound state to a sound state with exactly that binding more |
| BtreeState.BlockJoined | src/btree.c:98-108 | a new block of free nodes keeps the state sound and loses no node |
| BtreeShape.AvlSize | src/btree.c:636-715 | an AVL tree of height h has at least fib(h + 2) - 1 nodes |
| BtreeShape.AvlHeight | src/btree.c:816-840 | its height is at most twice the binary logarithm of its size |
| BtreeSearch.Walked | src/btree.c:825-838 | each step of the search keeps the key within the subtree below |
| Btree.Btree.FindNode | src/btree.c:816-840 | finds the node whose key compares equal, or null exactly if the key is null or unbound, along a path from the root that at each node goes on to the child on the side of the key and has at most height nodes |
| BtreeState.DescentNext | src/btree.c:825-838 | one more step of that path |
| Btree.Btree.SearchIsLogarithmic | src/btree.c:816-840 | the length of such a path is logarithmic in the size, and size + 1 >= fib(height + 2) |
| Numbers.Pow2Law | src/btree.c:816-840 | the powers of two in these bounds and in the sizes of lists obey the law of exponents |
| Btree.Btree.Find | src/btree.c:867-878 | the bound value, NULL for a null or unbound key |
| Btree.Btree.Size | src/btree.c:252-257 | the number of bindings |
| Btree.Btree.FindTreeMin | src/btree.c:842-852 | the first node in order |
| Btree.Btree.FindTreeMax | src/btree.c:854-864 | the last node in order |
| Btree.Btree.ItrBegin | src/btree.c:1031-1036 | the first node in order, or the end |
| Btree.Btree.ItrRbegin | src/btree.c:1056-1061 | the last node in order, or the end |
| Btree.Btree.ItrSteps | src/btree.c:1039-1072 | next and prev of the i-th node are its neighbours in order, and it holds the i-th binding |
| Btree.Btree.Forward | src/btree.c:1031-1053 | begin and next visit every binding once, in strictly increasing order of the keys, and then end |
| Btree.Btree.Backward | src/btree.c:1056-1078 | rbegin and rnext visit them in exactly the reverse order |
| Sequences.BackwardsAt | src/btree.c:1056-1072 | what the backward walks of the tree, the lists and the table are told to visit is the reverse: the i-th element is the i-th from the end |
| Btree.Btree.AddMoreNodes | src/btree.c:79-109 | a new block becomes the free list; the map does not change and no node is lost or doubled |
| Btree.NewBlock | src/btree.c:98-108 | a block of distinct zeroed nodes chained through `next` |
| Btree.Btree.Deinitialize | src/btree.c:202-234 | the key delete function is passed exactly the stored keys, each once, the value one exactly the stored values; without a function nothing is deleted |
| Btree.Btree.ReleaseAll | src/btree.c:210-222 | the keys and the values of all nodes are passed in the order of the blocks, null ones left out |
| Btree.FlatBlocks | src/btree.c:210-214 | that order: the nodes of a block follow those of the blocks before it |
| BtreeRelease.NonNullCounts | src/btree.c:216-220 | only null pointers are left out, and all of them |
| BtreeRelease.ReleasedAnyOrder | src/btree.c:210-222 | the order in which the nodes are released does not matter |
| BtreeRelease.AllReleased | src/btree.c:210-222 | releasing all nodes, in any order, releases the parts of the stored bindings exactly once |
| BtreeRelease.AllKeysAndValues | src/btree.c:210-222 | the non-null keys of all nodes are exactly the stored keys, and the non-null values the stored values |
| ListRing.RingInsert | src/list.c:393-413 | linking a slot in front of another, or into an empty ring, gives the ring with the slot at that position |
| ListRing.RingRemove | src/list.c:369-389 | unlinking a slot gives the ring without it |
| ListRing.RingRotate | src/list.c:277-284 | inserting in front of the head without moving the head is inserting at the end |
| ListRing.InsertedElements | src/list.c:291-298 | inserting at a position: the element is there, those before it stay, the others move up by one |
| ListRing.WithoutElements | src/list.c:331-336 | removing at a position: those before it stay, the others move down by one |
| ListRing.PushSound | src/list.c:266-307 | a push keeps the slots divided into the two rings and inserts the value at its position |
| ListRing.PopSound | src/list.c:331-344 | a pop keeps the slots divided into the two rings and takes the value out of its position |
| ListRing.LiveByFlag | src/list.c:328-329 | the `used` flag tells exactly the slots of the used ring |
| ListRing.RingSteps | src/list.c:196-218 | where next and prev of a slot lead, and that they reach the head only at the ends |
| ListRing.SlotFacts | src/list.c:196-218 | the k-th used slot holds the k-th element and its links lead to its neighbours in the ring |
| List.InsertItem | src/list.c:393-413 | `item` is spliced in front of `itr`, or made the only slot of an empty ring; no other slot changes |
| List.RemoveItem | src/list.c:369-389 | `itr` is unlinked and its successor in the ring returned, the end for the last one |
| List.NewSlots | src/list.c:446-454 | a new array whose slots are one free ring, in order |
| List.NewSize | src/list.c:432-444 | the size after the least number of doublings, one at least, that make room; the amount itself for a list without slots |
| List.GrownExactly | src/list.c:432-444 | that size is the old one times a power of two, the least one that makes room |
| List.List.TwoRings | src/list.c:220-349 | slots are divided into one used ring (exactly those flagged, `count` of them, from `used_head`) and one free ring (`size - count`, from `free_head`), next and prev mutually inverse, a head -1 exactly if its ring is empty |
| List.List.Grow | src/list.c:415-483 | the size becomes the old one times the least power of two, at least 2, that makes room (the amount itself for a list without slots); element k moves to slot k, the other slots are the free ring, the sequence is the same; amount 0 does nothing |
| List.List.constructor | src/list.c:62-72 | an empty list with the given number of slots |
| List.List.Init | src/list.c:81-99 | an empty list with the given number of slots |
| List.List.Deinit | src/list.c:101-138 | the elements go to the delete function in order, and the list has no slots afterwards; one without slots keeps its delete function |
| List.List.Clear | src/list.c:160-173 | the same, and the list stays usable with its delete function |
| List.List.Reserve | src/list.c:148-158 | room for the amount, by growing so, and the same elements |
| List.List.ItrBegin | src/list.c:175-180 | the first slot, or the end |
| List.List.ItrTail | src/list.c:187-194 | the last slot, or the end |
| List.List.ItrNext | src/list.c:196-206 | the slot of the next element, the end after the last |
| List.List.ItrRnext | src/list.c:208-218 | the slot of the element before, the end before the first |
| List.List.Get | src/list.c:351-362 | the element at a live iterator, nothing for any other value |
| List.List.Forward | src/list.c:175-206 | begin and next visit the elements in order |
| List.List.Backward | src/list.c:187-218 | rbegin and rnext visit them in reverse |
| List.List.CountTo | src/list.c:243-249 | the position of an iterator, the count if it is not live |
| List.List.SlotAt | src/list.c:254-263 | the slot at a position after growth |
| List.List.MakeRoom | src/list.c:235-264 | a full list grows to twice its size and the iterator is translated by its position |
| List.List.LinkItem | src/list.c:277-304 | the item is spliced in at the position of the iterator, the end counting as the position after the last, and is the head exactly if that position is the first |
| List.List.Push | src/list.c:220-310 | element by element, with p the position of the iterator: the value is at p, the elements before p stay, the others move up by one, and so do the slots, renumbered by position when growth relocates them all; a full list returns FALSE exactly for a value that is neither live nor the end |
| List.List.Pop | src/list.c:312-349 | element by element: the last element, or the one at the iterator, is gone, those before it stay, the others move down by one; the slot after it in the ring is returned, the end exactly if the end was given or the list is empty afterwards; any value that is not live is refused |
| List.List.AfterTail | src/list.c:346-348 | after the last slot the ring goes on with the head, so that popping the last of several elements by index returns the head |
| List.Run | src/list.c:220-349 | any run of pushes and pops at any positions refines a sequence, and growth moves fewer than two elements for each push |
| List.StepElements | src/list.c:220-349 | what each operation of a run makes of the sequence, element by element |
| HashBuckets.OverLimit | src/hashtable.c:166-168 | the load test is the integer division of the code |
| HashBuckets.GetNewSize | src/hashtable.c:354-368 | the first prime that keeps the load at 3 or less, the last prime if none does |
| HashBuckets.FirstFitIsFirst | src/hashtable.c:358-367 | the size found is the first in the table that keeps the load at 3 or less: all before it are too small |
| HashBuckets.FirstFitBounds | src/hashtable.c:354-368 | the size is a prime of the table, and either enough or the last one |
| HashBuckets.GrowthBounds | src/hashtable.c:166-177 | a triggered growth increases the size exactly if it is not the last one yet, and restores count <= 3 * size exactly if count <= 3 * 1610612741 |
| HashBuckets.UnusedSizes | src/hashtable.c:54-65 | 50331653, 100663319 and 201326611 come after the larger 251658343 and are never chosen |
| HashBuckets.AddedHashed | src/hashtable.c:170-177 | appending an unmatched item to the list of its hash adds exactly it and keeps all items in their lists with no two matching |
| HashBuckets.RemovedHashed | src/hashtable.c:235-239 | taking an item out of its list removes exactly it |
| HashBuckets.MatchedInBucket | src/hashtable.c:209-224 | only the list of its hash can hold a match for an item |
| HashBuckets.MovedOne | src/hashtable.c:411-418 | an item that is moved to the new table has no match there |
| HashBuckets.OneMatch | src/hashtable.c:198-225 | an item has at most one match in the table |
| HashBuckets.FlatNoDup | src/hashtable.c:253-322 | no item comes twice in the sequence of all lists |
| HashTable.PushTail | src/hashtable.c:173-174 | a push to one list leaves the other lists alone |
| HashTable.PopAt | src/hashtable.c:235-236 | a pop from one list leaves the other lists alone |
| HashTable.DeinitAt | src/hashtable.c:420-421 | deleting an emptied list calls the delete function on nothing |
| HashTable.DeinitAll | src/hashtable.c:139-143 | every item goes to the delete function once, list by list |
| HashTable.HashTable.constructor | src/hashtable.c:72-90 | an empty table of the size for its initial capacity |
| HashTable.HashTable.Init | src/hashtable.c:106-128 | an empty table of the size for its initial capacity |
| HashTable.HashTable.Deinit | src/hashtable.c:131-149 | every item goes to the delete function exactly once, in the order of the lists |
| HashTable.HashTable.Insert | src/hashtable.c:157-180 | fails exactly if a match is stored, else adds exactly the item; deletes nothing; grows exactly if count / size > 3, to the size for the count, and keeps its lists otherwise; it grows more than once exactly beyond count 4 * 1610612741, and ends with count <= 4 * size exactly if count <= 4 * 1610612741 |
| HashTable.HashTable.Grow | src/hashtable.c:370-428 | ends, keeps the items and the count, deletes nothing, sets the size for the count, and an inner insertion grows the table again exactly if count > 4 * 1610612741 |
| HashTable.HashTable.DrainAll | src/hashtable.c:408-425 | all items of the old lists arrive in the new table |
| HashTable.HashTable.Drain | src/hashtable.c:411-421 | the items of one old list arrive and its deletion passes nothing to the delete function |
| HashTable.HashTable.MoveAll | src/hashtable.c:411-418 | every inner insertion succeeds, and one grows the table again exactly if more than 4 * size items result |
| HashTable.HashTable.Find | src/hashtable.c:198-225 | the end exactly if no stored item matches, else an iterator at the match |
| HashTable.HashTable.Remove | src/hashtable.c:227-242 | TRUE exactly at a live iterator, whose item alone is removed |
| HashTable.HashTable.Get | src/hashtable.c:244-251 | the item at a live iterator, nothing for any other value |
| HashTable.HashTable.Clear | src/hashtable.c:182-196 | every item is deleted once and an empty table remains |
| HashTable.HashTable.HeadFrom | src/hashtable.c:308-318 | the head of the first list from there on that is not empty, or the end |
| HashTable.HashTable.TailUpTo | src/hashtable.c:335-344 | the tail of the last list up to there that is not empty, or the end |
| HashTable.HashTable.ItrBegin | src/hashtable.c:253-269 | the first of all items, or the end |
| HashTable.HashTable.ItrRbegin | src/hashtable.c:276-295 | the last of all items, or the end |
| HashTable.HashTable.ItrNext | src/hashtable.c:297-322 | from the n-th of all items to the next, across empty lists, or to the end |
| HashTable.HashTable.ItrRnext | src/hashtable.c:324-348 | from the n-th of all items to the one before, or to the end |
| HashTable.HashTable.Forward | src/hashtable.c:253-322 | begin and next visit every stored item exactly once |
| HashTable.HashTable.Backward | src/hashtable.c:276-348 | rbegin and rnext visit them in exactly the reverse order |
| HashTable.HashTable.RemoveMatch | src/hashtable.c:198-242 | finding and removing takes out exactly the match |
| HashTable.HashTable.CountIsSize | src/hashtable.c:151-155 | `count` is the number of items stored |
| HashTable.Run | src/hashtable.c:157-242 | any run of insertions, removals, searches and clears refines a set up to matching, each returning what it means for the set at that point, with count <= 4 * size unless the size is the last prime |
| HashBuckets.RunAnswersAt | src/hashtable.c:157-242 | the i-th result of a run: TRUE for an insertion exactly if nothing in the set at that point matches, for a removal or a search exactly if something does |
| CStrings.TextBytes | src/cb.c:324-334 | the text of a C string is what precedes its first NUL |
| Registry.FnvKeyHash | src/cb.c:323-334 | the loop computes the 32-bit FNV hash of the text of the name |
| Registry.FnvStepMeans | src/cb.c:328-332 | one step over the integers: the product with 16777619 modulo 2^32, whose last 8 bits are mixed with the byte |
| Registry.FnvShortNames | src/cb.c:324-334 | the hash of the empty name and of every name of one byte |
| Registry.CbLawful | src/cb.c:336-349 | string match is an equivalence that the hash respects, as the table needs |
| CStrings.TextOfCopy | src/cb.c:124-124 | the copy of a name has the text of the name |
| Registry.TiedUpdate | src/cb.c:137-141 | changing the list of one bucket changes what is registered under its name and nothing else |
| Registry.TiedNew | src/cb.c:121-147 | a new bucket registers a new name and changes no other one |
| RegistryView.MinusAt | src/cb.c:300-321 | removing one record keeps the order of the others |
| RegistryView.AddedElements | src/cb.c:137-141 | the record comes after those of its name, which stay; every other name keeps its records |
| RegistryView.RemovedElements | src/cb.c:300-321 | the record is gone, those before it stay, those after it move down; every other name keeps its records |
| Registry.Registry.constructor | src/cb.c:62-77 | nothing is registered |
| Registry.Registry.FindBucket | src/cb.c:240-268 | the one bucket of the name, or none exactly if it has none |
| Registry.Registry.GetCbItr | src/cb.c:270-290 | the iterator at the record, the end exactly if it is not in the list |
| Registry.Registry.Has | src/cb.c:87-96 | TRUE exactly if something is registered under the name |
| Registry.Registry.Add | src/cb.c:98-161 | TRUE exactly if the callback has a function and is not there yet; then it stands after those of its name, which keep their places; all other names keep theirs, and otherwise nothing changes |
| Registry.Registry.AddBucket | src/cb.c:121-150 | a name without a bucket gets one that holds the one callback |
| Registry.Registry.Remove | src/cb.c:163-174 | TRUE exactly if the callback is there; then it alone is gone, those before it stay and those after it move down; all other names keep theirs, and otherwise nothing changes |
| Registry.Registry.Call | src/cb.c:176-216 | calls what is registered in the order of registration and returns TRUE exactly if that is not nothing |
| Registry.Run | src/cb.c:87-216 | any run of additions, removals, queries and calls refines a map from names to sequences of callbacks, each returning and calling what it means for the map at that point |
| RegistryView.RunReturnsAt | src/cb.c:87-216 | the i-th result of a run: TRUE for an addition exactly if it has a function and is new, for a removal exactly if it is there, for a query or a call exactly if something is registered under the name |
| RegistryView.RunRegistered | src/cb.c:98-174 | after any run a record is registered under a name exactly if some addition of it to the name has no later removal |
| RegistryView.RunOrder | src/cb.c:98-174 | the records of a name are in the order of the additions they stand for, the earliest ones without a later removal |
| RegistryView.RunReturnsMean | src/cb.c:87-216 | the results of a run in terms of the operations before: an addition returns TRUE exactly if the record does not stand, a removal exactly if it does, a query or a call exactly if some record stands under the name |
| Sanitize.SizePlain | src/sanitize.c:155-160 | the bytes and the number of strings copied as they are |
| Sanitize.SizePreserved | src/sanitize.c:173-185 | the bytes and the number of settings of the variables that the environment has |
| Sanitize.Measure | src/sanitize.c:153-195 | the first pass counts exactly the strings of the new environment and their bytes |
| Sanitize.PackPlain | src/sanitize.c:204-210 | the strings are packed behind the earlier ones with their pointers |
| Sanitize.PackPreserved | src/sanitize.c:230-241 | the settings of the variables present are packed behind the earlier ones with their pointers |
| Sanitize.Pack | src/sanitize.c:202-254 | the second pass packs exactly the strings that the first pass counted |
| Sanitize.BuildCleanEnviron | src/sanitize.c:148-257 | following the pointers up to the null one reads, entry by entry: IFS and PATH; TZ with its value, if present; each name preserved by the client that is present, with its value, after the names before it that are present; and the added strings |
| Sanitize.BuildBlock | src/sanitize.c:197-256 | the block that the first pass sized is filled exactly |
| Sanitize.NewEnvironByIndex | src/sanitize.c:202-254 | which string the second pass writes where |
| Sanitize.PresentByIndex | src/sanitize.c:230-241 | a present name stands behind as many settings as present names precede it, with `=` and its value |
| Sanitize.ClientStops | src/sanitize.c:174-190 | the names of the client are those before the count and before the first null pointer, none without an array |
| Sanitize.EnvironReadsBack | src/sanitize.c:202-256 | reading the C string at each pointer gives the packed strings back, in order |
| Sanitize.Tiled | src/sanitize.c:197-254 | each string begins where the one before ends, the first behind the pointers, the last ends with the block, and the last pointer is null |
| Sanitize.TakenStops | src/sanitize.c:176-176 | the loops over the client's arrays stop at the count or the first null pointer |

## Left out

- Btree.Btree.Add: integer widths are not modelled; sizes, counts and indices are unbounded, and so are list and table sizes below.
- Btree.Btree.Deinitialize: the blocks themselves are not freed; only the calls of the delete functions are told.
- BtreeRotate.RotateLeft: the nodes that a rotation links anew must be different ones, as they are in any tree; links that run together are not modelled.
- BtreeRotate.RotateRight: as RotateLeft.
- BtreeRotate.RotateLeftRight: as RotateLeft.
- BtreeRotate.RotateRightLeft: as RotateLeft.
- List.List.Push: an iterator must be the end or live unless a non-empty list is full. The code does not check others: it links the new item in front of whatever slot the iterator names, which may be in the free ring, or be the item itself, whose links have just been set to -1.
- List.List.Pop: popping the end of an empty list that has slots is excluded; the code then reads the item at index -1. Where the comment above the function says that popping the tail returns the end, the code returns the head when the tail is given by its index and is not the only element, and so does the model.
- List.List.Reserve: the argument is a 32-bit number in C.
- HashTable.HashTable.Insert: items are values that are not null; the guards that refuse a null item are not modelled. The load test uses exact integers where the code divides floats.
- HashTable.HashTable.ItrNext: the iterator must not be the end; the code then reads the list at index -1.
- HashTable.HashTable.ItrRnext: as ItrNext.
- HashTable.HashTable.Deinit: the fields of the table, which dangle afterwards, are left as they are; only `Clear` uses the table again.
- HashTable.HashTable.constructor: null hash or match functions, which the code refuses, are not modelled.
- Registry.Registry.Call: the arguments and the calls themselves, and callbacks that change the registry while they run; `cb_delete` and its frees are not modelled.
- Sanitize.BuildCleanEnviron: `getenv` is a map that does not change between the passes; the standard path of the system is a parameter; pointers take 8 bytes.
- `bt_remove` and `bt_replace_node`: they do not keep the invariants (the size, the root pointer and the balance are not maintained, subtrees can be dropped).
- Null containers, failures of allocation and the hooks for unit tests.
- The comparison, hash and match functions are functions of the addresses: what they point to does not change while it is stored.
- Registry.FnvKeyHash: the exclusive or is modelled on the last 8 bits of the hash, the only ones that a byte reaches.
- HashTable.HashTable.Grow: the array of list structs is a sequence of list objects, which never changes its length; in the same way a block of tree nodes is a sequence of node objects, and strings are sequences of bytes.
- The order of the items within the hash table after growth is not told, only which items it holds.
- `src/bitset.c`, `src/buffer.c`, `src/pair.c`: not modelled; a pair is a record of its two parts here.
- `src/aiofd.c`, `src/socket.c`, `src/events.c`, `src/child.c`, `src/privileges.c`, `src/daemon.c`, `src/log.c` and the rest of `src/sanitize.c`: input and output, signals, processes and other system calls.
- `bt_print` and the debug output.
