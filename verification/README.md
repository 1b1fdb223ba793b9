# Algorithm practice implementations, modelled in Dafny

The repository is a set of small, self-contained data structures and algorithms
written in Python. This project models eight of them and proves what each one
promises:

- **Indexed min-heap** (`indexed_min_heap.py`). A binary min-heap of `(key, score)`
  nodes kept in a list. A map gives each key's position, so a key's score can be
  updated in place. Insert swims the new node up. Pop swaps the root with the last
  node, removes it and sinks the new root. Update overwrites the score, then sinks
  and swims.
- **Open addressing hash map** (`open_addressing_hash_map.py`). Linear probing over
  a slot list, masking with `size - 1`. Deletion leaves a tombstone. A full table
  raises. The resizable wrapper starts at 4 slots. When a set fails, it doubles the
  size, re-inserts every live pair, then inserts the new pair.
- **Separate chaining hash map** (`separate_chaining_hash_map.py`). 10007 buckets,
  each a singly-linked chain behind a dummy head node. A falsy key (here the key
  0) is refused.
- **Expression simplifier** (`calc.py`). Literals, variables and binary operator
  nodes with a printed form. `simplify` folds operators whose operands are both
  literals, bottom-up. An unknown operator between two literals raises.
- **Binary indexed (Fenwick) tree** (`binary_index_tree.py`). Point updates and
  prefix sums over `n` values, stored as partial sums indexed from 1.
- **LZW** (`lzw.py`). `compress` turns ASCII text into one byte per code and returns
  the bytes as hex. `decompress` turns codes back into phrases joined by spaces.
- **Order matching engine with maker/taker costs**
  (`order_matching_engine_with_maker_taker.py`). It runs a limit order book for a
  single instrument:
  - Orders are matched by price/time priority.
  - A limit order's remainder rests on the book.
  - Orders can be cancelled.
  - Each trade's cost is credited to the maker and to the taker.
  - The taker is charged before the maker is looked up. So when the maker's user id
    is unknown, the taker keeps the charge and the maker gets none. Maker and taker
    totals then no longer agree, and the model keeps this.
- **Binary search tree** (`binary_search_tree.py`). Integer keys hang below a
  sentry node. It supports insert, delete with the "left rotate" splice, and find.
  In-order iteration uses Morris threading.

## How the source's forms are kept

Code that mutates objects becomes Dafny classes whose methods `modify` their fields.
Each method is proved against a specification function of the old state, and the
properties are proved about those functions:

- `IndexedMinHeap.IndexedMinHeap` keeps `lst` and `keyToIndex`. Its `Swim` and
  `Sink` loops are proved equal to the functions `SwimF` and `SinkF`.
- `OpenAddressingHashMap.LinearProbingHashST` keeps its slots in an `array`.
- `SeparateChainingHashMap.SeparateChainingHashST` keeps real linked `Node`
  objects. Ghost chains describe them.
- `BinaryIndexTree.BIT` keeps its partial sums in an `array`.
- `BinarySearchTree.BinarySearchTree` keeps the nodes in an arena. An index stands
  for an object reference, `left`/`right` are links, and node 0 is the sentry. A
  ghost shape `tree` describes what the links form.
- `OrderMatchingEngine.UserManager` and `OrderMatchingEngine.OrderBook` change
  their state in place. Every method is tied to a function of `OrderMatchingSpec`,
  and the matching rules are proved about those functions.

`calc.py` builds immutable values, so it is modelled with datatypes and functions.
The LZW loops are modelled both ways: methods `Lzw.Compress` and `Lzw.Decompress`
run the loops, and each is proved equal to a function (`Compressed`,
`Decompressed`). The round trip is proved about those functions.

Python's `hash` is a parameter (`hash: int -> int`) of both hash maps. Keys are
integers throughout. Raised exceptions become `Failure`/`Fail` results carrying the
source's message.

## Model

| member | source | states |
|---|---|---|
| IndexedMinHeap.SwapPermutes | indexed_min_heap.py:32-35 | swapping two positions permutes the list |
| IndexedMinHeap.SwimPermutes | indexed_min_heap.py:20-27 | swimming only permutes the list |
| IndexedMinHeap.SinkPermutes | indexed_min_heap.py:37-45 | sinking only permutes the list |
| IndexedMinHeap.SwimRestoresOrder | indexed_min_heap.py:20-27 | if the only misplaced node is at `k` (and its parent is no larger than its children), swimming `k` yields a heap |
| IndexedMinHeap.SinkRestoresOrder | indexed_min_heap.py:37-45 | if only the edges below `k` may be out of order, sinking `k` yields a heap |
| IndexedMinHeap.SinkThenSwimReady | indexed_min_heap.py:74-76 | after a score is overwritten, sinking leaves a list that swimming turns into a heap, which is why `update` sinks then swims |
| IndexedMinHeap.RootIsMinimumOfAll | indexed_min_heap.py:55-67 | in a heap no node scores below the root |
| IndexedMinHeap.RootIsMinimum | indexed_min_heap.py:55-67 | the root of a non-empty heap is a minimum of its nodes |
| IndexedMinHeap.InsertShape | indexed_min_heap.py:47-53 | appending a node and swimming it yields a heap that is the old nodes plus the new one |
| IndexedMinHeap.PopShape | indexed_min_heap.py:63-66 | swapping the root to the end, dropping it and sinking removes exactly the root and leaves a heap |
| IndexedMinHeap.SwapKeepsIndex | indexed_min_heap.py:29-35 | a swap followed by updating both keys' positions keeps the key-to-index map exact |
| IndexedMinHeap.RescoreIsSinkReady | indexed_min_heap.py:73-75 | overwriting one node's score in a heap leaves a list that sinking can repair |
| IndexedMinHeap.IterationOrderExample | indexed_min_heap.py:118-124 | inserting A..E with scores 100..96 gives the list order E, D, B, A, C that the test expects from iteration |
| IndexedMinHeap.IndexedMinHeap.constructor | indexed_min_heap.py:16-18 | a new heap is empty, with an empty key map |
| IndexedMinHeap.IndexedMinHeap.Items | indexed_min_heap.py:78-79 | iteration yields exactly the heap's nodes, list order, first node minimal |
| IndexedMinHeap.IndexedMinHeap.Swap | indexed_min_heap.py:32-35 | exchanges two nodes and re-points both keys; the key map stays exact |
| IndexedMinHeap.IndexedMinHeap.Swim | indexed_min_heap.py:20-27 | the list becomes `SwimF` of the old list; the key map stays exact |
| IndexedMinHeap.IndexedMinHeap.Sink | indexed_min_heap.py:37-45 | the list becomes `SinkF` of the old list; the key map stays exact |
| IndexedMinHeap.IndexedMinHeap.Insert | indexed_min_heap.py:47-53 | a present key fails with "key exists" and changes nothing; otherwise the heap holds the old nodes plus the new one, still ordered, and the key is indexed |
| IndexedMinHeap.IndexedMinHeap.Pop | indexed_min_heap.py:55-67 | an empty heap fails with "heap is empty"; otherwise returns the old root, a minimum, and removes exactly it and its key |
| IndexedMinHeap.IndexedMinHeap.RemoveRoot | indexed_min_heap.py:63-67 | on two or more nodes, removes and returns the old root, keeping the heap order |
| IndexedMinHeap.IndexedMinHeap.Update | indexed_min_heap.py:69-76 | an unknown key fails with "key does not exist" and changes nothing; otherwise replaces exactly that key's node by one with the new score, keeps the heap order and the keys |
| OpenAddressingHashMap.Position | open_addressing_hash_map.py:17-19 | the probed slot is always inside the table |
| OpenAddressingHashMap.Probe | open_addressing_hash_map.py:16-23 | `__find` returns the first probed slot that is empty or holds the key, or -1 after every step found another key |
| OpenAddressingHashMap.FindableKeysDistinct | open_addressing_hash_map.py:25-34 | in a table built by `__setitem__` no key occupies two slots |
| OpenAddressingHashMap.ProbeSeesOnlyKeys | open_addressing_hash_map.py:16-23 | probing depends only on which slots are empty and on the keys of the others, not on values or tombstones |
| OpenAddressingHashMap.ProbeAfterFill | open_addressing_hash_map.py:33-34 | filling an empty slot does not change a probe that did not stop there |
| OpenAddressingHashMap.ProbeFindsFilled | open_addressing_hash_map.py:33-34 | the probe that stopped at an empty slot stops there again once its key fills it |
| OpenAddressingHashMap.StoreKeepsFindable | open_addressing_hash_map.py:25-34 | storing a node where probing found its slot keeps every key findable |
| OpenAddressingHashMap.ContentsOfStore | open_addressing_hash_map.py:30-34 | writing a node into its key's slot changes the live mapping for that key only |
| OpenAddressingHashMap.LiveItemsRebuildContents | open_addressing_hash_map.py:83-84 | re-inserting the pairs `items` yields, in order, rebuilds exactly the live mapping |
| OpenAddressingHashMap.LiveItemsDistinct | open_addressing_hash_map.py:51-52 | `items` yields each live key once |
| OpenAddressingHashMap.ProbeFindsRoom | open_addressing_hash_map.py:16-23 | in a power-of-two table with an empty slot, probing never returns -1 |
| OpenAddressingHashMap.NonPowerOfTwoSkipsSlots | open_addressing_hash_map.py:17-19 | with 3 slots the mask is 2, so slot 1 is never probed and a set can fail while a slot is empty |
| OpenAddressingHashMap.NotFoundIsAbsent | open_addressing_hash_map.py:36-46 | when probing gives -1, an empty slot or a tombstone, the key is not live |
| OpenAddressingHashMap.LinearProbingHashST.constructor | open_addressing_hash_map.py:13-14 | `bucket_size` empty slots (none for a negative size), an empty mapping |
| OpenAddressingHashMap.LinearProbingHashST.Find | open_addressing_hash_map.py:16-23 | the loop returns exactly `Probe` from step 0 |
| OpenAddressingHashMap.LinearProbingHashST.Set | open_addressing_hash_map.py:25-34 | fails with "hash table is full" exactly when probing gives -1, changing nothing; otherwise the mapping becomes the old one with the key set to the value |
| OpenAddressingHashMap.LinearProbingHashST.Get | open_addressing_hash_map.py:36-40 | the value of a live key, None otherwise |
| OpenAddressingHashMap.LinearProbingHashST.Delete | open_addressing_hash_map.py:42-46 | a key that is not live fails with "key not found"; otherwise only that key leaves the mapping; no slot's key changes |
| OpenAddressingHashMap.LinearProbingHashST.Items | open_addressing_hash_map.py:51-52 | the live pairs in slot order |
| OpenAddressingHashMap.ResizableOpenAddressingHashST.constructor | open_addressing_hash_map.py:56-61 | a 4-slot empty table |
| OpenAddressingHashMap.ResizableOpenAddressingHashST.Get | open_addressing_hash_map.py:63-64 | the value of a live key, None otherwise |
| OpenAddressingHashMap.ResizableOpenAddressingHashST.Delete | open_addressing_hash_map.py:89-90 | removes a live key, else fails with "key not found" and keeps the mapping |
| OpenAddressingHashMap.ResizableOpenAddressingHashST.Set | open_addressing_hash_map.py:76-86 | never fails: the mapping becomes the old one with the key set; the size doubles exactly when the table had no slot for the key |
| OpenAddressingHashMap.ResizableOpenAddressingHashST.Resize | open_addressing_hash_map.py:79-86 | the `except` branch doubles the size and loses no live pair |
| OpenAddressingHashMap.Grow | open_addressing_hash_map.py:81-85 | a fresh table of the new size holding the old live mapping with the new pair set |
| OpenAddressingHashMap.Rebuild | open_addressing_hash_map.py:82-84 | inserting the yielded pairs into a fresh table gives the mapping they describe |
| SeparateChainingHashMap.BucketIdx | separate_chaining_hash_map.py:20-21 | the bucket index is within the table |
| SeparateChainingHashMap.BucketIdxIsEven | separate_chaining_hash_map.py:14-21 | masking with 10006 always gives an even index, so odd buckets are never used |
| SeparateChainingHashMap.IndexOf | separate_chaining_hash_map.py:23-28 | `__find` stops before the first node holding the key, or at the end of the chain |
| SeparateChainingHashMap.IndexOfUnique | separate_chaining_hash_map.py:23-28 | that position is determined by the chain and the key |
| SeparateChainingHashMap.LookupAfterSet | separate_chaining_hash_map.py:35-38 | after setting a key on a chain, it maps to the new value and every other key is unchanged |
| SeparateChainingHashMap.SetKeepsDistinct | separate_chaining_hash_map.py:35-38 | setting keeps each key in at most one node |
| SeparateChainingHashMap.LookupAfterRemove | separate_chaining_hash_map.py:52-54 | after unlinking a key it is absent and every other key is unchanged |
| SeparateChainingHashMap.RemoveKeepsOthers | separate_chaining_hash_map.py:52-54 | unlinking keeps exactly the other nodes |
| SeparateChainingHashMap.GetAfterSet | separate_chaining_hash_map.py:30-45 | on the whole table, a get after a set returns the value set, and other keys are unaffected |
| SeparateChainingHashMap.GetAfterRemove | separate_chaining_hash_map.py:40-54 | on the whole table, a get after a delete returns None for that key, and other keys are unaffected |
| SeparateChainingHashMap.SetKeepsPlaced | separate_chaining_hash_map.py:30-38 | setting keeps every key in its own bucket, once |
| SeparateChainingHashMap.RemoveKeepsPlaced | separate_chaining_hash_map.py:47-54 | deleting keeps every key in its own bucket, once |
| SeparateChainingHashMap.SeparateChainingHashST.constructor | separate_chaining_hash_map.py:16-18 | 10007 dummy heads with empty chains |
| SeparateChainingHashMap.SeparateChainingHashST.FindPrev | separate_chaining_hash_map.py:23-28 | the node just before the key's node (or the last node), whose `next` is the key's node or null |
| SeparateChainingHashMap.SeparateChainingHashST.Set | separate_chaining_hash_map.py:30-38 | the falsy key fails with "key cannot be None"; otherwise the chains become `TableSet` of the old chains, and a key already present is overwritten in its node, with no node allocated |
| SeparateChainingHashMap.SeparateChainingHashST.Overwrite | separate_chaining_hash_map.py:35-36 | only the found node's value changes |
| SeparateChainingHashMap.SeparateChainingHashST.Append | separate_chaining_hash_map.py:37-38 | a new node is linked at the end of its chain |
| SeparateChainingHashMap.SeparateChainingHashST.Get | separate_chaining_hash_map.py:40-45 | the falsy key fails; otherwise the value stored for the key, or None |
| SeparateChainingHashMap.SeparateChainingHashST.Delete | separate_chaining_hash_map.py:47-54 | the falsy key fails with "key cannot be None", an absent key with "key does not exist"; otherwise the chains become `TableRemove` of the old chains |
| SeparateChainingHashMap.SeparateChainingHashST.Unlink | separate_chaining_hash_map.py:54 | the predecessor skips the key's node, which drops out of its chain |
| Calc.Simplify | calc.py:61-75 | a simplified term has no foldable operator left, keeps its variables, and keeps the operator of an operator node that is not folded |
| Calc.SimplifyPreservesEval | calc.py:61-79 | simplifying never changes a term's value under any environment |
| Calc.BuiltNeverRaises | calc.py:10-17 | terms made with `add`/`sub`/`mul` never raise |
| Calc.ClosedTermsFoldToTheirValue | calc.py:61-79 | a built term without variables folds to the single literal holding its value |
| Calc.SimplifyIdempotent | calc.py:61-75 | simplifying twice is simplifying once |
| Calc.UnknownOperatorRaises | calc.py:65-73 | an unknown operator between two literal results raises, naming the operator |
| Calc.SimplifyExamples | calc.py:92-112 | the unit tests' simplification results, including that `((x + 1) + 2)` is left alone |
| Calc.NatToString | calc.py:19-20 | `str` of a natural number is a non-empty run of digits |
| Calc.ReprExamples | calc.py:88-93 | `(2 + 3)` and `-1` print as in the tests |
| Calc.ReprNestedExample | calc.py:102-104 | `((4 + 5) * (4 + 5))` prints as in the test |
| Calc.ReprLeftNestedExample | calc.py:111-112 | `((x + 1) + 2)` prints as in the test |
| Calc.ParseNatToString | calc.py:19-20 | reading back the digits `str` prints gives the number |
| Calc.ParseRepr | calc.py:58-59 | reading back the printed form of a printable term yields that term and the rest of the text |
| Calc.ReprInjective | calc.py:58-59 | two printable terms with the same printed form are equal |
| BinaryIndexTree.SumSplit | binary_index_tree.py:20-31 | a sum splits at any point |
| BinaryIndexTree.SumOfBumpedSlice | binary_index_tree.py:11-18 | adding `d` at one index changes the sum of a range by `d` exactly when the range holds that index |
| BinaryIndexTree.CoverStep | binary_index_tree.py:15-18 | stepping by the low bit reaches the next partial sum that covers the position and skips none |
| BinaryIndexTree.StepFromNonPositive | binary_index_tree.py:15-18 | from a negative position the step `idx += idx & -idx` climbs strictly but never above 0, and 0 is a fixed point |
| BinaryIndexTree.NegativeWalk | binary_index_tree.py:14-18 | the positions the loop visits from a negative start: it begins there, stays between the start and -1, each is the step of the one before, and the last one steps to 0 |
| BinaryIndexTree.NegativeIndexAsWritten | binary_index_tree.py:12-18 | `update(-1, d)` starts at 0, which is in range and a fixed point, so it adds `d` to `sum[0]` forever; from a lower index every visited position is a valid negative index when `idx + 1 >= -(n + 1)` and the walk then reaches 0 and stays, and otherwise the first write is out of range |
| BinaryIndexTree.BIT.constructor | binary_index_tree.py:6-9 | all partial sums are 0 and every value is 0 |
| BinaryIndexTree.BIT.Update | binary_index_tree.py:11-18 | an index outside `0 .. n - 1` fails with "out of range" and changes nothing; otherwise exactly that value grows by `delta` and every partial sum stays correct |
| BinaryIndexTree.BIT.AddFrom | binary_index_tree.py:15-18 | the loop adds `delta` to exactly the partial sums that cover the position |
| BinaryIndexTree.BIT.GetSum | binary_index_tree.py:20-31 | an index above `n` fails with "out of range"; otherwise the sum of the values below the index (0 when the index is at most 0) |
| Lzw.InitialDictionaries | lzw.py:11-13 | both sides start with exactly the 128 ASCII characters, each under its own code |
| Lzw.UnhexHex | lzw.py:43 | the hex text loses no byte |
| Lzw.Compress | lzw.py:9-43 | the loop's result, success or the error raised, is `Compressed(data)` |
| Lzw.Decompress | lzw.py:45-67 | the loop's result, success or the error raised, is `Decompressed(data)` |
| Lzw.CompressInv | lzw.py:25-38 | after any prefix, the written phrases followed by the current phrase spell the prefix, each written byte codes its phrase, and the table holds the ASCII characters plus one entry per written phrase while there is room |
| Lzw.DecompressTrace | lzw.py:56-65 | decompressing bytes that code a sequence of phrases yields exactly those phrases |
| Lzw.RoundTrip | lzw.py:9-67 | decompressing what `compress` wrote gives back phrases that concatenate to the original text |
| Lzw.CompressRejectsNonAscii | lzw.py:30-40 | text with a non-ASCII character always raises |
| Lzw.CompressEmptyFails | lzw.py:40 | the empty text fails the final assertion |
| Lzw.CompressTableBounds | lzw.py:35-37 | the table never exceeds 4096 entries, and code 128 is never assigned nor written |
| Lzw.DecodeUnknownCode | lzw.py:57-58 | a code not yet known stands for the previous phrase followed by its own first character, and raises when there is no previous phrase |
| Lzw.CompressExample | lzw.py:71-72 | `compress("ABABABA")` is `"41428183"` |
| Lzw.DecompressExample | lzw.py:74-75 | `decompress([65, 66, 129, 131])` is `"A B AB ABA"` |
| OrderMatchingSpec.StrLessTotal | order_matching_engine_with_maker_taker.py:87-88 | string order, by which users are sorted, is total |
| OrderMatchingSpec.StrLessTransitive | order_matching_engine_with_maker_taker.py:87-88 | string order is transitive |
| OrderMatchingSpec.InsertById | order_matching_engine_with_maker_taker.py:87-88 | inserting a user keeps the list sorted by id and adds exactly that user |
| OrderMatchingSpec.NetAddUser | order_matching_engine_with_maker_taker.py:77-80 | registering a user with zero costs keeps maker costs minus taker costs unchanged |
| OrderMatchingSpec.Dead | order_matching_engine_with_maker_taker.py:55-57 | the purge pops exactly the leading orders that are cancelled or exhausted |
| OrderMatchingSpec.Purge | order_matching_engine_with_maker_taker.py:55-61 | after purging, the level's front order, if any, can trade |
| OrderMatchingSpec.PurgeIdempotent | order_matching_engine_with_maker_taker.py:55-57 | purging twice is purging once |
| OrderMatchingSpec.Push | order_matching_engine_with_maker_taker.py:133-134 | pushing a level keeps the heap best-first (lowest ask, highest bid) and adds exactly that price |
| OrderMatchingSpec.TopIsBest | order_matching_engine_with_maker_taker.py:52-53 | the top of a side's heap is better than every other level of that side |
| OrderMatchingSpec.MaintainOk | order_matching_engine_with_maker_taker.py:141-145 | `_maintain_orders` leaves a well-formed side whose best level, if any, has a front order that can trade |
| OrderMatchingSpec.Pop | order_matching_engine_with_maker_taker.py:144-145 | popping the best level removes it from the heap and from the price map |
| OrderMatchingSpec.MaintainSuffix | order_matching_engine_with_maker_taker.py:141-145 | `_maintain_orders` only drops best levels |
| OrderMatchingSpec.MaintainDrops | order_matching_engine_with_maker_taker.py:141-145 | no dropped level held an order that could trade |
| OrderMatchingSpec.MaintainKeeps | order_matching_engine_with_maker_taker.py:141-145 | the kept best level is purged and every other kept level is untouched |
| OrderMatchingSpec.MatchStep | order_matching_engine_with_maker_taker.py:115-125 | a turn without error strictly reduces the incoming order's remaining quantity and keeps the state well formed |
| OrderMatchingSpec.MatchLoop | order_matching_engine_with_maker_taker.py:113-125 | the loop keeps the state well formed |
| OrderMatchingSpec.Submit | order_matching_engine_with_maker_taker.py:100-139 | an order without quantity changes nothing and costs 0; every result keeps the book well formed |
| OrderMatchingSpec.Cancel | order_matching_engine_with_maker_taker.py:147-151 | the book stays well formed |
| OrderMatchingSpec.MatchStepEffect | order_matching_engine_with_maker_taker.py:115-124 | a turn records a fill of the smaller remaining quantity at the resting order's price, takes it off both orders and adds its cost to the total |
| OrderMatchingSpec.MatchStepFill | order_matching_engine_with_maker_taker.py:114-124 | price/time priority: a turn trades with the front order of the best level, which can trade |
| OrderMatchingSpec.MatchLoopOrders | order_matching_engine_with_maker_taker.py:113-125 | matching keeps every order's cancelled flag, and quantities only go down |
| OrderMatchingSpec.MatchLoopFills | order_matching_engine_with_maker_taker.py:114-124 | only orders that could trade are filled |
| OrderMatchingSpec.MatchLoopAccounting | order_matching_engine_with_maker_taker.py:116-124 | the total grows by each fill's cost, and the order shrinks by each fill's quantity |
| OrderMatchingSpec.MatchLoopCrosses | order_matching_engine_with_maker_taker.py:103-114 | every fill has a positive quantity at a price the incoming order crosses |
| OrderMatchingSpec.MatchLoopStops | order_matching_engine_with_maker_taker.py:114 | the loop stops only when the contra side is empty, the order is exhausted, or the best price does not cross |
| OrderMatchingSpec.MatchLoopBalanced | order_matching_engine_with_maker_taker.py:117-120 | a completed loop keeps all maker costs minus all taker costs unchanged |
| OrderMatchingSpec.SubmitAccounting | order_matching_engine_with_maker_taker.py:100-139 | a successful submission returns the total cost of its fills. It never trades more than the order's quantity. Each fill crosses and is against an order that could trade |
| OrderMatchingSpec.SubmitBalanced | order_matching_engine_with_maker_taker.py:100-139 | a submission that succeeds, or fails only on the duplicate id of its resting remainder, keeps all maker costs minus all taker costs unchanged |
| OrderMatchingSpec.SubmitMatches | order_matching_engine_with_maker_taker.py:111-125 | the contra side and the users are as matching left them |
| OrderMatchingSpec.SubmitRests | order_matching_engine_with_maker_taker.py:127-137 | a limit order with quantity left rests with that quantity at the back of its price level and is filed under its new id; other levels are untouched |
| OrderMatchingSpec.SubmitDropsRemainder | order_matching_engine_with_maker_taker.py:127 | a market order's remainder, and an exhausted order, rest nowhere |
| OrderMatchingSpec.CancelEffect | order_matching_engine_with_maker_taker.py:147-151 | an unknown id or another user's order changes nothing; otherwise only that order's cancelled flag is set |
| OrderMatchingSpec.CancelledNeverFilled | order_matching_engine_with_maker_taker.py:147-151 | a cancelled order is never filled by a later submission |
| OrderMatchingSpec.CancelIdempotent | order_matching_engine_with_maker_taker.py:147-151 | cancelling twice is cancelling once |
| OrderMatchingEngine.UserManager.constructor | order_matching_engine_with_maker_taker.py:71-72 | no users |
| OrderMatchingEngine.UserManager.Exist | order_matching_engine_with_maker_taker.py:74-75 | a user exists exactly when looking it up succeeds |
| OrderMatchingEngine.UserManager.Lookup | order_matching_engine_with_maker_taker.py:82-85 | the user under the id, or the "is not a valid user ID" error exactly for an unknown id |
| OrderMatchingEngine.UserManager.Add | order_matching_engine_with_maker_taker.py:77-80 | a known id fails with "has already existed" and changes nothing; otherwise the user is added with zero costs; the cost balance is unchanged |
| OrderMatchingEngine.UserManager.Users | order_matching_engine_with_maker_taker.py:87-88 | every user exactly once, sorted by id |
| OrderMatchingEngine.OrderBook.constructor | order_matching_engine_with_maker_taker.py:92-98 | no levels and no orders, sharing the given user registry |
| OrderMatchingEngine.OrderBook.EarliestOrder | order_matching_engine_with_maker_taker.py:59-61 | purges the level and returns its front order, if any |
| OrderMatchingEngine.OrderBook.MaintainOrders | order_matching_engine_with_maker_taker.py:141-145 | the side becomes `Maintain` of the old side; nothing else changes |
| OrderMatchingEngine.OrderBook.MatchAndStore | order_matching_engine_with_maker_taker.py:100-109 | the result and the new book are exactly `Submit` of the old book |
| OrderMatchingEngine.OrderBook.MatchAndRest | order_matching_engine_with_maker_taker.py:111-139 | the result and the new book are exactly `Submit` of the old book |
| OrderMatchingEngine.OrderBook.Store | order_matching_engine_with_maker_taker.py:127-137 | the new book is `Rest` of the old one |
| OrderMatchingEngine.OrderBook.Match | order_matching_engine_with_maker_taker.py:112-125 | the loop ends in the state `Matched` describes; the order's own side and the ids are unchanged |
| OrderMatchingEngine.OrderBook.Credit | order_matching_engine_with_maker_taker.py:119-120 | the taker is charged, then the maker; an unknown user raises at the lookup where it occurs |
| OrderMatchingEngine.OrderBook.Trade | order_matching_engine_with_maker_taker.py:115-125 | one turn ends in the state `MatchStep` describes |
| OrderMatchingEngine.OrderBook.Cancel | order_matching_engine_with_maker_taker.py:147-151 | the new book is `Cancel` of the old one |
| BinarySearchTree.Lookup | binary_search_tree.py:79-87 | a key has a value exactly when a pair with that key is listed, and the value is listed with it |
| BinarySearchTree.SearchItems | binary_search_tree.py:79-87 | in a search tree, the walk of `find` returns the value listed with the key |
| BinarySearchTree.InsertedItems | binary_search_tree.py:24-43 | inserting a missing key adds exactly its pair and keeps the listing sorted |
| BinarySearchTree.DeleteFound | binary_search_tree.py:51-77 | deleting a present key removes exactly its pair and keeps the listing sorted and the nodes distinct |
| BinarySearchTree.InsertTree | binary_search_tree.py:24-43 | after the new node is linked in, the arena holds a search tree with one more pair |
| BinarySearchTree.DeleteTree | binary_search_tree.py:51-77 | after unlinking, the arena holds a search tree without the key's pair |
| BinarySearchTree.MorrisSubtree | binary_search_tree.py:89-106 | the threaded traversal of a subtree yields its pairs in order and removes every thread it made |
| BinarySearchTree.WalkToMax | binary_search_tree.py:96-98 | the inner walk stops at the rightmost node of the left subtree |
| BinarySearchTree.BinarySearchTree.constructor | binary_search_tree.py:21-22 | a tree holding only the sentry, listing no pairs |
| BinarySearchTree.BinarySearchTree.Insert | binary_search_tree.py:24-43 | answers true exactly when the key was absent; then the listing gains exactly the new pair, otherwise nothing changes |
| BinarySearchTree.BinarySearchTree.Locate | binary_search_tree.py:28-43 | stops at the node holding the key exactly when it is present, else at the node where the new leaf hangs |
| BinarySearchTree.BinarySearchTree.ReplaceNode | binary_search_tree.py:45-49 | the link of `target` that leads to `child` now leads to `newChild` |
| BinarySearchTree.BinarySearchTree.Delete | binary_search_tree.py:51-77 | an absent key fails with "cannot find" and changes nothing; otherwise the listing loses exactly that key's pair |
| BinarySearchTree.BinarySearchTree.Seek | binary_search_tree.py:52-59 | finds the key's node and its parent exactly when the key is present |
| BinarySearchTree.BinarySearchTree.RemoveNode | binary_search_tree.py:64-77 | unlinking the found node removes exactly its pair |
| BinarySearchTree.BinarySearchTree.MaxNode | binary_search_tree.py:70-72 | reaches the rightmost node of the left subtree |
| BinarySearchTree.BinarySearchTree.Find | binary_search_tree.py:79-87 | the value listed with the key, or None |
| BinarySearchTree.BinarySearchTree.Iter | binary_search_tree.py:89-106 | yields exactly the pairs in key order and leaves every link as it was |

## Left out

- Printing and the command-line driver are not modelled: the matching engine's `main`, `parse_side` and `eprint`, its `dump_orders` and `repr_orders`, the `__repr__` methods, and the print-on-exit decorator and `__main__` block of the open addressing map. They only format output.
- `queue_test.py` is not part of this model. It exercises the standard library's queue, not code of the repository.
- The unit test classes are not modelled as such. Their expectations are stated by the example lemmas (`Calc.SimplifyExamples`, `Lzw.CompressExample`, `Lzw.DecompressExample`, `IndexedMinHeap.IterationOrderExample` and others).
- Python's `hash` is a parameter of both hash maps, and keys are integers. Hashing of strings and other objects is not modelled. In the separate chaining map the only falsy integer key is 0.
- The binary search tree has integer keys and a sentry key (`SmallestDummy`) that is smaller than every key. Other key types are not modelled.
- The order book's `heapq.heappush` and `heapq.heappop` are modelled by their effect. A side's heap is a best-first sorted sequence of prices, not an array heap.
- `struct.pack` and `bytes.hex` are modelled only for one unsigned byte per code. A code above 255 yields the `struct.error` result.
- OrderMatchingEngine.OrderBook.Match: the fills it returns are ghost, and the caller only sees the quantity, the total cost and the error.
- BinarySearchTree.BinarySearchTree.Iter: runs the generator to completion. A consumer that stops early, leaving threads in place, is not modelled.
- BinarySearchTree.Walk: the inner walk carries a fuel bound. The proof supplies enough fuel for every well-formed tree, so no tree is cut short.
- BinaryIndexTree.BIT.constructor: `n` is a natural number. In Python a negative `n` makes an empty table; that case is not modelled.
- BinaryIndexTree.BIT.Update: a negative index is rejected with "out of range". In the source, `update(-1, d)` loops forever. A lower index first writes to negative positions of `sum`, then loops forever, or raises IndexError when `idx + 1 < -(n + 1)` (see Findings).
- Python object identity and aliasing are modelled by arena indices (the BST) and by handles into one order table (the order book), not by references.

## Findings

| source | as written | input that shows it | evidently intended | confidence | as-written member | corrected member |
|---|---|---|---|---|---|---|
| binary_index_tree.py:12-18 | only `idx >= n` is rejected. A negative index passes the guard and the loop starts at `idx + 1 <= 0`. From -1 it adds `d` to `sum[0]` forever. From a lower index, when `idx + 1 >= -(n + 1)`, it first writes `d` into the slots that `sum[idx + 1]` and the following negative positions name, then reaches 0 and loops forever; otherwise its first write raises IndexError | `update(-1, d)` | negative indices rejected as out of range | not executed | BinaryIndexTree.NegativeIndexAsWritten | BinaryIndexTree.BIT.Update |
