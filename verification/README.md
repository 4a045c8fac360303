# Linkless weight-balanced search tree

`LinklessTree` stores a binary search tree without links. Values sit in one array and
subtree sizes in a second, parallel array. The children of slot `k` are slots `2k+1`
and `2k+2`, so every structural change has to move whole subtrees between array
positions. A subtree is moved down one level, across to its sibling position, or up one
level. Each rotation uses all three moves. After an insertion, the tree is rebalanced
top-down whenever one child's subtree outweighs the other by more than the tree's
`weightFactor`.

This project models the buffers as an immutable `Storage.Store`. It relates the store to
an ordinary search tree through the abstraction `Storage.Abs`, and proves each operation
against the matching ordinary-tree operation in `Bst`. It shows that each operation keeps
two invariants:

- every recorded size equals the size of the encoded subtree, and no value sits below an
  empty slot (`Storage.Inv`);
- the encoded tree is a search tree (`Storage.Ordered`).

Values are modelled as `int` under their natural order.

The modules follow the class's structure:

- `Implicit` covers index arithmetic: parent, level, descendant, and the relocation map
  between two subtrees.
- `Bst` is the reference search tree: membership, insertion, rank selection, rotations,
  deletion.
- `Storage` holds the buffers, construction, growth and the invariant.
- `Subtrees` frames changes confined to one subtree.
- `Navigation` models `findIndex`, `contains`, `size` and `get`.
- `Relocation` covers whole-subtree moves and the per-level index maps of the four
  `move*` helpers.
- `Rotation` models `rotateRight` and `rotateLeft`.
- `Balance` models `fixTree`.
- `Insertion` models `insert`.
- `Deletion` models `delete`.

Where the code as written loses values, reads past the end of an array or breaks the
invariant, the model states the as-written behaviour in a separate member. It proves the
discrepancy on a concrete input and uses a corrected definition everywhere else. See
"## Findings".

## Model

| member | source | states |
|---|---|---|
| Storage.New | LinklessTree.java:38-51 | Construction fails exactly when the start size is below one. Otherwise the capacity is the least power of two not below the start size, every slot is empty, the encoded tree is empty, and the invariant holds. |
| Storage.Grow | LinklessTree.java:115-118 | Growth doubles the capacity. Every slot keeps its value and its size, and the new half is empty, so the encoded tree is unchanged. |
| Storage.EnsureRoom | LinklessTree.java:235-236 | After growth, every occupied slot has both children inside the buffer, and no value or size has changed. |
| Storage.InvIsLocal | LinklessTree.java:423-430 | The invariant holds exactly when two things hold: the slot-by-slot size recurrence that `weightCheck` tests, and no occupied slot below an empty one. |
| Implicit.ParentOfChildren | LinklessTree.java:406 | The source's parity-based parent formula inverts both child formulas. |
| Implicit.TranslateInverse | LinklessTree.java:212-222 | Relocating a subtree from `a` to `b` and back returns every slot to where it started. |
| Navigation.FindIndex | LinklessTree.java:84-96 | The returned slot is empty or holds the value, and lies at most one level past the end of the buffer. |
| Navigation.FindFromRefines | LinklessTree.java:84-96 | The buffer descent stops on `v` exactly when the ordinary search-tree lookup finds `v`. Otherwise it stops at an empty subtree. |
| Navigation.FindIndexCorrect | LinklessTree.java:84-96 | In an ordered buffer, `findIndex` lands on `v` exactly when `v` is stored, and otherwise on an empty slot. |
| Navigation.Contains | LinklessTree.java:99-111 | `contains` answers tree membership, and agrees with whether `findIndex` stopped on the value. |
| Navigation.Size | LinklessTree.java:54-56 | The size recorded at the root is the number of values in the encoded tree. |
| Navigation.SizeCountsValues | LinklessTree.java:54-56 | In an ordered buffer, `size()` equals the number of distinct stored values. |
| Navigation.SizeBelowCapacity | LinklessTree.java:122-123 | The tree never holds more values than the buffer has slots, so `get`'s range check against the capacity admits every valid rank. |
| Navigation.Get | LinklessTree.java:121-138 | For every rank `k` below the number of stored values, `get(k)` is the value at position `k` of the in-order sequence; for every other `k`, including negative ones, it is absent. |
| Navigation.GetFromCorrect | LinklessTree.java:127-137 | The rank descent from any slot returns the element of that rank in the subtree, and nothing for a rank beyond the subtree's size. |
| Navigation.GetCorrect | LinklessTree.java:121-138 | On an ordered buffer the in-order sequence is strictly increasing, so `get(k)` is the k-th smallest stored value for every `k` below the size, and absent for every other `k`. |
| Navigation.GetAsWrittenAgrees | LinklessTree.java:121-138 | Whenever the descent as written finishes, its answer matches the corrected descent. |
| Navigation.GetAsWrittenReadsPastEnd | LinklessTree.java:127-129 | In a one-slot buffer holding one value, `get(0)` as written reads slot 1 of the sizes array, while the corrected descent returns the value. |
| Relocation.Move | LinklessTree.java:212-334 | The intended effect of the `move*` helpers: relocating the subtree at `a` to `b` keeps validity and capacity, and when nothing below `a` corresponds to a slot past the end of the buffer, the subtree encoded at `b` afterwards is the one encoded at `a` before. Slot by slot, every slot of `b`'s subtree inside the buffer takes the value and size of the corresponding slot below `a`. Slots below `a` but not below `b` are emptied, and every slot outside both subtrees keeps its value and size. |
| Relocation.MoveAbs | LinklessTree.java:212-222 | When the source subtree fits in the buffer, the relocated subtree encodes the same search tree at its new root. |
| Relocation.GoodTranslate | LinklessTree.java:212-222 | A copy of a well-formed subtree is well formed at its destination and encodes the same tree. |
| Relocation.DownLeftExact | LinklessTree.java:284-288 | `moveDownLeft`'s per-level destination sends position `p` of level `d` below `a` to position `p` of level `d` below `2a+1`. This is exactly the inverse of the relocation map. |
| Relocation.DownRightExact | LinklessTree.java:243-257 | The corrected scan of `moveDownRight` covers level `d` below `a`, ending at its right edge. Its destination sends each slot to the same position below `2a+2`, the inverse of the relocation map. |
| Relocation.DownRightAsWrittenSkipsRoot | LinklessTree.java:243 | The scan as written never visits the root of the subtree being moved. |
| Relocation.DownRightAsWrittenTopLevel | LinklessTree.java:243-255 | At level 0, the as-written scan reads the left sibling `2i+1` and writes it to `4i+4`. The corrected scan reads `2i+2` and writes it to `4i+6`. |
| Relocation.AcrossExact | LinklessTree.java:212-222 | With offset `2^d` at relative level `d`, moving across sends each slot below `a` to the same position below `a+1` and back. This agrees with the relocation map in both directions. |
| Relocation.AcrossAsWrittenOnlyNearTop | LinklessTree.java:217-218 | The as-written offset (`relLevel`, i.e. `d+1`) agrees with the correct offset exactly on the top two levels. |
| Relocation.AcrossAsWrittenExample | LinklessTree.java:218 | Moving the subtree at 4 across, slot 19 goes to 22 as written, where it belongs at 23. |
| Relocation.UpRightExact | LinklessTree.java:301-311 | With the count equal to the slot's position in its level, `moveUpRight`'s destination sends position `p` of level `d` below `2·parent+1` to position `p` of level `d` below `parent`. |
| Relocation.UpRightAsWrittenNearTop | LinklessTree.java:306-311 | The count as passed down the recursion is right on the top two levels. |
| Relocation.UpRightAsWrittenExample | LinklessTree.java:306-311 | For slot `4a+5` the recursion passes count 1 and the slot lands on `2a+2`; its place is `2a+3`. |
| Relocation.UpLeftExact | LinklessTree.java:324-334 | With the count equal to the slot's distance from its level's right edge, `moveUpLeft`'s destination sends position `p` of level `d` below `2·parent+2` to position `p` of level `d` below `parent`. |
| Relocation.UpLeftAsWrittenNearTop | LinklessTree.java:329-334 | The count as passed down the recursion is right on the top two levels. |
| Relocation.UpLeftAsWrittenExample | LinklessTree.java:329-334 | For slot `4a+4` the recursion passes count 1 and the slot lands on `2a+1`; its place is `2a`. |
| Relocation.UpRightPreorderClobbers | LinklessTree.java:306-311 | The recursion visits slots in preorder. So even with correct destinations, slot `4a+4` is written over `2a+2` before `2a+2` itself has been moved. |
| Rotation.WriteSlot | LinklessTree.java:349 | Storing one value changes that slot only and no size. |
| Rotation.Recompute | LinklessTree.java:361-363 | After recomputation the size recurrence holds at the slot, and no other size changes. |
| Rotation.RecomputeAsWritten | LinklessTree.java:361-363 | As written, the recurrence is restored only if the slot is occupied. |
| Rotation.RecomputeAsWrittenCountsEmpty | LinklessTree.java:361-363 | On an emptied slot, the as-written recomputation records at least one value and breaks the recurrence. The corrected one records zero. |
| Rotation.TreeRotatePreserves | LinklessTree.java:344-386 | A search-tree rotation keeps the in-order sequence, the set of values, the size and the search-tree property. |
| Rotation.Rotate | LinklessTree.java:344-386 | `rotateRight`/`rotateLeft` at slot `i` with an occupied promoted child: the tree encoded at `i` becomes its search-tree rotation, and the invariant, the capacity and the number of values are kept. Nothing outside `i`'s subtree changes, values or sizes. On an ordered buffer the order and the set of values are kept. |
| Rotation.TreeDoubleRotatePreserves | LinklessTree.java:183-193 | A double rotation brings the promoted child's inner child to the root, and keeps the in-order sequence, the values, the size and the search-tree property. |
| Bst.RotateRightPreserves | LinklessTree.java:344-364 | A right rotation keeps the in-order sequence, the set of values, the size and the search-tree property. |
| Bst.RotateLeftPreserves | LinklessTree.java:366-386 | A left rotation keeps the in-order sequence, the set of values, the size and the search-tree property. |
| Balance.Decide | LinklessTree.java:179-194 | With `weightFactor >= 1`, `fixTree` leaves a slot alone exactly when its children's sizes are weight-balanced (both below two, or neither exceeds `weightFactor` times the other). Otherwise it promotes the strictly heavier child, with a single rotation exactly when that child's outer child is strictly heavier than its inner child, and a double rotation otherwise. |
| Balance.DecideEnables | LinklessTree.java:182-193 | Whenever the decision calls for a single or double rotation, the children those rotations promote are occupied. |
| Balance.RotateAt | LinklessTree.java:182-193 | A rotation after any needed growth rotates the encoded subtree and keeps the invariant, the size, and (when ordered) the order and values. Nothing outside the subtree changes. |
| Balance.DoubleRotate | LinklessTree.java:183-186 | The inner rotation followed by the outer one encodes at the slot the search-tree double rotation of the old subtree. It keeps the invariant, the size, the occupancy of the slot, and (when ordered) the order and values, confined to the subtree. |
| Balance.Rebalance | LinklessTree.java:178-194 | One rebalancing step at an occupied slot does what the decision says: nothing when balanced, otherwise the encoded subtree becomes its single or double rotation toward the lighter side. It keeps the invariant, the number of values, and (when ordered) the order and set of values. It touches only that slot's subtree, and the slot stays occupied. |
| Balance.FixTree | LinklessTree.java:172-201 | Rebalancing the subtree at `i` keeps the invariant, the weight factor and the number of values, and never shrinks the buffer. It leaves everything outside `i`'s subtree unchanged. On an ordered buffer it keeps the order and the set of values. When every occupied slot of the subtree above the bottom two levels is already balanced, nothing changes. When `i` is empty or its grandchildren lie past the end of the buffer (line 178), nothing changes. Otherwise the value left at `i` is the one the rebalancing step at `i` put there, because the later repairs of the children never touch `i`. |
| Balance.FixTreeKeepsOrder | LinklessTree.java:172-201 | On an ordered buffer, rebalancing leaves the in-order sequence of values unchanged. |
| Insertion.GrowUntil | LinklessTree.java:396-398 | After growth the target slot is inside the buffer and every existing slot is unchanged. For a target within twice the capacity, one doubling suffices. |
| Insertion.CountAncestors | LinklessTree.java:402-406 | The upward walk adds one to the size of exactly the slots on the path from the root to the new slot, and changes nothing else. |
| Insertion.WriteAtFind | LinklessTree.java:401-402 | Storing `v` in the empty slot where the descent for `v` stopped encodes search-tree insertion of `v`. |
| Insertion.Place | LinklessTree.java:395-406 | Placing a new value keeps the invariant, and the encoded tree becomes the ordinary search-tree insertion of the value. |
| Insertion.Insert | LinklessTree.java:395-421 | `insert` keeps the invariant and never shrinks the buffer, and a `false` answer leaves the store unchanged. On an ordered buffer the answer is `true` exactly when the value was absent, the result is ordered, its values are the old ones plus `v`, and its in-order sequence is that of the search-tree insertion. The size grows by one exactly when the answer is `true`. |
| Bst.InsertCorrect | LinklessTree.java:395-421 | Search-tree insertion keeps the order, adds exactly `v`, changes nothing when `v` is present, and otherwise grows the size by one. |
| Insertion.InsertAsWritten | LinklessTree.java:395-401 | `insert` as written, in its single growth step only: it fails exactly when `findIndex` returns an index at or beyond twice the capacity, and otherwise agrees with the corrected insertion, whose rebalancing uses the corrected rotations. |
| Insertion.InsertAsWrittenOverruns | LinklessTree.java:396-401 | In a one-slot buffer holding 5, inserting 6 as written indexes slot 2 after growing once to two slots. The corrected insertion stores 6. |
| Deletion.Lift | LinklessTree.java:438-451 | Lifting the only child's subtree into its deleted parent makes the parent encode that subtree. It keeps the invariant, changes nothing outside, and removes exactly one value. |
| Deletion.ReplaceByMax | LinklessTree.java:438-451 | Replacing an occupied slot that has a left child by its predecessor deletes the slot's value from the encoded subtree. It keeps the invariant, changes nothing outside, and removes one value. |
| Deletion.ReplaceAtFind | LinklessTree.java:434-436 | Deleting the root of the subtree where the descent for `x` stopped on `x` encodes search-tree deletion of `x` from the whole tree. |
| Deletion.Delete | LinklessTree.java:433-458 | `delete` keeps the invariant and the capacity. The encoded tree becomes the search-tree deletion of `x`, and the answer is `true` exactly when `x` was found. A `false` answer leaves the store unchanged, and the size drops by one exactly when the answer is `true`. |
| Deletion.DeleteCorrectOrdered | LinklessTree.java:433-458 | On an ordered buffer, deletion keeps the order, removes exactly `x`, and reports `true` exactly when `x` was stored. |
| Bst.DeleteCorrect | LinklessTree.java:433-458 | Search-tree deletion keeps the order, removes exactly `v`, and changes nothing when `v` is absent. |
| Deletion.PromoteAsWritten | LinklessTree.java:438-451 | The first loop of `delete` as written keeps the capacity and, when it finishes, stops at a slot inside the buffer. |
| Deletion.RecountAsWritten | LinklessTree.java:453-456 | The second loop of `delete` as written changes no value, only recorded sizes. |
| Deletion.DeleteAsWritten | LinklessTree.java:433-458 | `delete` as written keeps the capacity, and when it reports `false` the store is unchanged and the value was not in the tree. |
| Deletion.DeleteAsWrittenBreaksOrder | LinklessTree.java:438-456 | On an ordered, well-formed 16-slot buffer holding 10, 5, 15, 3, 7, deleting 10 as written leaves 7 in the left subtree of 5. The result is not ordered, and it records five values where four are stored. |
| Deletion.DeleteAsWrittenReadsPastEnd | LinklessTree.java:438-456 | In a one-slot buffer holding 5, deleting 5 as written empties the slot and then, recounting, reads slot 1 of the sizes array. The corrected deletion empties the tree. |

## Left out

- The driver classes `Main` and `App`, printing, and the diagnostic printout of `weightCheck` are not modelled. The recurrence that `weightCheck` tests appears as `Storage.SizeRecurrence`, related to the invariant by `Storage.InvIsLocal`.
- The convenience constructors (`LinklessTree()` and `LinklessTree(int)`) are `Storage.New(16, 3)` and `Storage.New(startSize, 3)`. They have no member of their own.
- Values are `int` with their natural order, rather than a generic `Comparable` with `compareTo`. Null values and comparison methods that are inconsistent or throw are not modelled.
- Java's 32-bit `int` is modelled by unbounded integers. Overflow of indices (`2 * i + 2`), of sizes, of `sizes[left] * weightFactor` and of `elems.length << 1` is not modelled.
- Exceptions are modelled only where a finding needs them. These are the out-of-bounds reads of `get`, `insert` and `delete` as written; everywhere else the corrected model never leaves the buffer.
- `getValue` and `getKey` are direct slot reads; `Storage.ElemAt` and `Storage.SizeAt` play their role, with out-of-range slots read as empty.
- The `else` branch of `insert` (lines 411-418) calls `moveDownRight`/`moveDownLeft` for a slot holding a different value. `findIndex` never returns such a slot (`Navigation.FindIndex` proves the slot is empty or holds the value), so the branch is unreachable and not modelled.
- The rotations are modelled by the corrected, whole-subtree `Rotation.Rotate` built from `Relocation.Move`. The four `move*` helpers appear only through their per-level index maps, compared as written and corrected. A complete as-written rotation over the store is not modelled.
- `moveAcross` copies without clearing its source slots, so a deeper moved-across subtree can leave stale values behind. The model's relocation empties the source, and this as-written behaviour is not stated separately.
- Storage.EnsureRoom: before each rotation it doubles the whole buffer, up to twice, until the bottom level is empty. The source instead grows inside `moveDownRight`/`moveDownLeft` (lines 235-236, 269-270). Each recursive call of those helpers doubles the buffer when the level's first child index `2i+1` is past the end. That test comes before the check of whether the level holds anything. So one move can double the buffer several times in a row (64 to 128 to 256), and it also doubles for a level that has nothing to move.
- Balance.FixTree: growth happens in `Storage.EnsureRoom` before each rotation, up to two doublings, so that the three relocated subtrees always fit. The source instead doubles once per recursive call of `moveDownRight`/`moveDownLeft` whose child index is past the end (lines 235-236, 269-270). That can be several times per move, and it includes levels with nothing to move. The buffer sizes therefore differ from the source's, and the capacity-dependent cut-off `4i+6 < capacity` can fire at different slots than in the source.
- Balance.FixTree: it requires `weightFactor >= 1`, which the source's constructor does not check. No weight-balance bound is claimed for the tree after rebalancing, because the source's single top-down pass does not guarantee one.
- Insertion.Insert: the corrected insertion grows until the new slot fits, where the source grows once.
- Deletion.Delete: the corrected deletion replaces the value by its in-order predecessor, or lifts the only child's subtree, instead of the source's child-promotion loop. It proves the search-tree deletion; it does not reproduce the source's choice of which child to promote.
- Navigation.Get: ranks from the size up to the capacity return nothing, where the source's descent can read past the sizes array for them.

## Findings

| source | as written | input that shows it | evidently intended | confidence | as-written member | corrected member |
|---|---|---|---|---|---|---|
| LinklessTree.java:243-255 | `moveDownRight` scans and moves the `2^level` slots to the left of `i`, excluding `i` | `rotateRight(0)` calls `moveDownRight(2, 0)`, which scans slot 1 and would move it to slot 4 | move the level of the right subtree ending at `i`, so slot 2 goes to slot 6 | high, not executed | Relocation.DownRightAsWrittenTopLevel | Relocation.DownRightExact |
| LinklessTree.java:218 | `moveAcross` shifts by `relLevel`, which grows by one per level | moving the subtree at 4 one position right: slot 19 goes to 22 | shift by `2^d` at depth `d`, so slot 19 goes to 23 | high, not executed | Relocation.AcrossAsWrittenExample | Relocation.AcrossExact |
| LinklessTree.java:306-311 | `moveUpRight` passes `countFromLeft` and `countFromLeft + 1` to the children, which does not track the position in a level | slot `4a+5` is moved to `2a+2` | slot `4a+5` moves to `2a+3` | high, not executed | Relocation.UpRightAsWrittenExample | Relocation.UpRightExact |
| LinklessTree.java:329-334 | `moveUpLeft` passes `countFromRight + 1` and `countFromRight` to the children, which does not track the distance from a level's edge | slot `4a+4` is moved to `2a+1` | slot `4a+4` moves to `2a` | high, not executed | Relocation.UpLeftAsWrittenExample | Relocation.UpLeftExact |
| LinklessTree.java:306-311 | `moveUpRight` recurses in preorder, writing a deeper slot before a shallower slot it overwrites has moved | moving the subtree at `a` up: slot `4a+4` is written over `2a+2` before `2a+2` moves | move level by level from the top, as the source's own comment requires | medium, not executed | Relocation.UpRightPreorderClobbers | Relocation.MoveAbs |
| LinklessTree.java:361-363 | sizes of the three rotated slots are set to one plus the children's sizes, even for an empty slot | the inner rotation of a double rotation whose promoted grandchild has no child on the outer side leaves that slot empty with recorded size 1 | record 0 for an empty slot | medium, not executed | Rotation.RecomputeAsWrittenCountsEmpty | Rotation.Rotate |
| LinklessTree.java:396-401 | `insert` grows once, but `findIndex` may return an index up to twice the capacity | a one-slot buffer holding 5; inserting 6 | grow until the returned index is inside the buffer | high, not executed | Insertion.InsertAsWrittenOverruns | Insertion.Insert |
| LinklessTree.java:438-456 | `delete` promotes the larger child's value upward, ignoring order, then recounts sizes from where the loop stopped, counting the emptied slot as one | a 16-slot buffer holding 10, 5, 15, 3, 7 (slots 0, 1, 2, 3, 4); deleting 10 | remove exactly `x` while keeping the search-tree order and the size recurrence | high, not executed | Deletion.DeleteAsWrittenBreaksOrder | Deletion.DeleteCorrectOrdered |
| LinklessTree.java:453-456 | the recount loop of `delete` reads `sizes[2i+1]` even for a slot in the last level of the buffer | a one-slot buffer holding 5; deleting 5 | treat slots past the end as empty | high, not executed | Deletion.DeleteAsWrittenReadsPastEnd | Deletion.Delete |
| LinklessTree.java:127-129 | `get` reads `sizes[2j+1]` before deciding whether slot `j` is the answer | a one-slot buffer holding 5; `get(0)` | treat sizes past the end as zero | high, not executed | Navigation.GetAsWrittenReadsPastEnd | Navigation.GetCorrect |
