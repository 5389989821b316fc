# Grid layout engine: a Dafny model

This project models the layout engine of a draggable, resizable grid
component (`src/utils/index.ts`). A layout is an array of rectangular items
placed on a grid of cells. Each item has a column `x`, a row `y`, a width
`w` and a height `h`, a `static` flag that pins it in place, and a
transient `moved` marker. The engine provides:

- the collision test and three queries built on it: the static items, all
  collisions, and the first collision;
- a stable row-major sort;
- the move resolver (`moveElement` and `moveElementAwayFromCollision`),
  which places one item and cascades displacement to the items it hits;
- the compactor (`compactItem` and `compact`), which repacks the items
  against the static ones and against each other;
- `bottom`, the height of a layout in rows.

How the model is built:

- **Identity.** An item is identified by its slot in the layout array,
  which stands in for the `===` and `indexOf` comparisons of the source.
  The temporary item that `moveElementAwayFromCollision` builds is in no
  slot; it has identity `ProbeId` (-1).
- **Views.** The sorted copy, the collision list and the obstacle list
  `compareWith` are arrays of references to the same item records. They
  are modelled as views: sequences of slots.
- **Pure parts.** `collides`, the filters and the sort are functions.
- **Imperative parts.** The index loops and `while` loops are methods over
  `array<Item>`. Each method's contract ties the new array contents to a
  specification function of the old contents. The properties are proved
  as lemmas about those functions.
- **Recursion bound.** `moveElement` and `moveElementAwayFromCollision`
  recurse into each other without a decreasing measure. The model bounds
  the depth with a `fuel` argument. The frame lemmas hold for every fuel.

Modules: `GridItems` (items, layouts, views), `Collision`, `Ordering`,
`MoveResolver`, `Geometry` (bottom), `Compactor`, `CompactionLaws`
(properties of compact) and `MoveScenarios` (two drags worked through
step by step).

Where the intended behaviour and the code differ, the model follows the
code:

- **The compaction climb.** The intended climb of vertical compaction
  moves an item up while it is *free*, so that no gap is left above it.
  The first loop of `compactItem` (line 93) moves an item up only while it
  *overlaps* an obstacle. An item that is free where it stands is therefore
  never pulled up into the gap above it. Vertical compaction thus does not
  in general remove gaps.
  An overlapping item climbs until it reaches a free row or row 0. If row 0
  is still blocked, the drop then moves it below the obstacle. See Findings.
- **The swap drag.** Moving `A(0,0,1,1)`, which sits directly above
  `B(0,1,1,1)`, down to row 1 leaves B at row 0; one might expect B to be pushed down to row 2. The
  optimistic slot above A is free, so B takes it.
- **The static-obstacle drag.** Moving `M(2,0,2,2)` onto the static
  `S(0,0,2,2)` leaves M at row 1, still overlapping S. M is first nudged
  one row down. In the nested call, the quarter-height tolerance skips S.
  Only `compact` removes such overlaps.
- **Recursion depth.** The `moved` guard does not make each item move at
  most once per call: a moving item pushed off a static item is moved
  again, and the guard does not apply to it.

## Model

| member | source | states |
|---|---|---|
| GridItems.ReverseReverses | src/utils/index.ts:64 | Reversing the sorted copy twice gives it back, and the reversed copy holds the same entries, each as often as before. |
| Collision.Collides | src/utils/index.ts:3-10 | An item never collides with itself, whatever its coordinates. |
| Collision.CollidesSymmetric | src/utils/index.ts:3-10 | Collision is symmetric. |
| Collision.CollidesIffSharedCell | src/utils/index.ts:5-9 | For items of positive size, two distinct items collide exactly when some grid cell lies in both half-open rectangles. |
| Collision.CollidesSameRects | src/utils/index.ts:5-9 | Collision depends only on the two rectangles and identities, not on `static` or `moved`. |
| Collision.Statics | src/utils/index.ts:12-14 | getStatics returns a view of the layout no longer than it. |
| Collision.StaticsSelects | src/utils/index.ts:12-14 | getStatics keeps exactly the static items: every entry is static, every static slot is listed, and entries are in strictly increasing slot order (each once). |
| Collision.AllCollisions | src/utils/index.ts:16-18 | getAllCollisions returns the view entries that collide with item `k` and no others, never `k` itself. |
| Collision.AllCollisionsKeepsOrder | src/utils/index.ts:16-18 | Any order the view's entries follow, the returned collisions follow too. |
| Collision.FirstCollision | src/utils/index.ts:20-24 | A found position lies in the view, and its entry collides with the probe. |
| Collision.FirstCollisionIsFirst | src/utils/index.ts:20-24 | None exactly when no entry collides; otherwise no earlier entry collides. |
| Collision.FirstCollider | src/utils/index.ts:20-24 | The returned item is a slot of the layout that collides with the probe; None exactly when the scan finds nothing. |
| Collision.FirstCollisionSameRects | src/utils/index.ts:20-24 | Supporting lemma, not tied to source behaviour: The scan's result depends only on the rectangles of the entries other than the probe. |
| Collision.GetFirstCollision | src/utils/index.ts:20-24 | The index loop returns the first colliding entry of the view, or None. |
| Ordering.RowColBeforeTransitive | src/utils/index.ts:27-33 | The comparator, with ties broken by array order (the stable sort), is transitive. |
| Ordering.RowColBeforeTotal | src/utils/index.ts:27-33 | That order is total on distinct slots. |
| Ordering.Insert | src/utils/index.ts:27 | One insertion step adds one entry and keeps the view valid. |
| Ordering.InsertPermutes | src/utils/index.ts:27 | An insertion adds exactly the inserted slot to the multiset of entries. |
| Ordering.InsertSorted | src/utils/index.ts:27-33 | Inserting a slot later than every entry into a sorted view keeps it sorted. |
| Ordering.PrependSorted | src/utils/index.ts:27-33 | Putting an entry that is before the first entry in front of a sorted view keeps it sorted. |
| Ordering.SortPrefix | src/utils/index.ts:27 | The sorted view of the first `n` slots has `n` entries. |
| Ordering.SlotsBounded | src/utils/index.ts:27 | Supporting lemma, not tied to source behaviour: A permutation of slots `0..n-1` holds no slot outside that range. |
| Ordering.SlotsListed | src/utils/index.ts:27 | Supporting lemma, not tied to source behaviour: A permutation of slots `0..n-1` lists each of them. |
| Ordering.SortPrefixPermutes | src/utils/index.ts:27 | The sorted view of the first `n` slots is a permutation of them. |
| Ordering.SortPrefixSorted | src/utils/index.ts:27-33 | The sorted view of the first `n` slots is ordered by the comparator, with ties in array order. |
| Ordering.Compare | src/utils/index.ts:27-33 | Definition; no contract. The comparator of the sort: 0 for equal coordinates, 1 when `a` is on a later row or on the same row further right, -1 otherwise. |
| Ordering.CompareMeaning | src/utils/index.ts:27-33 | The comparator is antisymmetric, is 0 exactly for equal coordinates, and is negative exactly when `a` is on an earlier row or on the same row further left. |
| Ordering.SortByRowCol | src/utils/index.ts:26-34 | The sorted copy has one entry per item, each a slot of the layout. The layout itself is a value and is not changed. |
| Ordering.SortByRowColSortedPermutation | src/utils/index.ts:26-34 | The sorted copy is a permutation of the slots, lists every slot, and is ordered by `(y, x)` with ties in array order. |
| Ordering.SortByRowColAgreesWithCompare | src/utils/index.ts:27-33 | Supporting lemma, not tied to source behaviour: No slot appears twice. Every earlier entry compares at most equal to every later one. Entries that compare equal keep array order. |
| MoveResolver.MovingUp | src/utils/index.ts:57 | Moving up implies a smaller row. A target of row 0 never counts as moving up. Any other smaller target row does. |
| MoveResolver.VisitOrder | src/utils/index.ts:63-64 | The visiting order (the sorted copy, reversed when moving up) is a view with one entry per item. |
| MoveResolver.VisitOrderListsEverySlot | src/utils/index.ts:63-64 | Reversed or not, the visiting order lists every slot. |
| MoveResolver.TargetCollisions | src/utils/index.ts:59-65 | The collision list, computed once the moving item stands at its target, is a view of the layout. |
| MoveResolver.TargetCollisionsIffBlocked | src/utils/index.ts:59-65 | The list is non-empty exactly when some item collides with the moving item at its target. |
| MoveResolver.Move | src/utils/index.ts:53-89 | The result has one item per slot, and moving a static item changes nothing. |
| MoveResolver.Resolve | src/utils/index.ts:73-87 | The loop over the stale collision list keeps one item per slot. That it only displaces items is ResolveDisplaces. |
| MoveResolver.ResolveStep | src/utils/index.ts:73-87 | Supporting lemma, not tied to source behaviour: One visit followed by the rest of the loop is the loop from that entry: the loop invariant of moveElement. |
| MoveResolver.Visit | src/utils/index.ts:74-86 | One turn of the loop keeps one item per slot. That it only displaces items is VisitDisplaces. |
| MoveResolver.Placed | src/utils/index.ts:59-61 | The layout after one item is placed has the same length as before. Otherwise a definition: the item gets the new column if one is given, the new row, and `moved` set. |
| MoveResolver.OptimisticSlotFree | src/utils/index.ts:46 | Definition; no contract. The first-collision scan over the whole layout finds nothing for the temporary item. |
| MoveResolver.OptimisticSlotFreeIff | src/utils/index.ts:46 | The optimistic slot is free exactly when no item of the layout, the mover included, collides with the temporary item. |
| MoveResolver.OptimisticProbe | src/utils/index.ts:38-45 | The temporary item's row is clamped at 0. |
| MoveResolver.AwayTarget | src/utils/index.ts:37-50 | The row the displaced item is sent to is not negative when its row was not. |
| MoveResolver.MoveAway | src/utils/index.ts:36-51 | moveElementAwayFromCollision keeps one item per slot. That it only displaces items is AwayDisplaces. |
| MoveResolver.MoveDisplaces | src/utils/index.ts:53-89 | A recursive move (no new column, no rollback) is a displacement: no `x`, `w`, `h` or static item changes, `moved` is never cleared, every changed item is marked `moved`, and no row turns negative. |
| MoveResolver.ResolveDisplaces | src/utils/index.ts:73-87 | The collision loop is a displacement. |
| MoveResolver.VisitDisplaces | src/utils/index.ts:76-86 | Each turn of the loop (skip, or push away) is a displacement. |
| MoveResolver.AwayDisplaces | src/utils/index.ts:36-51 | moveElementAwayFromCollision is a displacement. |
| MoveResolver.MoveFrame | src/utils/index.ts:53-89 | A static item stays put. A rolled-back move only clears the mover's `moved`. Any other move places the mover at its target with `moved` set, then only displaces. So no `w`/`h` or static item changes, and only the top-level item's `x` changes. |
| MoveResolver.PreventCollisionRollsBack | src/utils/index.ts:67-71 | With preventCollision and a blocked target, the mover returns to `(oldX, oldY)` with `moved` false, and nothing else changes. |
| MoveResolver.PreventCollisionFreeTarget | src/utils/index.ts:59-73 | With preventCollision and a free target, only the moving item changes: it takes the target and is marked `moved`. |
| MoveResolver.MoveElementAwayFromCollision | src/utils/index.ts:36-51 | The method returns the array it was given, and the array then holds MoveAway of its old contents. |
| MoveResolver.MoveElement | src/utils/index.ts:53-89 | The method returns the array it was given, and the array then holds Move of its old contents. |
| MoveResolver.ResolveCollisions | src/utils/index.ts:73-87 | The loop of moveElement leaves the array holding Resolve of its contents before the loop. |
| MoveResolver.VisitCollision | src/utils/index.ts:74-86 | One turn of the loop leaves the array holding Visit of its old contents. |
| Geometry.MaxBottom | src/utils/index.ts:149-157 | bottom is at least 0 and at least every item's `y + h`. It is 0 or equal to some item's `y + h`, so an empty layout gives 0. |
| Geometry.Bottom | src/utils/index.ts:149-157 | The loop with a running maximum returns MaxBottom. |
| Compactor.Blocked | src/utils/index.ts:93-98 | Definition; no contract. The first-collision scan over the obstacles finds something for the item placed at row `y`. |
| Compactor.BlockedIff | src/utils/index.ts:93-98 | Row `y` is blocked exactly when some obstacle collides with the item placed at that row. |
| Compactor.CompactedY | src/utils/index.ts:91-101 | Definition; no contract. The final row of the item: the climb when compacting vertically, then the drop, from the item's current row. |
| Compactor.ViewBottom | src/utils/index.ts:98-100 | No obstacle reaches below this row, which is at least 0: the measure that bounds the drop loop. |
| Compactor.Climb | src/utils/index.ts:92-95 | The first loop, as written, never moves the item down, and does not take a row at or above 0 below 0. |
| Compactor.ClimbStops | src/utils/index.ts:93-95 | The loop passes only through blocked rows, and stops at row 0 or at a free row. |
| Compactor.Drop | src/utils/index.ts:97-100 | The second loop terminates, and never moves the item up. |
| Compactor.DropFree | src/utils/index.ts:98-100 | The second loop ends at a row where the item meets no obstacle. |
| Compactor.CompactedYFree | src/utils/index.ts:91-101 | An item that meets no obstacle where it is stays there. |
| Compactor.ClimbCorrected | src/utils/index.ts:93 | The intended climb never moves the item down, and stays at or above row 0. |
| Compactor.ClimbCorrectedStops | src/utils/index.ts:93 | The intended climb passes only through free rows, and stops at row 0 or at the first blocked row. |
| Compactor.DropRests | src/utils/index.ts:98-100 | A drop that starts at a blocked row ends right below an obstacle: one row higher the item collides again. |
| Compactor.CompactedYCorrectedRests | src/utils/index.ts:91-101 | With the intended climb, the item ends at a free row that is row 0 or lies right below an obstacle: no gap above it. |
| Compactor.CompactItem | src/utils/index.ts:91-102 | compactItem changes only the item's row, to CompactedY, and returns the stored item. |
| Compactor.PlaceStep | src/utils/index.ts:110-116 | One iteration of compact's loop keeps one item per slot. Its frame and separation properties are CompactionLaws.PlaceKeepsSeparated and CompactionLaws.CompactFromFrame. |
| Compactor.PlaceObstacles | src/utils/index.ts:111-113 | The obstacle list after an iteration is still a view of the layout. |
| Compactor.CompactFrom | src/utils/index.ts:109-117 | compact's loop keeps one item per slot. What else it keeps is stated by the CompactionLaws lemmas. |
| Compactor.Compacted | src/utils/index.ts:104-119 | compact keeps one item per slot. Its frame, its removal of overlaps and its idempotence are the CompactionLaws lemmas. |
| Compactor.SortByRowColDistinct | src/utils/index.ts:106 | The sorted copy lists no slot twice, so each item is visited once. |
| Compactor.CopiedAtEverySlot | src/utils/index.ts:115 | Writing every item visited in sorted order to its own slot fills every slot. |
| Compactor.PlaceItem | src/utils/index.ts:110-116 | The loop body compacts and clears `moved` as PlaceStep says, grows compareWith as PlaceObstacles says, and stores the item at its own slot of the new array. |
| Compactor.Compact | src/utils/index.ts:104-119 | The layout then holds Compacted of its old contents, and the fresh array returned holds each item at the slot it has in the layout. |
| CompactionLaws.CompactFromFrame | src/utils/index.ts:109-117 | The loop keeps every frame property, and clears `moved` on every item it visits. |
| CompactionLaws.CompactedFrame | src/utils/index.ts:104-119 | compact keeps `x`, `w`, `h` and `static`, and the row of every static item. It keeps `y >= 0`. Without vertical compaction no row decreases. Afterwards `moved` is false everywhere. |
| CompactionLaws.ApartIgnoresMoved | src/utils/index.ts:116 | Clearing `moved` does not change which items overlap. |
| CompactionLaws.SeparatedStep | src/utils/index.ts:112-113 | An item placed where it meets no obstacle can join the obstacles without creating an overlap among them. |
| CompactionLaws.PlaceKeepsSeparated | src/utils/index.ts:110-116 | Each iteration keeps the obstacles exactly the statics plus the visited items, and keeps them free of overlaps. |
| CompactionLaws.CompactFromSeparates | src/utils/index.ts:109-117 | After the loop, no two visited items overlap unless both are static. |
| CompactionLaws.CompactedNoLiveCollisions | src/utils/index.ts:104-119 | After compact, no non-static item collides with any other item, static or not. |
| CompactionLaws.ClearMovedKeepsApart | src/utils/index.ts:116 | Supporting lemma, not tied to source behaviour: Clearing every `moved` marker is idempotent, and it keeps a layout free of overlaps. |
| CompactionLaws.PlaceFree | src/utils/index.ts:91-101 | On a layout without overlaps, an iteration only clears `moved`: neither loop of compactItem moves the item. |
| CompactionLaws.ClearOneKeepsApart | src/utils/index.ts:116 | Clearing one `moved` marker keeps a layout free of overlaps. |
| CompactionLaws.CompactFromFixpoint | src/utils/index.ts:109-117 | On a layout without overlaps, the loop only clears `moved`. |
| CompactionLaws.CompactedFixpoint | src/utils/index.ts:104-119 | Compacting a layout without overlaps changes no coordinate, only `moved`. |
| CompactionLaws.CompactedIdempotent | src/utils/index.ts:104-119 | A second compact, with either setting, changes nothing. |
| CompactionLaws.ClimbLeavesGap | src/utils/index.ts:93-95 | A lone item at row 3 stays at row 3 under vertical compaction as written. The intended climb takes it to row 0. |
| MoveScenarios.SortTwo | src/utils/index.ts:26-34 | The sorted copy of a two-item layout. |
| MoveScenarios.CollisionsOfTwo | src/utils/index.ts:16-18 | The collisions among a two-entry view. |
| MoveScenarios.CollisionsSnoc | src/utils/index.ts:16-18 | One more entry at the end of a view adds at most that entry to the collisions. |
| MoveScenarios.DragDownCollides | src/utils/index.ts:59-65 | Swap drag: with A moved to row 1, B is its only collision. |
| MoveScenarios.DragDownAwayTarget | src/utils/index.ts:37-47 | Swap drag: B's optimistic slot is row 0, and it is free. |
| MoveScenarios.DragDownLowerSettles | src/utils/index.ts:53-89 | Swap drag: B moved to row 0 meets nothing. |
| MoveScenarios.DragDownResolves | src/utils/index.ts:53-87 | Swap drag: the move places A and visits B. |
| MoveScenarios.DragDownPushesLower | src/utils/index.ts:76-86 | Swap drag: B is neither moved nor entered from below, so it is pushed away. |
| MoveScenarios.DragDownSwaps | src/utils/index.ts:53-89 | Swap drag: A ends at row 1 and B at row 0, both marked `moved`. |
| MoveScenarios.OntoStaticCollides | src/utils/index.ts:59-65 | Static drag: with M moved to (0, 0), S is its only collision. |
| MoveScenarios.OntoStaticAwayTarget | src/utils/index.ts:37-50 | Static drag: the optimistic slot above S is taken by S, so M is sent to row 1. |
| MoveScenarios.OntoStaticPushedCollides | src/utils/index.ts:59-65 | Static drag: at row 1, M still collides with S. |
| MoveScenarios.OntoStaticSkips | src/utils/index.ts:80 | Static drag: M has entered S by more than a quarter of S's height, so S is skipped. |
| MoveScenarios.OntoStaticResolves | src/utils/index.ts:53-87 | Static drag: the move places M and visits S. |
| MoveScenarios.OntoStaticPushesMover | src/utils/index.ts:82-83 | Static drag: S is static, so M itself is pushed away. |
| MoveScenarios.OntoStaticSettles | src/utils/index.ts:53-89 | Static drag: the nested move of M to row 1 ends there. |
| MoveScenarios.OntoStaticVisit | src/utils/index.ts:76-86 | Static drag: the visit of S ends with M at row 1. |
| MoveScenarios.OntoStaticEnds | src/utils/index.ts:53-89 | Static drag: the whole drag ends with S unchanged and M at (0, 1), marked `moved`. |
| MoveScenarios.DragOntoStaticStaysOverlapping | src/utils/index.ts:53-89 | Static drag: the drag leaves M overlapping S, so moveElement does not guarantee a collision-free layout. |

## Left out

- `setTransform` and `setTopLeft` build CSS strings and style objects for the view layer. They contain no layout logic.
- `src/utils/draggableUtils.ts`, `src/utils/event.ts` and `src/components/index.ts` are not part of this model. They hold DOM reads, floating-point pointer arithmetic, an event emitter and component registration.
- MoveResolver.Move: the recursion between moveElement and moveElementAwayFromCollision is bounded by `fuel`. A displacement asked for with no fuel left is not carried out. The model does not prove that the source's recursion terminates, and results are stated for every fuel.
- Aliasing: one item object held in two slots, and the duplicate-object case of `layout.indexOf` at line 115, are not modelled. Slots are distinct items.
- The string id `i` of an item, and of the temporary item (`'-1'`), is not modelled. Identity is the slot, or `ProbeId` for the temporary item.
- Items are assumed to have boolean `static` and `moved` fields. A `moved` field that is missing (falsy in the source) is modelled as `false`.
- Item coordinates and sizes are JavaScript numbers (doubles, exact only up to 2^53). They are modelled as mathematical integers, with no rounding and no bound.
- A `y` argument of moveElement that is not a number (the `typeof` test at line 60) is not modelled: `y` is always an integer.
- The tolerance test at line 80 divides by 4 in floating point. It is modelled exactly on integers as `4 * (movingItem.y - collision.y) > collision.h`.
- moveElement's loop and its loop body are the helper methods `ResolveCollisions` and `VisitCollision`, and compact's loop body is `PlaceItem`. The source writes them inline.
- Compactor.CompactItem: the two loops work on a local copy of the item, which is stored back into the layout at the end. In the source the loops update the shared record directly. No scan can tell the two apart, because every collision scan skips the item itself by identity.
- Compactor.Compact: the source stores the item in the new array and then clears `moved` on the shared record. Here the new array receives the item after `moved` is cleared, which gives the same contents as shared records do.
- Ordering.SortByRowCol: `Array.prototype.sort` is modelled as a stable insertion sort. The contract (the permutation, the order and the ties kept in array order) is what a stable sort promises, not the engine's particular algorithm.

## Findings

| source | as written | input that shows it | evidently intended | confidence | as-written member | corrected member |
|---|---|---|---|---|---|---|
| src/utils/index.ts:93 | The vertical-compaction loop decrements `y` only while the item overlaps an obstacle, so an item that is free where it stands is never pulled up into the gap above it. | A lone item `(0, 3, 1, 1)` with vertical compaction stays at row 3. | Decrement `y` while the item is *free*, then drop it below whatever it hits. The item then ends at row 0 or directly under an obstacle. | not executed | CompactionLaws.ClimbLeavesGap | Compactor.CompactedYCorrectedRests |

The next-to-last column models the loop as written (`Compactor.Climb`,
used by `compactItem` and `compact` throughout). The last column holds the
corrected climb (`Compactor.ClimbCorrected`) and its no-gap property. All
the other compaction laws hold for the code as written.
