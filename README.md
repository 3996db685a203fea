# BinPacker2D in Dafny

This project models the packing engine of BinPacker2D and proves properties of
the model. BinPacker2D places rectangular elements on one rectangular table.
The table has margins, and a uniform spacing separates neighbouring elements.
The engine packs in shelves, called rows.

- A row is seeded with the next element, upright or rotated, at the lowest free
  point of the table. Its height is that element's height.
- The row is then filled left to right. The space left above each element becomes
  a split, to be filled after the main row has run out of room.
- When an element fits both ways and is not a square, the row is cloned, and the
  clone takes the element rotated. The engine therefore explores every choice of
  rotation.
- Every completed row extends the outcome it grew from, called a variant group,
  into a new outcome. The next pass seeds a row above it.
- An outcome is finished when no element is left, or when the next element does
  not fit the table left above its rows.
- The engine returns the flattened rows of the finished outcome that packs the
  most elements.

## Structure

- `positions.dfy` (`Positions`): rectangles, containment and disjointness.
- `elements.dfy` (`Elements`): the element record, placed and rotated copies, and the fitting test.
- `rows.dfy` (`Rows`): the state of a row (`RowState`) and the one-step function `StepOf`.
  - `Expand` is the whole recursive insertion, defined from `StepOf`.
  - `class RowVariant` keeps the source's fields. Its methods are proved against these functions.
- `row_properties.dfy` (`RowProperties`): facts about `Expand`.
  - A row packs a prefix of its list.
  - Under non-negative spacing and dimensions, its placements stay inside the row's band and do not overlap.
  - The clones it spawns are bounded by 2^(elements left).
- `preprocess.dfy` (`Preprocess`): turning elements upright, the stable sort by width, numbering, and the margin-adjusted table.
- `groups.dfy` (`Groups`): variant groups and their packed count.
- `children.dfy` (`Children`): seeding orientations, the table above a row, and the removal of a row's elements.
  - It also builds the child group made from each completed row.
- `selection.dfy` (`Selection`): the selection of the best finished group, and flattening it.
- `outcomes.dfy` (`Outcomes`): the invariants of the worklist of groups, and the measure that makes the outer loop terminate.
- `search.dfy` (`Search`): the search on values.
  - `NextOf` is one later pass on the worklist.
  - `FinishedGroups` is the passes run until the worklist is empty.
- `packer.dfy` (`Packer`): `PackElements` and its passes, written as methods with loops. They are proved to compute `FirstGroups`, `NextOf` and `FinishedGroups`.
- `wrappers.dfy` (`Wrappers`): `Option` and `Result`.

Rows are objects in the source: `InsertNextElement` changes a row in place and
adds clones to shared lists. `RowVariant` is therefore a class. Its recursive
`InsertNextElement` keeps the source's recursion. The part before the recursive
call is `InsertionStep`, which is proved against `StepOf`. Groups are never
changed after a row is put in them, except for the table adjustment at
Packer.cs:204-205, which the model writes as a new value. A group therefore
holds the `RowState` of each completed row.

Where the source's comments and its code disagree, the model follows the code:

- The comments at Packer.cs:27 and 327 say that ties are broken by the lower used
  height. The code does not always do this.
  When a strictly better count is found, the remembered area is not updated
  (Packer.cs:322-326). `Selection.SelectionKeepsStaleArea` exhibits three
  outcomes where the second is selected although the third ties it on count
  and uses less height. `Selection.SelectedTieBreak` states the rule as the
  code applies it.
- The comments at Packer.cs:11 and 55 say that elements of the same size are
  placed next to each other. The sort, however, is by width alone (Packer.cs:78). Elements of identical size are
  therefore not always adjacent: a taller element of the same width can sit
  between them. `Preprocess.SameSizeNotAdjacent` exhibits this. What does hold
  is that the sort is stable for every width (`Preprocess.SortStable`).
- Insertion into splits is recursive in the code, and the model keeps that
  recursion.

## Model

| member | source | states |
|---|---|---|
| Elements.PlacedCopy | BinPacker2D/RowElement.cs:51-60 | the copy sits at the given coordinates and agrees with the original in every other field |
| Elements.GetRotatedCopy | BinPacker2D/RowElement.cs:85-99 | the copy swaps width and height and flips the rotation flag; every other field is kept |
| Elements.CheckFitting | BinPacker2D/RowElement.cs:69-84 | fits-vertical holds exactly when the element, placed at the space's origin, lies inside the space; fits-horizontal is the same for the rotated copy; fits-both holds exactly when both do |
| Elements.RotateTwice | BinPacker2D/RowElement.cs:85-99 | rotating twice gives back the original element |
| Elements.RotatedFitting | BinPacker2D/RowElement.cs:69-99 | the rotated copy fits vertically exactly when the original fits horizontally, and the other way round; fitting both ways is unchanged |
| Elements.IsSquare | BinPacker2D/RowElement.cs:26 | an element is square exactly when its two sides are equal; `Elements.SquareFitting` states what that means for fitting |
| Elements.SquareFitting | BinPacker2D/RowElement.cs:26 | a square fits vertically exactly when it fits horizontally |
| Rows.SmallestDimension | BinPacker2D/RowVariant.cs:69-71 | the result is one of the element's two sides and is no larger than either |
| Rows.FindBySortIndex | BinPacker2D/RowVariant.cs:123 | a found element carries the requested sort index |
| Rows.FindBySortIndexFirst | BinPacker2D/RowVariant.cs:123 | nothing is found exactly when no element carries the key; otherwise the first element that carries it is found |
| Rows.FindInNumbered | BinPacker2D/RowVariant.cs:118-124 | on a list numbered from an offset, the lookup at k gives the element at position k minus the offset, or nothing outside the range |
| Rows.InsertedShrinks | BinPacker2D/RowVariant.cs:85-90 | inserting the next element lowers the number of elements still to pack |
| Rows.StepOf | BinPacker2D/RowVariant.cs:132-192 | each recursive call lowers the measure (elements left, then splits left, then not advancing before advancing), so the recursion terminates |
| Rows.Clones | BinPacker2D/RowVariant.cs:164-172 | a call spawns at most one clone |
| Rows.NewRow | BinPacker2D/RowVariant.cs:63-79 | the row seeded on a space: its height is the first element's in the chosen orientation, and that element sits at the space's origin; `RowProperties.NewRowGeometry` and `Outcomes.SeedRowIn` state what it keeps |
| Rows.Inserted | BinPacker2D/RowVariant.cs:85-90 | `Insert`: a placed copy is appended and the space recomputed; `Rows.InsertedShrinks`, `RowProperties.InsertedPrefix` and `RowProperties.InsertedGeometry` state its effect |
| Rows.WithNewSpace | BinPacker2D/RowVariant.cs:96-112 | `GetNewSpace`: the space moves right of the element, with a split kept above it when the gap is tall enough; `RowProperties.NewSpaceShapes` states that the pieces lie in the old space without overlap |
| Rows.Popped | BinPacker2D/RowVariant.cs:148-152 | the last split becomes the space; `RowProperties.PoppedGeometry` states that this keeps the row's geometry |
| Rows.NextElement | BinPacker2D/RowVariant.cs:118-124 | the element whose sort index follows the last packed one; `Rows.FindInNumbered` and `RowProperties.NextOfPrefix` say which element that is |
| Rows.RowVariant.GetNextElement | BinPacker2D/RowVariant.cs:118-124 | the row object's next element is `NextElement` of its state |
| Rows.Expand | BinPacker2D/RowVariant.cs:132-193 | the whole recursive insertion: the final row and the clones spawned, in order; `RowProperties.ExpandPrefix`, `RowProperties.ExpandGeometry` and `RowProperties.ExpandPotential` state its properties, and `Rows.RowVariant.InsertNextElement` is proved to compute it |
| Rows.RowVariant.constructor | BinPacker2D/RowVariant.cs:63-79 | the new row is the state seeded with the list's first element, upright or rotated, at the space's origin |
| Rows.RowVariant.Clone | BinPacker2D/RowVariant.cs:45-54 | the clone has the copied row's state with the element inserted rotated |
| Rows.RowVariant.Insert | BinPacker2D/RowVariant.cs:85-90 | the row's new state is the old state with the element placed at the free space and the space recomputed |
| Rows.RowVariant.GetNewSpace | BinPacker2D/RowVariant.cs:96-112 | the new state has the free space right of the element, and has a split above it when the gap can hold the smallest dimension |
| Rows.RowVariant.InsertionStep | BinPacker2D/RowVariant.cs:134-186 | one call up to its recursive call: it stops or continues as `StepOf` says, leaves the row unchanged when stopping, and returns fresh clones whose states are the step's clone |
| Rows.RowVariant.InsertNextElement | BinPacker2D/RowVariant.cs:132-193 | the row ends in the final state of `Expand`; the row joins the finished list; the queue keeps its old entries, followed by fresh, distinct clones whose states are, in order, the spawned states of `Expand` |
| Rows.RowVariant.InsertElement | BinPacker2D/RowVariant.cs:200-205 | the queue loses its head and gains fresh, distinct clones holding the spawned states, which are not in either list; the row ends in the final state and is finished |
| RowProperties.NextOfPrefix | BinPacker2D/RowVariant.cs:118-124 | for a row that packed a prefix of its numbered list, the next element is the list's element right after that prefix, or nothing when the list is used up |
| RowProperties.InsertedPrefix | BinPacker2D/RowVariant.cs:85-90 | inserting a placed copy of the next element keeps the packed elements a prefix of the list and extends the row |
| RowProperties.StepPrefix | BinPacker2D/RowVariant.cs:132-192 | one step keeps the prefix property and extends the row, and so does each clone |
| RowProperties.ExpandPrefix | BinPacker2D/RowVariant.cs:132-193 | the final row and every spawned clone pack a prefix of the list and extend the starting row |
| RowProperties.PoppedGeometry | BinPacker2D/RowVariant.cs:148-152 | taking the last split as the space keeps the row's geometry: placements and splits lie in the band and do not overlap |
| RowProperties.NewSpaceShapes | BinPacker2D/RowVariant.cs:96-112 | the split above a placed element and the space right of it lie inside the old space, and these and the element are pairwise disjoint |
| RowProperties.InsertedGeometry | BinPacker2D/RowVariant.cs:85-112 | inserting an element that fits the space keeps the row's placements and splits inside the band and pairwise disjoint |
| RowProperties.StepGeometry | BinPacker2D/RowVariant.cs:132-192 | one step keeps the row geometry, for the row and for its clone |
| RowProperties.ExpandGeometry | BinPacker2D/RowVariant.cs:132-193 | the final row and every spawned clone keep their placements inside the band without overlap |
| RowProperties.NewRowGeometry | BinPacker2D/RowVariant.cs:63-79 | a row seeded with an element no wider than the table has its placement and splits inside the band of the element's height, without overlap |
| RowProperties.StepRem | BinPacker2D/RowVariant.cs:132-192 | a step never raises the number of elements still to pack, and a clone has fewer left than the row it came from |
| RowProperties.ExpandPotential | BinPacker2D/RowVariant.cs:132-193 | the clones spawned while filling a row with n elements left are bounded: 1 plus their potential is at most 2^n |
| Preprocess.Normalised | BinPacker2D/Packer.cs:67-74 | an element wider than tall is turned upright and flagged rotated; `Preprocess.NormalisedUpright`, `Preprocess.NormalisedIdempotent` and `Preprocess.NormalisedForgetsOrientation` state its properties |
| Preprocess.SortByWidthDescending | BinPacker2D/Packer.cs:78 | the sort keeps the number of elements; `Preprocess.SortSortedPermutation` and `Preprocess.SortStable` state that it is a stable, descending permutation |
| Preprocess.Renumbered | BinPacker2D/Packer.cs:85-89 | renumbering keeps the number of elements; `Preprocess.RenumberedNumbered` and `Preprocess.RenumberedSuffix` state what it changes |
| Preprocess.NormalisedUpright | BinPacker2D/Packer.cs:67-74 | a normalised element is at least as tall as it is wide; it changes exactly when it was wider than tall, and is then the rotated copy flagged rotated; index, sort index and position are kept |
| Preprocess.NormalisedIdempotent | BinPacker2D/Packer.cs:67-74 | normalising twice is normalising once |
| Preprocess.NormalisedForgetsOrientation | BinPacker2D/Packer.cs:67-74 | an element and its rotated copy normalise to the same dimensions |
| Preprocess.NormaliseAll | BinPacker2D/Packer.cs:67-74 | every element of the list is normalised, in place and in order |
| Preprocess.NormaliseElements | BinPacker2D/Packer.cs:67-74 | the loop's result is every element normalised, and every one is upright |
| Preprocess.InsertByWidthSorted | BinPacker2D/Packer.cs:78 | inserting into a list sorted widest first keeps it sorted and adds exactly the element |
| Preprocess.InsertByWidthStable | BinPacker2D/Packer.cs:78 | the elements of each width keep their order, with the inserted one in front |
| Preprocess.SortSortedPermutation | BinPacker2D/Packer.cs:78 | the sort gives the widths in descending order and is a permutation of its input |
| Preprocess.SortStable | BinPacker2D/Packer.cs:78 | for every width the sorted list keeps the input's order among elements of that width |
| Preprocess.SameSizeNotAdjacent | BinPacker2D/Packer.cs:78 | two elements of the same size, parted by a taller element of the same width, stay parted after the sort |
| Preprocess.RenumberedNumbered | BinPacker2D/Packer.cs:85-89 | renumbering gives each element its position as sort index and changes nothing else; it is idempotent, and it leaves a list unchanged exactly when the list is already numbered |
| Preprocess.RenumberedSuffix | BinPacker2D/Packer.cs:278-282 | renumbering a suffix of a renumbered list is renumbering that suffix of the original |
| Preprocess.NumberElements | BinPacker2D/Packer.cs:85-89 | the loop gives the list numbered from 0 in order |
| Preprocess.AdjustedTable | BinPacker2D/Packer.cs:115-135 | the table starts at the left and bottom margins and ends at the right and top margins |
| Preprocess.Prepared | BinPacker2D/Packer.cs:66-89 | preparation keeps the number of elements |
| Groups.UsedArea | BinPacker2D/VariantGroup.cs:42-45 | the top of the last row's first element; `Outcomes.UsedAreaTop` relates it to the table the rows leave |
| Groups.GetNextElement | BinPacker2D/VariantGroup.cs:76 | the group's next element is the last row's; `Outcomes.GroupNext` says which element that is |
| Groups.PackedCountIsFlattenLength | BinPacker2D/VariantGroup.cs:14-25 | the packed count is the length of the rows' concatenated placements |
| Groups.PackedElementsCount | BinPacker2D/VariantGroup.cs:14-25 | the loop's count is the number of placements over all rows |
| Groups.Seeded | BinPacker2D/VariantGroup.cs:53-58 | the new group's placements are exactly the row's |
| Groups.Extended | BinPacker2D/VariantGroup.cs:65-70 | the copy keeps the old rows as a prefix, adds the row, and its placements and count grow by the row's |
| Children.SeedOrientations | BinPacker2D/Packer.cs:157-185 | the orientations a pass seeds rows in; `Children.SeedOrientationsFit` relates them to the fitting test |
| Children.Seeds | BinPacker2D/Packer.cs:157-184 | one seeded row per orientation, in order; `Outcomes.SeedRowIn` and `Outcomes.SeedsPotential` state their properties |
| Children.RemoveFirstByIndex | BinPacker2D/Packer.cs:274-275 | drops the first element carrying the index; `Children.RemoveFirstByIndexSpec` states its effect |
| Children.Child | BinPacker2D/Packer.cs:268-302 | the child group of one completed row; `Children.ChildShape`, `Outcomes.FirstChildInv` and `Outcomes.LaterChildInv` state its properties |
| Children.ChildGroups | BinPacker2D/Packer.cs:266-303 | one child per completed row, in order; `Outcomes.FirstPassChildren` and `Outcomes.LaterPassChildren` state that each keeps the invariant |
| Children.SeedOrientationsFit | BinPacker2D/Packer.cs:157-185 | every seeded orientation fits the table; there is none exactly when the element fits neither way; two exactly when it fits both ways and is not a square; the upright one is present exactly when it fits upright |
| Children.AdjustedForNextRow | BinPacker2D/Packer.cs:204-205 | the table above a row keeps its left edge, width and top, and starts one row height plus the spacing higher |
| Children.FindIndex | BinPacker2D/Packer.cs:274 | -1 exactly when no element carries the index; otherwise the first position that carries it |
| Children.RemoveFirstByIndexSpec | BinPacker2D/Packer.cs:274-275 | removal leaves the list unchanged when no element carries the index, and otherwise takes out exactly one element carrying it |
| Children.RemovedPackedPrefix | BinPacker2D/Packer.cs:272-276 | removing a row's placements, which match the front of the list by index, leaves exactly the rest of the list, even with repeated indices |
| Children.RemovePackedElements | BinPacker2D/Packer.cs:272-276 | the nested loops compute the removal of every placement's index from the list |
| Children.ChildShape | BinPacker2D/Packer.cs:268-302 | the child's list is the rest of the parent's list, numbered from 0; its rows are the parent's rows and the new row; its table is inherited |
| Selection.SelectStep | BinPacker2D/Packer.cs:318-332 | one turn of the selection loop; `Selection.SelectedTieBreak` states when it selects the new group, and `Selection.SelectionKeepsStaleArea` shows the stale area |
| Selection.Selected | BinPacker2D/Packer.cs:311-336 | over a non-empty list the selected index is in range with a positive count; over an empty list it stays -1 with count 0 |
| Selection.BestIndex | BinPacker2D/Packer.cs:311-336 | for non-empty input the index of the selected group is in range |
| Selection.SelectedIsMaximal | BinPacker2D/Packer.cs:316-336 | the selected group's packed count is the best count, and no finished group packs more |
| Selection.SelectedTieBreak | BinPacker2D/Packer.cs:320-332 | a new last group is selected exactly when it packs more, or packs as many and uses less than the remembered area |
| Selection.SelectionKeepsStaleArea | BinPacker2D/Packer.cs:318-332 | with three finished groups, the second is selected although the third packs as many and uses less height |
| Selection.SelectBest | BinPacker2D/Packer.cs:311-336 | the loop's index is the selected index |
| Selection.FlattenRows | BinPacker2D/Packer.cs:340-348 | the result is the concatenation of the rows' placements, in order |
| Outcomes.ExpandRowIn | BinPacker2D/RowVariant.cs:132-193 | a row on a table stays on it when filled, and so does every clone |
| Outcomes.SeedRowIn | BinPacker2D/Packer.cs:157-184 | each seeded row lies on the table it was seeded on |
| Outcomes.CompleteAll | BinPacker2D/Packer.cs:257-260 | the rows the queue of one pass completes, in queue order; `Outcomes.CompleteAllRowIn` states their properties, and `Packer.CompleteRows` is proved to compute it |
| Outcomes.CompleteAllRowIn | BinPacker2D/Packer.cs:257-260 | completing a queue of rows on a table gives rows on that table, and no more of them than the queue's potential |
| Outcomes.SeedsPotential | BinPacker2D/Packer.cs:157-184 | the seeded rows have potential at most 2^n for a list of n elements |
| Outcomes.PassOutcome | BinPacker2D/Packer.cs:157-260 | the completed rows of a pass lie on the table; there is one exactly when a seed orientation exists; there are at most 2^n |
| Outcomes.ValidRowsItems | BinPacker2D/Packer.cs:266-303 | an outcome's placements are, in order, the front of the prepared list, each possibly rotated and placed |
| Outcomes.ValidRowsTable | BinPacker2D/Packer.cs:204-205 | the table left above an outcome's rows keeps the original's left edge, width and top, and does not move down |
| Outcomes.ValidRowsGeometry | BinPacker2D/Packer.cs:204-214 | the placements of an outcome lie on the table, do not overlap, and all lie below the table left above them |
| Outcomes.GroupNext | BinPacker2D/Packer.cs:193-208 | a worklist group's next element is missing exactly when its list is empty; otherwise it has the size of the list's first element |
| Outcomes.GroupTable | BinPacker2D/Packer.cs:204-205 | adjusting a worklist group's table gives the table its rows leave |
| Outcomes.ValidRowsSnoc | BinPacker2D/Packer.cs:266-303 | a row packed from what an outcome leaves, on the table it leaves, makes a valid outcome one row longer |
| Outcomes.FirstChildShape | BinPacker2D/Packer.cs:289-301 | on the first pass, a child has the row alone, the pass's table, and the rest of the list numbered |
| Outcomes.FirstChildInv | BinPacker2D/Packer.cs:287-302 | a first-pass child keeps the worklist invariant and has fewer elements than the list |
| Outcomes.LaterChildInv | BinPacker2D/Packer.cs:268-283 | a later child of the adjusted first group keeps the invariant and has fewer elements than its parent |
| Outcomes.FirstPassChildren | BinPacker2D/Packer.cs:287-302 | every child of the first pass keeps the invariant and has fewer elements |
| Outcomes.LaterPassChildren | BinPacker2D/Packer.cs:268-283 | every child of a later pass keeps the invariant and has fewer elements than the first group |
| Outcomes.GroupList | BinPacker2D/Packer.cs:278-282 | a worklist group's list is numbered, and non-negative when the prepared list is |
| Outcomes.PreparedNonNegative | BinPacker2D/Packer.cs:66-89 | preparation keeps non-negative dimensions non-negative |
| Outcomes.UsedAreaTop | BinPacker2D/VariantGroup.cs:42-45 | a finished group's used area is one spacing below the table its rows leave; with non-negative spacing and dimensions, no placement of the group reaches above it |
| Outcomes.ReplaceHeadDecreases | BinPacker2D/Packer.cs:137-308 | replacing the first group by at most 2^n children, each with fewer elements than its n, lowers the worklist's measure |
| Search.PassRowsOf | BinPacker2D/Packer.cs:157-260 | the rows one pass completes: the rows seeded in the orientations the fitting test allows, each completed |
| Search.FirstGroups | BinPacker2D/Packer.cs:148-303 | the groups the first pass starts: one per row it completes on the whole table |
| Search.AdjustedFirst | BinPacker2D/Packer.cs:204-205 | the first group with its table moved above its last row |
| Search.NextOf | BinPacker2D/Packer.cs:189-305 | one later pass: the first group is finished unchanged when it has no next element, finished with the adjusted table when the next element fits that table neither way, and otherwise replaced at the back by one child per row completed on the adjusted table |
| Search.NextOfInv | BinPacker2D/Packer.cs:189-305 | on a worklist that keeps the invariant, a pass keeps it; the finished list gains at most the first group, with the same rows and list and valid rows; the worklist is non-empty when nothing finished; the measure drops |
| Search.GrowChildren | BinPacker2D/Packer.cs:218-303 | when the next element fits the adjusted table, a pass makes at least one and at most 2^n children, each keeping the invariant with fewer elements |
| Search.FinishedGroups | BinPacker2D/Packer.cs:137-308 | the groups finished once the passes have emptied the worklist: the groups finished before stay in front, a non-empty worklist finishes at least one more, and every finished group has valid rows |
| Search.FinishedGroupsStep | BinPacker2D/Packer.cs:137-308 | the groups finished from a worklist are those finished from the worklist after its next pass |
| Packer.SeedRows | BinPacker2D/Packer.cs:157-184 | the seeded rows are fresh, distinct, and have, in order, the states seeded in the orientations the fitting test allows |
| Packer.FillFirst | BinPacker2D/Packer.cs:259 | the head's final state joins the completed rows, and its clones' states join the back of the queue; the two lists stay distinct and apart |
| Packer.CompleteRows | BinPacker2D/Packer.cs:257-260 | the completed rows' states are those of the queue completed row by row |
| Packer.MakeChild | BinPacker2D/Packer.cs:268-302 | the group built is the child of the row |
| Packer.AddChildGroups | BinPacker2D/Packer.cs:266-303 | the worklist gains, in order, the child of each completed row |
| Packer.Prepare | BinPacker2D/Packer.cs:66-89 | the elements are prepared and numbered, and stay non-negative when they were |
| Packer.PassRows | BinPacker2D/Packer.cs:157-260 | the completed rows' states are `PassRowsOf`, the seeded rows completed; there are none exactly when the first element fits neither way; there are at most 2^n; each lies on the table |
| Packer.FirstPass | BinPacker2D/Packer.cs:148-303 | the groups made are `FirstGroups`, the children of the rows the first pass completes; none is made exactly when the first element fits the table neither way; each keeps the worklist invariant |
| Packer.GrowFirst | BinPacker2D/Packer.cs:200-303 | the worklist becomes the adjusted first group, the rest, and, exactly when the next element fits the adjusted table, the children of the rows completed on it; the adjusted table is the one the rows leave; there are at most 2^n children, each keeping the invariant with fewer elements |
| Packer.NextPass | BinPacker2D/Packer.cs:189-305 | the new worklist and finished list are exactly `NextOf` of the old ones; either the first group is replaced by its children, or it moves, rows and list unchanged, to the finished groups; every group keeps its invariant, and the measure drops |
| Packer.RunPasses | BinPacker2D/Packer.cs:137-308 | the finished groups are exactly `FinishedGroups` of the worklist; there is at least one, and every one has valid rows |
| Packer.SelectResult | BinPacker2D/Packer.cs:311-348 | the result is the flattened best group; it packs at least as many as any finished group; it is the front of the prepared list; under non-negative input it lies on the table without overlap |
| Packer.PackElements | BinPacker2D/Packer.cs:56-351 | failure exactly when the first prepared element fits the adjusted table neither way; otherwise the finished groups are `FinishedGroups` of `FirstGroups` on the prepared list and adjusted table, and the result is their selected group's flattened rows; it packs the most elements of all outcomes and is the front of the prepared list in order; with non-negative spacing and dimensions it lies on the table without overlap |

## Left out

- Console output at Packer.cs:346 is not modelled.
- `double` values are modelled as `real`: there is no rounding, no infinity and no NaN. `double.MaxValue` is a constant.
- Packer.PackElements requires a non-empty input. The source's `.First()` throws on an empty list, and the model does not model that exception.
- The exception at Packer.cs:183 is modelled as a `Failure` result.
- Packer.PackElements and Packer.Prepare return new values. The source changes the caller's element objects in place at Packer.cs:71-72 and 88.
- Copy constructors are not separate members, because datatypes are values. This covers Position.cs:16-22, RowElement.cs:34-43 and `GetClone` at RowElement.cs:7-10. The constructor at Position.cs:31-37 is the datatype's own constructor.
- Object identity of the shared element lists is not modelled; each row and group holds its list as a value.
  - A row shares the list it was seeded from. That is the sorted list on the first pass (Packer.cs:159-177), and the first group's `InputElements` on later passes (Packer.cs:200, 220-238).
  - The group a row ends up in holds a deep clone of that list (VariantGroup.cs:57 and 69). The clone is trimmed and renumbered (Packer.cs:272-282 and 291-301), so the row's list is not changed.
- Rows in a group are snapshots (`RowState`). Nothing changes them after completion.
- The do-while loop at Packer.cs:137-308 is split in two. The first pass is Packer.FirstPass, and the later passes are the `while` loop of Packer.RunPasses.
  - The flag `deleteFirstGroup` becomes implicit. The first-group branch at 148 runs only on the first pass.
  - The parent group of the children is computed once per pass.
- The LINQ sort at Packer.cs:78 is a stable insertion-sort function (Preprocess.SortByWidthDescending), not a loop.
- Geometry holds only for non-negative spacing and dimensions, which the source's callers supply. The results of Packer.PackElements and Packer.SelectResult state no geometry for other inputs.
- Packer.PackElements states no spacing gap between neighbouring placements. It proves containment and absence of overlap only.
- The graphical front end (BinPackerGUI) is not part of this model.
