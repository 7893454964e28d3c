# DDWorkTab's pawn surface, modelled in Dafny

DDWorkTab is a RimWorld mod that replaces the work tab with a drag-and-drop
row per colonist. `PawnSurface` is that row. It holds the colonist's work
types as an ordered list of draggable items (`children`), a lookup from work
type to item (`childByDef`), and the colonist (`pawn`). It turns list order
plus each item's enabled state into the numeric priorities of the colonist's
work settings: an enabled item at index `i` gets priority `i + 1`, a disabled
one gets 0.

The model has three files:

- `wrappers.dfy`: an `Option` type.
- `lists.dfy` (module `Lists`): the .NET list operations the surface relies on.
  - LINQ's stable `OrderBy`, as the order `SortOrder(xs)` in which it lists the original indices. It is proved to be a permutation and ordered by key, then by original index.
  - `List.FindIndex`, `List.Remove` and `List.Insert`.
  - The single-item `Move` that a remove followed by an insert performs.
- `pawn_surface.dfy` (module `WorkTab`): the colonist (`Pawn`), one work item (`DraggableWork`) and the surface (`PawnSurface`).
  - `PawnSurface` is a class whose methods update `children`, `childByDef`, the items' fields and the pawn's priority map in place, as the C# code does.

The class invariant `Valid()` is established by the constructor. Every
other operation that changes the list, the lookup, the items' flags or the
priorities requires it and keeps it. The rest ask for less:

- the hit test needs nothing, and the neighbour scan needs a valid index;
- the layout pass needs the work types on the surface to be distinct, and its per-child steps need the child to be in the list exactly once;
- the construction loop and the lookup refresh run inside the constructor, before `Valid()` holds; the loop starts from an empty list and the refresh needs nothing.

`Valid()` says:

- no two items share a work type;
- the lookup matches the list exactly;
- every item belongs to this surface;
- an item the colonist is incapable of is marked `completelyDisabled` and is disabled.

`Synced()` says the work settings agree with the list, index by index.

Calls into the game become parameters:

- `Controller.CurrentDraggable` is the `nomad` argument of `DoEventChecks`.
- `Controller.GetPrimaries.PrimaryWorkList` is the `catalog` argument.
- The icon size and gap from `Utilities` are a `Layout` argument.
- `pawn.story.WorkTypeIsDisabled` is the set `Pawn.incapable`.
- `pawn.workSettings` is the map `Pawn.priorities`, where a missing work type reads as 0.

## Model

| member | source | states |
|---|---|---|
| `WorkTab.Pawn.SetPriority` | Source/Draggables/PawnSurface.cs:110 | the work settings map the work type to the given priority and change nothing else |
| `WorkTab.Pawn.Disable` | Source/Draggables/PawnSurface.cs:257 | the work type's priority becomes 0, nothing else changes |
| `WorkTab.DraggableWork.constructor` | Source/Draggables/PawnSurface.cs:321 | a new idle item of the given work type and surface; incapable as told; disabled when asked to start disabled or when incapable |
| `WorkTab.DraggableWork.SetDisabled` | Source/Draggables/PawnSurface.cs:235 | the `Disabled` setter: setting false on a completely disabled item leaves it disabled |
| `WorkTab.DraggableWork.OnDrop` | Source/Draggables/PawnSurface.cs:169 | the item is no longer being dragged |
| `Lists.SortOrder` | Source/Draggables/PawnSurface.cs:122 | LINQ `OrderBy` by x: a permutation of the indices, increasing in key and, on equal keys, in original index (stable) |
| `Lists.InsertIndexOrdered` | Source/Draggables/PawnSurface.cs:122 | inserting a larger index into a stably ordered index list keeps it stably ordered |
| `Lists.OrderedUnique` | Source/Draggables/PawnSurface.cs:122 | a stable sort has exactly one possible result |
| `Lists.SortOrderOfSorted` | Source/Draggables/PawnSurface.cs:122 | sorting keys that already do not decrease keeps every index in place |
| `Lists.SortedKeys` | Source/Draggables/PawnSurface.cs:122 | after sorting, the keys do not decrease |
| `Lists.SortOrderIdempotent` | Source/Draggables/PawnSurface.cs:122 | re-sorting a sorted list leaves it as it is |
| `Lists.PermuteKeepsElements` | Source/Draggables/PawnSurface.cs:122 | a rearranged list has the same length and the same elements, and stays free of repeats |
| `Lists.FindIndex` | Source/Draggables/PawnSurface.cs:215 | `List.FindIndex`: the first index that matches, or -1 exactly when none does |
| `Lists.RemoveFirst` | Source/Draggables/PawnSurface.cs:223 | `List.Remove`: shortens the list by one when the element is present and changes nothing when it is absent |
| `Lists.RemoveFirstRemovesOne` | Source/Draggables/PawnSurface.cs:223 | `List.Remove` removes exactly one copy of the element from the multiset |
| `Lists.RemoveFirstAt` | Source/Draggables/PawnSurface.cs:223 | removing the first occurrence of the element at index `i`, when it has no earlier copy, is removing index `i` |
| `Lists.Move` | Source/Draggables/PawnSurface.cs:223-225 | a single-item move keeps the length, puts the moved element at its target index, and leaves the other elements in their old relative order |
| `Lists.MoveAt` | Source/Draggables/PawnSurface.cs:223-225 | every index of a moved list holds the element from a computed source index |
| `Lists.MoveByRemoveInsert` | Source/Draggables/PawnSurface.cs:223-225 | `Remove` followed by `Insert` at the target is the single-item move |
| `Lists.MoveKeepsMembers` | Source/Draggables/PawnSurface.cs:223-225 | a move keeps exactly the same elements |
| `WorkTab.SlotsIncrease` | Source/Draggables/PawnSurface.cs:157 | the layout slots lie strictly left to right |
| `WorkTab.UndraggedLayoutIncreases` | Source/Draggables/PawnSurface.cs:141-157 | with no item dragged, a layout pass leaves the x coordinates strictly increasing along the list |
| `WorkTab.SplicedNext` | Source/Draggables/PawnSurface.cs:139-158 | laying out item `k` advances the partly laid-out row by one index |
| `WorkTab.MarkersStep` | Source/Draggables/PawnSurface.cs:139-158 | visiting one more child keeps the marker list complete, in child order and correct |
| `WorkTab.LastIndex` | Source/Draggables/PawnSurface.cs:90-95 | the catalog index the reset loop leaves on an item: the last index listing its work type, or -1 exactly when none does |
| `WorkTab.CatalogOrderRestored` | Source/Draggables/PawnSurface.cs:88-100 | as many distinct work types as the catalog has, sorted by their catalog indices, are the catalog in order |
| `WorkTab.PermuteKeepsDefsDistinct` | Source/Draggables/PawnSurface.cs:122 | re-sorting keeps the work types of the list distinct |
| `WorkTab.MoveKeepsDefsDistinct` | Source/Draggables/PawnSurface.cs:223-225 | moving one item keeps the work types of the list distinct |
| `WorkTab.RefreshedLookup` | Source/Draggables/PawnSurface.cs:125-133 | after the refresh, each item is found under its own work type and every other entry is unchanged |
| `WorkTab.RefreshedFromEmpty` | Source/Draggables/PawnSurface.cs:326 | refreshing an empty lookup from a list with distinct work types gives a lookup that matches the list exactly |
| `WorkTab.IndexOfDef` | Source/Draggables/PawnSurface.cs:215 | the first index holding the work type, or -1 exactly when it is absent |
| `WorkTab.PlacedXsFixed` | Source/Draggables/PawnSurface.cs:90-95 | placement changes nothing when every catalogued item already sits at its index |
| `WorkTab.PawnSurface.constructor` | Source/Draggables/PawnSurface.cs:309-331 | one item per catalog entry, in catalog order (the discarded `OrderBy` has no effect); each is incapable exactly when the pawn is, and disabled when its earlier priority was 0 or it is incapable; the lookup matches; priorities are in step; other work types keep their priority |
| `WorkTab.PawnSurface.AddWorkItems` | Source/Draggables/PawnSurface.cs:315-324 | the construction loop appends, in catalog order, one idle item per entry, with incapability and starting state as above |
| `WorkTab.PawnSurface.RefreshChildrenDictionary` | Source/Draggables/PawnSurface.cs:125-133 | the lookup is the old one with every child stored under its work type, in list order |
| `WorkTab.PawnSurface.UpdatePawnPriorities` | Source/Draggables/PawnSurface.cs:102-118 | every child at index `i` has priority `i + 1` if enabled and 0 if disabled; no other work type's priority changes |
| `WorkTab.PawnSurface.OrderChildrenByPosition` | Source/Draggables/PawnSurface.cs:120-123 | the list becomes the stable sort of the old list by x: a permutation with the same items, sorted by x, with the invariant kept |
| `WorkTab.PawnSurface.OnDrop` | Source/Draggables/PawnSurface.cs:33-38 | the list is stably re-sorted by x and the priorities rewritten to match it; other priorities are untouched |
| `WorkTab.PawnSurface.ChildUnder` | Source/Draggables/PawnSurface.cs:18-53 | the hit test of `OnClicked`/`OnHover`: the first child in list order whose rectangle holds the pointer, or none when no child's does |
| `WorkTab.PawnSurface.DrawDynamicPosition` | Source/Draggables/PawnSurface.cs:55-86 | the neighbour scan: the highest other index whose x is strictly left of the dragged item, or none; the marker is red when the pawn is incapable of the work type |
| `WorkTab.PawnSurface.PlaceInSlot` | Source/Draggables/PawnSurface.cs:143-148 | the child moves to the slot position, its drag rectangle is rebuilt around it, and no other child changes |
| `WorkTab.PawnSurface.LayOutChild` | Source/Draggables/PawnSurface.cs:141-155 | one pass of the layout loop: an undragged child goes to its slot; a dragged child over the surface yields a marker naming its left neighbour in the row as it stands |
| `WorkTab.PawnSurface.DrawSurface` | Source/Draggables/PawnSurface.cs:135-159 | undragged children are at the slots of their indices and dragged ones stay put; there is one marker, in child order, for each dragged child over the surface, each naming its left neighbour |
| `WorkTab.PawnSurface.UndraggedLayoutSorted` | Source/Draggables/PawnSurface.cs:135-159 | after a layout pass with no child dragged the children stand left to right, so the next re-sort by position keeps the list as it is |
| `WorkTab.PawnSurface.DoEventChecks` | Source/Draggables/PawnSurface.cs:161-211 | during a drag, only a mouse-up of this surface's own item acts: the item is dropped, and only a release inside the surface re-sorts the list and rewrites priorities. Without a drag, a repaint or mouse-down over the surface goes to the first child under the pointer. Anything else changes neither the list, the lookup nor the priorities; the dragged item keeps its position, rectangle and enabled state, and it stays dragged unless this surface saw its release |
| `WorkTab.PawnSurface.OnPrimaryShiftClick` | Source/Draggables/PawnSurface.cs:213-229 | when index + change is inside the list, the item moves there, the others keep their order and the priorities are rewritten; otherwise the list and the priorities are unchanged |
| `WorkTab.PawnSurface.MoveChild` | Source/Draggables/PawnSurface.cs:223-225 | `Remove` then `Insert` is the single-item move, and the invariant is kept |
| `WorkTab.PawnSurface.EnableWorkType` | Source/Draggables/PawnSurface.cs:231-253 | the item ends enabled unless it is completely disabled; only then is its priority set to its index + 1, and otherwise no priority changes; a synced surface stays synced |
| `WorkTab.PawnSurface.DisableWorkType` | Source/Draggables/PawnSurface.cs:255-272 | the item is disabled and its priority becomes 0; nothing else changes and a synced surface stays synced |
| `WorkTab.PawnSurface.DisableAllPawnWork` | Source/Draggables/PawnSurface.cs:274-282 | every child is disabled with priority 0; order and positions are kept; other work types keep their priority |
| `WorkTab.PawnSurface.PlaceByCatalog` | Source/Draggables/PawnSurface.cs:90-95 | each catalogued item's x becomes its catalog index; every other coordinate is unchanged |
| `WorkTab.PawnSurface.ResetWorkToDefaultPriorities` | Source/Draggables/PawnSurface.cs:88-100 | the catalog placement, then the stable re-sort by the new x, then priorities in step: the surface is in its default order |
| `WorkTab.PawnSurface.DefaultOrderIsFixed` | Source/Draggables/PawnSurface.cs:88-100 | a priority reset of a surface already in default order changes no list entry, position or priority, so resetting twice equals resetting once |
| `WorkTab.PawnSurface.DefaultOrderIsCatalogOrder` | Source/Draggables/PawnSurface.cs:88-100 | a surface holding exactly the catalog's work types, in default order, lists them in catalog order |
| `WorkTab.PawnSurface.EnableAllCapable` | Source/Draggables/PawnSurface.cs:286-294 | every child is enabled unless completely disabled; positions are untouched |
| `WorkTab.PawnSurface.ResetWorkToDefaultState` | Source/Draggables/PawnSurface.cs:284-297 | every capable child is enabled, each catalogued child takes its catalog index, the list is stably re-sorted and priorities are in step |
| `WorkTab.PawnSurface.DefaultStateIsFixed` | Source/Draggables/PawnSurface.cs:284-297 | a full reset of a surface already in its default state changes nothing, so applying it twice equals applying it once |

## Left out

- Source/Primaries/PrimaryWork.cs is not part of this model. It fans UI events out to every colonist's surface and reads the keyboard modifiers.
- `ExposeData` (save and load) is left out. Loading only re-runs `RefreshChildrenDictionary`, which is modelled.
- `RecacheDraggableOutlines` is left out: it is drawing only.
- Drawing is left out: GUI colours, textures, `DrawTexture` and the marker `Rect`. `DrawDynamicPosition` returns the marker as a value (dragged index, neighbour index, red or not) instead of drawing it.
- Pixel arithmetic is in integers. Halves use integer division. A marker names its neighbour's index, not its pixel x.
- The `xPosition == 0f` fallback is not modelled. In the source, a neighbour whose computed marker x happens to be exactly 0 also gets the margin marker. That depends on float values only.
- Sounds, translated messages, `Controller.UseSounds` and `Controller.VerboseMessages` are left out. They only give feedback.
- The bodies of `DraggableWork.OnClicked`, `OnHover` and `DrawTexture` are not part of this model. `DoEventChecks` returns which child the event is forwarded to.
- `DraggableWork.OnDrop` is modelled only as ending the drag, since its body is not part of this model.
- The `DraggableWork` constructor and the `Disabled` setter follow the rule of the comment at line 235: a completely disabled item cannot be enabled.
- The game's own checks inside `workSettings.SetPriority` (range checks, incapable colonists) are not modelled. A priority write is a plain map update.
- WorkTab.PawnSurface.constructor: requires the catalog to list each work type once, as the game's work type list does. With a repeated entry the lookup would keep only the later item.
- WorkTab.PawnSurface.OnPrimaryShiftClick: requires the work type to be on the surface. The source indexes the list with `FindIndex`'s -1 otherwise, which throws; that exception path is not modelled.
- WorkTab.PawnSurface.ResetWorkToDefaultPriorities: requires every catalog entry to be in the lookup. The source's dictionary read throws otherwise; that exception path is not modelled. The same holds for `ResetWorkToDefaultState`.
- `ToDraggableRect` is not part of this model. `DraggableRect` takes it to build a square of the icon's diameter centred on the point.
- WorkTab.PawnSurface.DrawSurface: requires distinct work types on the surface, which `Valid()` guarantees. A list holding the same item object twice is not modelled.
- WorkTab.PawnSurface.DefaultOrderIsFixed: the idempotence of the priority reset is stated over any two states that the method's postcondition relates, not as a postcondition of the method. The same holds for `DefaultStateIsFixed` and `ResetWorkToDefaultState`.
