# Menu builder: tree-reorder engine

A Dafny model of the drag-and-drop engine of the menu builder component
(`components/menu-builder.tsx`). The menu is an ordered forest of entries
`Item(id, title, children)`. A drag gesture records the dragged entry. Each
drag-over classifies the pointer's position over the hovered entry as
`Before`, `After` or `Inside`. A drop then locates the dragged entry, removes
every entry with its id, and inserts the located entry at the target. An
`Inside` drop is accepted only while the target's level (root entries are
level 1) is below `MaxLevels = 10`.

Modules, one file each:

- `MenuTree` (`menu_tree.dfy`) holds the entry datatype, the drop positions,
  the limit and the seed menu. It also holds the reference views the
  properties are stated in. `PreIds` lists every id in pre-order, `Flatten`
  lists every entry in pre-order, and `FirstWith` is a linear search. `NoDup`
  says ids are unique and `Subseq` says order is kept.
- `Locate` (`locate.dfy`) is the locator. `FindFrom` is its specification and
  `FindMenuItem` is the loop the component runs, proved equal to it.
- `Removal` (`remove.dfy`) is the remover. `Insertion` (`insert.dfy`) is the
  inserter, with the level bookkeeping in `LevelOf` and `Accepts`.
- `Drop` (`drop.dfy`) is the drop itself (`DropTree`), its properties, and
  worked examples on the seed menu.
- `DropIntent` (`drop_intent.dfy`) is the pointer classifier.
- `Builder` (`menu_builder.dfy`) is the component's state as the class
  `MenuBuilder`: `menuItems`, `expandedItems`, `draggedItem`, `dropTarget`.
  Its handler methods change these fields.

Remove and insert act on every entry with the given id. Locate returns only
the first one. The properties that relate them therefore assume unique ids
(`NoDup(PreIds(t))`). The seed menu has unique ids (`MenuTree.SeedUnique`),
the constructor states it, and every handler keeps it.

A `children` list that is absent is modelled as the empty list. No step of the
engine treats the two differently: a leaf matched by `Inside` gets a
one-element list either way, and a leaf is never searched.

The engine is not copy-on-write, and a refused drop loses the dragged entry:

- The remover assigns the filtered lists into the input entries' `children`
  (`components/menu-builder.tsx:72`).
- A refused `Inside` insertion loses the dragged subtree. `Drop.DropRefused`
  proves that the count drops by the size of that subtree. A drop onto an
  entry inside the dragged subtree loses the subtree the same way
  (`Drop.DropOntoOwnSubtree`, `Drop.CollectionsAfterOwnChild`).

## Model

| member | source | states |
|---|---|---|
| MenuTree.SeedPreIds | components/menu-builder.tsx:8-29 | The seed menu's pre-order ids are 1, 2, 2-1 … 2-4, 3, 4, 4-1, 4-2 |
| MenuTree.SeedUnique | components/menu-builder.tsx:8-29 | The seed menu's ids are all distinct |
| Locate.FindFrom | components/menu-builder.tsx:52-63 | A search from sibling `i` that finds an entry returns one with the requested id. It sits at the returned index of the returned list, and that list is the forest's root list or the children of one of its entries |
| Locate.FindFromSpec | components/menu-builder.tsx:52-63 | The search from sibling `i` succeeds exactly when the id occurs in the subtrees of siblings `i..`. What it returns is the first such entry in pre-order |
| Locate.FindSpec | components/menu-builder.tsx:51-64 | The locator finds an entry exactly when the id occurs at some depth. The entry has that id and sits at `parent[index]`, where `parent` is one of the forest's own sibling lists. It is the first match in pre-order. Otherwise the not-found result stands for `(null, null, -1)` |
| Locate.FindMenuItem | components/menu-builder.tsx:51-64 | The indexed loop with early return and recursion into children returns exactly the specified search result |
| Removal.Remove | components/menu-builder.tsx:66-76 | No entry with the removed id remains at any depth |
| Removal.RemoveConcat | components/menu-builder.tsx:67-75 | The filter works sibling by sibling, so removal distributes over concatenation of sibling lists |
| Removal.RemoveAbsent | components/menu-builder.tsx:66-76 | Removing an absent id leaves the forest structurally unchanged |
| Removal.RemoveKeepsOrder | components/menu-builder.tsx:66-76 | The surviving ids keep their relative pre-order |
| Removal.RemoveAt | components/menu-builder.tsx:67-70 | With unique ids, removing a root entry's id deletes just that entry; the other root entries keep their order and contents |
| Removal.RemoveBelow | components/menu-builder.tsx:71-74 | With unique ids and the id under root entry `k`, only `k`'s children are rewritten by the removal; the other root entries keep their order and contents |
| Removal.RemoveUntouched | components/menu-builder.tsx:67-75 | A removal whose id is in root entry `k`'s subtree acts on that entry alone |
| Removal.RemoveExact | components/menu-builder.tsx:66-76 | With unique ids, removal deletes exactly the pre-order block of the first matching entry's subtree. All other ids survive in place |
| Insertion.LevelOf | components/menu-builder.tsx:124-140 | The level of an id is defined exactly when the id occurs, and is never above the starting level |
| Insertion.Place | components/menu-builder.tsx:126-146 | A sibling whose subtree lacks the target id is kept unchanged |
| Insertion.Insert | components/menu-builder.tsx:120-147 | An insertion whose target id is absent returns the forest unchanged |
| Insertion.InsertConcat | components/menu-builder.tsx:126 | The flat-map works sibling by sibling, so insertion distributes over concatenation of sibling lists |
| Insertion.InsertRefused | components/menu-builder.tsx:127-145 | With unique ids, a missing target or an `Inside` drop on a target at level 10 or deeper leaves the forest exactly as it was, so the dragged entry is inserted nowhere |
| Insertion.InsertIds | components/menu-builder.tsx:120-147 | With unique ids and an accepted drop, the result's pre-order ids are the old ones with exactly the dragged subtree's block added. For `Before` the block goes right before the target's block; otherwise it goes after the target's id |
| Insertion.InsertIdsHere | components/menu-builder.tsx:127-137 | The same when the target is the first root entry. For `Before` the dragged block comes first, ahead of the target's block. Otherwise it comes right after the target's whole block (its id and subtree ids, so after its subtree or after its last child) and ahead of the later siblings' ids |
| Insertion.InsertAt | components/menu-builder.tsx:127-137 | With unique ids and a root-level target: `Before`/`After` put the dragged entry immediately beside the target in its own sibling list. `Inside` below the limit appends it as the target's last child. At the limit nothing changes. All other siblings are unchanged |
| Insertion.InsertBelow | components/menu-builder.tsx:139-145 | With unique ids and a target below root entry `k`, only `k`'s children are rewritten, one level deeper. All other siblings keep contents and order |
| Insertion.Untouched | components/menu-builder.tsx:126-146 | An insertion whose target is in root entry `k`'s subtree acts on that entry alone |
| Drop.DropTree | components/menu-builder.tsx:111-149 | A drop whose dragged id is not in the menu leaves the menu as it is |
| Drop.DropParts | components/menu-builder.tsx:111-117 | With unique ids, the located entry's subtree is a block of the menu's pre-order ids, and removal leaves exactly the ids around it |
| Drop.DropKeepsUnique | components/menu-builder.tsx:102-154 | A drop keeps ids unique |
| Drop.DropAccepted | components/menu-builder.tsx:111-149 | With unique ids and an accepted insertion, the node count is unchanged and the dragged id occurs exactly once |
| Drop.DropRefused | components/menu-builder.tsx:111-149 | With unique ids and a refused insertion, the menu is the removal result. The count drops by the size of the dragged subtree and the dragged id is gone |
| Drop.DropOntoOwnSubtree | components/menu-builder.tsx:117-149 | A target inside the dragged subtree is always refused, so the drop just deletes the dragged subtree |
| Drop.RemoveHome | components/menu-builder.tsx:66-76 | Removing "Home" from the seed menu leaves its other three root entries |
| Drop.InsertHome | components/menu-builder.tsx:120-147 | Inserting "Home" inside "Collections" of that menu appends it as the last child |
| Drop.HomeIntoCollections | components/menu-builder.tsx:102-154 | Dropping "Home" inside "Collections" makes it Collections' last child; the other entries keep their places |
| Drop.RemoveSpring | components/menu-builder.tsx:66-76 | Removing "Spring" from the seed menu only shortens Collections' children |
| Drop.ReinsertSpring | components/menu-builder.tsx:120-147 | Inserting "Spring" before "Summer" restores the seed menu |
| Drop.SpringBeforeSummer | components/menu-builder.tsx:102-154 | Dragging a child before its next sibling leaves the menu unchanged, with no duplicate |
| Drop.CollectionsAfterOwnChild | components/menu-builder.tsx:102-154 | Dropping "Collections" after its own child "Fall" deletes Collections and its children |
| DropIntent.Classify | components/menu-builder.tsx:93-99 | For a positive height: `Before` exactly when the pointer is in the top quarter (strictly), `After` exactly in the bottom quarter (strictly), `Inside` exactly in the middle half, boundaries included |
| DropIntent.ClassifyMonotone | components/menu-builder.tsx:93-99 | The bands are stacked `Before`, `Inside`, `After` from top to bottom: moving the pointer down never moves the intent up |
| DropIntent.ClassifyScale | components/menu-builder.tsx:93-99 | Only the pointer's fraction of the box height matters |
| DropIntent.ClassifyBoundaries | components/menu-builder.tsx:93-99 | At height 100: 24 gives `Before`; 25, 50 and 75 give `Inside`; 76 gives `After` |
| Builder.Toggled | components/menu-builder.tsx:40-48 | Flips membership of the given id and of no other id |
| Builder.ToggleTwice | components/menu-builder.tsx:39-49 | Toggling the same id twice restores the expanded set |
| Builder.AppendNewMenu | components/menu-builder.tsx:212 | Appending the new entry adds exactly its id at the end of the pre-order ids. With a fresh id, ids stay unique |
| Builder.MenuBuilder.constructor | components/menu-builder.tsx:34-37 | Starts on the seed menu, nothing expanded, no drag and no drop intent; the menu's ids are unique |
| Builder.MenuBuilder.ToggleExpand | components/menu-builder.tsx:39-49 | The expanded set becomes its toggle at `id`; the other fields are unchanged |
| Builder.MenuBuilder.HandleDragStart | components/menu-builder.tsx:78-82 | Records the drag; the drop intent and the other fields are unchanged |
| Builder.MenuBuilder.HandleDragOver | components/menu-builder.tsx:84-100 | With no drag, or over the dragged entry, the drop intent is unchanged. Otherwise it becomes the hovered id with the classified position. Nothing else changes |
| Builder.MenuBuilder.HandleDrop | components/menu-builder.tsx:102-154 | Without drag or intent: both cleared, menu kept. Dragged id not found: all state untouched. Otherwise the menu becomes the drop result and both are cleared. Unique ids stay unique |
| Builder.MenuBuilder.HandleDragEnd | components/menu-builder.tsx:156-159 | Clears drag and intent without touching the menu or the expanded set |
| Builder.MenuBuilder.AddNewMenu | components/menu-builder.tsx:210-213 | Appends exactly one root entry "New Menu" with the given id at the end. Nothing else changes. A fresh id keeps ids unique |
| Builder.DragOntoSelf | components/menu-builder.tsx:84-109 | Hovering over the dragged entry sets no intent, so the following drop only clears the gesture and keeps the menu |
| Builder.HomeIntoCollectionsGesture | components/menu-builder.tsx:78-154 | Starting a drag on "Home", hovering over the middle of "Collections" and dropping makes Home Collections' last child and clears the gesture |

## Left out

- Rendering (`renderMenuItem` and the returned markup, lines 161-208 and 215-225): presentation only.
- Event plumbing (`preventDefault`, `dataTransfer`, `getBoundingClientRect`, `clientY`): the classifier takes the pointer offset `y` and the box `height` as inputs.
- React `useState` mechanics: each setter is a field assignment, applied in order.
- `Date.now()` in `addNewMenu`: the new id is a parameter, and id uniqueness after the call is stated only for a fresh id.
- Removal.Remove: the model works on values. It does not capture that the source writes the filtered lists into the caller's entries in place. The handler replaces the whole menu right after, and the dragged entry's own subtree is never written, because the filter drops it before descending. So the drop result is the same; only aliasing of the previous state is not modelled.
- DropIntent.Classify: uses exact real arithmetic. JavaScript's floating-point rounding of `height * 0.25` and `height * 0.75` is not modelled.
- The `newChildren !== item.children` check (line 141): `flatMap` always returns a fresh array, so the check always holds and has no effect at the value level.
- `MenuItem.isExpanded` is dropped from `Item`, because the engine never reads it.
- `DragInfo` keeps `parentId` and `index` as recorded by the drag start, but nothing in the engine reads them.
- The page shell that only mounts the component is not part of this model.
