/** The builder's state and its gesture handlers: the menu forest, the set of
    expanded entries, the drag in progress and the current drop intent. */
module Builder {
  import opened MenuTree
  import opened Locate
  import opened Removal
  import opened Insertion
  import opened Drop
  import opened DropIntent

  /** The entry being dragged, with its parent's id and its index there as
      recorded when the drag began. */
  datatype DragInfo = DragInfo(id: string, parentId: Option<string>, index: int)

  /** The entry under the pointer and where the dragged entry would go. */
  datatype DropTarget = DropTarget(id: string, position: Position)

  /** The expanded set with `id`'s membership flipped. */
  function Toggled(s: set<string>, id: string): (r: set<string>)
    ensures id in r <==> id !in s
    ensures forall y :: y != id ==> (y in r <==> y in s)
  {
    if id in s then s - {id} else s + {id}
  }

  /** Toggling the same entry twice restores the expanded set. */
  lemma ToggleTwice(s: set<string>, id: string)
    ensures Toggled(Toggled(s, id), id) == s
  {
  }

  /** The entry the "Add Menu" button appends: a leaf titled "New Menu". */
  function NewMenu(id: string): Item
  {
    Item(id, "New Menu", [])
  }

  /** Appending a new root entry adds exactly its id at the end of the
      pre-order ids, and keeps the ids unique when the new id is fresh. */
  lemma AppendNewMenu(t: seq<Item>, id: string)
    ensures PreIds(t + [NewMenu(id)]) == PreIds(t) + [id]
    ensures NoDup(PreIds(t)) && id !in PreIds(t) ==> NoDup(PreIds(t + [NewMenu(id)]))
  {
    PreIdsConcat(t, [NewMenu(id)]);
    PreIdsCons(NewMenu(id), []);
    assert PreIds([NewMenu(id)]) == [id];
    NoDupConcat(PreIds(t), [id]);
  }

  class MenuBuilder {
    var menuItems: seq<Item>
    var expandedItems: set<string>
    var draggedItem: Option<DragInfo>
    var dropTarget: Option<DropTarget>

    /** The builder opens on the seed menu, whose ids are unique, with
        nothing expanded and no drag. */
    constructor ()
      ensures menuItems == InitialMenuItems && expandedItems == {}
      ensures draggedItem == None && dropTarget == None
      ensures NoDup(PreIds(menuItems))
    {
      SeedUnique();
      menuItems := InitialMenuItems;
      expandedItems := {};
      draggedItem := None;
      dropTarget := None;
    }

    /** Flips whether `id` is expanded; nothing else changes. */
    method ToggleExpand(id: string)
      modifies this
      ensures expandedItems == Toggled(old(expandedItems), id)
      ensures menuItems == old(menuItems) && draggedItem == old(draggedItem) && dropTarget == old(dropTarget)
    {
      var next := expandedItems;
      if id in next {
        next := next - {id};
      } else {
        next := next + {id};
      }
      expandedItems := next;
    }

    /** Records the drag that begins. A drop intent left from an earlier
        gesture is not cleared. */
    method HandleDragStart(id: string, parentId: Option<string>, index: int)
      modifies this
      ensures draggedItem == Some(DragInfo(id, parentId, index))
      ensures menuItems == old(menuItems) && expandedItems == old(expandedItems) && dropTarget == old(dropTarget)
    {
      draggedItem := Some(DragInfo(id, parentId, index));
    }

    /** Updates the drop intent for the pointer at `y` over the entry `id`
        whose box is `height` high; without a drag, or over the dragged entry
        itself, nothing changes. */
    method HandleDragOver(id: string, y: real, height: real)
      modifies this
      ensures old(draggedItem).None? || old(draggedItem).value.id == id ==> dropTarget == old(dropTarget)
      ensures old(draggedItem).Some? && old(draggedItem).value.id != id ==>
                dropTarget == Some(DropTarget(id, Classify(y, height)))
      ensures menuItems == old(menuItems) && expandedItems == old(expandedItems) && draggedItem == old(draggedItem)
    {
      if draggedItem.None? || draggedItem.value.id == id {
        return;
      }
      dropTarget := Some(DropTarget(id, Classify(y, height)));
    }

    /** Completes the gesture. Without both a drag and a drop intent the two
        are cleared and the menu is kept. A dragged id missing from the menu
        returns at once, leaving all state as it was. Otherwise the menu
        becomes the reorder of `DropTree` and the gesture is cleared; unique
        ids stay unique in every case. */
    method HandleDrop()
      modifies this
      ensures old(draggedItem).None? || old(dropTarget).None? ==>
                menuItems == old(menuItems) && draggedItem == None && dropTarget == None
      ensures old(draggedItem).Some? && old(dropTarget).Some? && old(draggedItem).value.id !in PreIds(old(menuItems)) ==>
                menuItems == old(menuItems) && draggedItem == old(draggedItem) && dropTarget == old(dropTarget)
      ensures old(draggedItem).Some? && old(dropTarget).Some? && old(draggedItem).value.id in PreIds(old(menuItems)) ==>
                menuItems == DropTree(old(menuItems), old(draggedItem).value.id,
                                      old(dropTarget).value.id, old(dropTarget).value.position) &&
                draggedItem == None && dropTarget == None
      ensures NoDup(PreIds(old(menuItems))) ==> NoDup(PreIds(menuItems))
      ensures expandedItems == old(expandedItems)
    {
      if draggedItem.None? || dropTarget.None? {
        draggedItem := None;
        dropTarget := None;
        return;
      }
      var dragged, target := draggedItem.value, dropTarget.value;
      var located := FindMenuItem(menuItems, dragged.id);
      FindSpec(menuItems, dragged.id);
      if located.NotFound? {
        return;
      }
      var next := Remove(menuItems, dragged.id);
      next := Insert(next, target.id, target.position, located.node, 1);
      if NoDup(PreIds(menuItems)) {
        DropKeepsUnique(menuItems, dragged.id, target.id, target.position);
      }
      menuItems := next;
      draggedItem := None;
      dropTarget := None;
    }

    /** Abandons the gesture; the menu is kept. */
    method HandleDragEnd()
      modifies this
      ensures draggedItem == None && dropTarget == None
      ensures menuItems == old(menuItems) && expandedItems == old(expandedItems)
    {
      draggedItem := None;
      dropTarget := None;
    }

    /** Appends a new root entry with id `newId`, which the caller derives
        from the clock. */
    method AddNewMenu(newId: string)
      modifies this
      ensures menuItems == old(menuItems) + [NewMenu(newId)]
      ensures PreIds(menuItems) == PreIds(old(menuItems)) + [newId]
      ensures NoDup(PreIds(old(menuItems))) && newId !in PreIds(old(menuItems)) ==> NoDup(PreIds(menuItems))
      ensures expandedItems == old(expandedItems) && draggedItem == old(draggedItem) && dropTarget == old(dropTarget)
    {
      AppendNewMenu(menuItems, newId);
      menuItems := menuItems + [NewMenu(newId)];
    }
  }

  /** Hovering over the dragged entry itself sets no drop intent, so the drop
      that follows only clears the gesture and the menu is kept. */
  method DragOntoSelf() returns (b: MenuBuilder)
    ensures b.menuItems == InitialMenuItems
    ensures b.draggedItem == None && b.dropTarget == None
  {
    b := new MenuBuilder();
    b.HandleDragStart("2-1", Some("2"), 0);
    b.HandleDragOver("2-1", 10.0, 40.0);
    b.HandleDrop();
  }

  /** Dragging "Home" into the middle half of "Collections" and dropping
      makes it the last child of "Collections". */
  method HomeIntoCollectionsGesture() returns (b: MenuBuilder)
    ensures b.menuItems ==
              [InitialMenuItems[1].(children := InitialMenuItems[1].children + [InitialMenuItems[0]]),
               InitialMenuItems[2], InitialMenuItems[3]]
    ensures b.draggedItem == None && b.dropTarget == None
  {
    b := new MenuBuilder();
    b.HandleDragStart("1", None, 0);
    b.HandleDragOver("2", 20.0, 40.0);
    assert Classify(20.0, 40.0) == Inside;
    assert "1" in PreIds(InitialMenuItems);
    b.HandleDrop();
    HomeIntoCollections();
  }
}
