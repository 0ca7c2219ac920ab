/** A drop as the builder performs it: locate the dragged entry, remove it
    everywhere, then insert it at the drop target, starting at level 1. */
module Drop {
  import opened MenuTree
  import opened Locate
  import opened Removal
  import opened Insertion

  /** The new menu after dropping `draggedId` at `targetId`; a dragged id that
      is not found leaves the menu as it is. */
  function DropTree(t: seq<Item>, draggedId: string, targetId: string, pos: Position): (r: seq<Item>)
    ensures draggedId !in PreIds(t) ==> r == t
  {
    FindSpec(t, draggedId);
    match Find(t, draggedId)
    case NotFound => t
    case Found(node, _, _) => Insert(Remove(t, draggedId), targetId, pos, node, 1)
  }

  /** The dragged entry and the split of the menu's pre-order ids around its
      subtree, once removed. */
  lemma DropParts(t: seq<Item>, draggedId: string) returns (a: seq<string>, b: seq<string>)
    requires NoDup(PreIds(t)) && draggedId in PreIds(t)
    ensures Find(t, draggedId).Found?
    ensures PreIds(t) == a + PreIds([Find(t, draggedId).node]) + b
    ensures PreIds(Remove(t, draggedId)) == a + b
    ensures NoDup(a + b) && NoDup(PreIds([Find(t, draggedId).node]))
    ensures forall y :: y in PreIds([Find(t, draggedId).node]) ==> y !in a + b
    ensures draggedId in PreIds([Find(t, draggedId).node])
  {
    FindSpec(t, draggedId);
    var n := Find(t, draggedId).node;
    var n';
    n', a, b := RemoveExact(t, draggedId);
    var block := PreIds([n]);
    NoDupConcat(a + block, b);
    NoDupConcat(a, block);
    NoDupConcat(a, b);
    PreIdsCons(n, []);
  }

  /** With unique ids, every drop leaves the ids unique. */
  lemma DropKeepsUnique(t: seq<Item>, draggedId: string, targetId: string, pos: Position)
    requires NoDup(PreIds(t))
    ensures NoDup(PreIds(DropTree(t, draggedId, targetId, pos)))
  {
    if draggedId in PreIds(t) {
      var a, b := DropParts(t, draggedId);
      var n := Find(t, draggedId).node;
      var s := Remove(t, draggedId);
      if Accepts(s, targetId, pos, 1) {
        var a', b' := InsertIds(s, targetId, pos, n, 1);
        NoDupInsertBlock(a', PreIds([n]), b');
      } else {
        InsertRefused(s, targetId, pos, n, 1);
      }
    }
  }

  /** With unique ids, a drop whose insertion is accepted moves the dragged
      subtree: the menu keeps its size and the dragged id occurs exactly once. */
  lemma DropAccepted(t: seq<Item>, draggedId: string, targetId: string, pos: Position)
    requires NoDup(PreIds(t)) && draggedId in PreIds(t)
    requires Accepts(Remove(t, draggedId), targetId, pos, 1)
    ensures |PreIds(DropTree(t, draggedId, targetId, pos))| == |PreIds(t)|
    ensures draggedId in PreIds(DropTree(t, draggedId, targetId, pos))
    ensures NoDup(PreIds(DropTree(t, draggedId, targetId, pos)))
  {
    var a, b := DropParts(t, draggedId);
    var n := Find(t, draggedId).node;
    var a', b' := InsertIds(Remove(t, draggedId), targetId, pos, n, 1);
    NoDupInsertBlock(a', PreIds([n]), b');
  }

  /** With unique ids, a drop whose insertion is refused (the target is gone
      after the removal, or `Inside` is at or beyond the limit) deletes the
      dragged subtree: the menu is the removal's result and shrinks by the
      subtree's size. */
  lemma DropRefused(t: seq<Item>, draggedId: string, targetId: string, pos: Position)
    requires NoDup(PreIds(t)) && draggedId in PreIds(t)
    requires !Accepts(Remove(t, draggedId), targetId, pos, 1)
    ensures Find(t, draggedId).Found?
    ensures DropTree(t, draggedId, targetId, pos) == Remove(t, draggedId)
    ensures |PreIds(DropTree(t, draggedId, targetId, pos))| + |PreIds([Find(t, draggedId).node])| == |PreIds(t)|
    ensures draggedId !in PreIds(DropTree(t, draggedId, targetId, pos))
  {
    var a, b := DropParts(t, draggedId);
    InsertRefused(Remove(t, draggedId), targetId, pos, Find(t, draggedId).node, 1);
  }

  /** With unique ids, a target inside the dragged subtree (the dragged entry
      itself included) is removed along with it, so the insertion is refused
      and the drop deletes the dragged subtree. */
  lemma DropOntoOwnSubtree(t: seq<Item>, draggedId: string, targetId: string, pos: Position)
    requires NoDup(PreIds(t)) && draggedId in PreIds(t)
    requires Find(t, draggedId).Found? && targetId in PreIds([Find(t, draggedId).node])
    ensures !Accepts(Remove(t, draggedId), targetId, pos, 1)
    ensures DropTree(t, draggedId, targetId, pos) == Remove(t, draggedId)
  {
    var a, b := DropParts(t, draggedId);
    InsertRefused(Remove(t, draggedId), targetId, pos, Find(t, draggedId).node, 1);
  }

  /** The ids of the initial menu's last two entries, "About Us" and "My Account". */
  lemma LastTwoIds()
    ensures PreIds([InitialMenuItems[2], InitialMenuItems[3]]) == ["3", "4", "4-1", "4-2"]
  {
    var t := InitialMenuItems;
    assert PreIds(t[3].children) == ["4-1", "4-2"];
    PreIdsCons(t[3], []);
    PreIdsCons(t[2], [t[3]]);
  }

  lemma RemoveHome()
    ensures Remove(InitialMenuItems, "1") == InitialMenuItems[1..]
  {
    var t := InitialMenuItems;
    assert t == [t[0]] + [t[1], t[2], t[3]];
    RemoveConcat([t[0]], [t[1], t[2], t[3]], "1");
    assert PreIds([t[1], t[2], t[3]]) == ["2", "2-1", "2-2", "2-3", "2-4", "3", "4", "4-1", "4-2"];
    RemoveAbsent([t[1], t[2], t[3]], "1");
    assert Remove([t[0]], "1") == [];
  }

  lemma InsertHome()
    ensures Insert(InitialMenuItems[1..], "2", Inside, InitialMenuItems[0], 1) ==
              [InitialMenuItems[1].(children := InitialMenuItems[1].children + [InitialMenuItems[0]]),
               InitialMenuItems[2], InitialMenuItems[3]]
  {
    var t := InitialMenuItems;
    assert t[1..] == [t[1]] + [t[2], t[3]];
    InsertConcat([t[1]], [t[2], t[3]], "2", Inside, t[0], 1);
    LastTwoIds();
    assert Insert([t[2], t[3]], "2", Inside, t[0], 1) == [t[2], t[3]];
    assert [t[1]][1..] == [];
    assert Insert([t[1]], "2", Inside, t[0], 1) == Place(t[1], "2", Inside, t[0], 1);
  }

  /** Dragging "Home" into "Collections" of the initial menu appends it as
      Collections' last child; the other entries stay where they were. */
  lemma HomeIntoCollections()
    ensures DropTree(InitialMenuItems, "1", "2", Inside) ==
              [InitialMenuItems[1].(children := InitialMenuItems[1].children + [InitialMenuItems[0]]),
               InitialMenuItems[2], InitialMenuItems[3]]
  {
    var t := InitialMenuItems;
    assert Find(t, "1") == Found(t[0], t, 0);
    RemoveHome();
    InsertHome();
  }

  /** The initial menu once "Spring" is removed. */
  const MenuWithoutSpring: seq<Item> := [
    InitialMenuItems[0],
    Item("2", "Collections", [Item("2-2", "Summer", []), Item("2-3", "Fall", []), Item("2-4", "Winter", [])]),
    InitialMenuItems[2],
    InitialMenuItems[3]
  ]

  lemma RemoveSpring()
    ensures Remove(InitialMenuItems, "2-1") == MenuWithoutSpring
  {
    var t, s := InitialMenuItems, MenuWithoutSpring;
    assert t == [t[0], t[1]] + [t[2], t[3]];
    RemoveConcat([t[0], t[1]], [t[2], t[3]], "2-1");
    LastTwoIds();
    RemoveAbsent([t[2], t[3]], "2-1");
    assert PreIds(s[1].children) == ["2-2", "2-3", "2-4"];
    RemoveAbsent(s[1].children, "2-1");
    assert t[1].children[1..] == s[1].children;
    assert Remove(t[1].children, "2-1") == s[1].children;
    assert Remove([t[0], t[1]], "2-1") == [t[0], s[1]];
  }

  lemma ReinsertSpring()
    ensures Insert(MenuWithoutSpring, "2-2", Before, InitialMenuItems[1].children[0], 1) == InitialMenuItems
  {
    var t, s := InitialMenuItems, MenuWithoutSpring;
    var spring := t[1].children[0];
    assert s == [t[0], s[1]] + [t[2], t[3]];
    InsertConcat([t[0], s[1]], [t[2], t[3]], "2-2", Before, spring, 1);
    LastTwoIds();
    assert Insert([t[2], t[3]], "2-2", Before, spring, 1) == [t[2], t[3]];
    assert Insert(s[1].children, "2-2", Before, spring, 2) == t[1].children;
    assert Place(s[1], "2-2", Before, spring, 1) == [t[1]];
    assert Insert([t[0], s[1]], "2-2", Before, spring, 1) == [t[0], t[1]];
  }

  /** Dragging "Spring" before its next sibling "Summer" leaves the menu as it
      was: no duplicate of "Spring" appears. */
  lemma SpringBeforeSummer()
    ensures DropTree(InitialMenuItems, "2-1", "2-2", Before) == InitialMenuItems
  {
    var t := InitialMenuItems;
    assert Find(t, "2-1") == Found(t[1].children[0], t[1].children, 0);
    RemoveSpring();
    ReinsertSpring();
  }

  /** Dropping "Collections" after its own child "Fall" deletes Collections
      and its children. */
  lemma CollectionsAfterOwnChild()
    ensures DropTree(InitialMenuItems, "2", "2-3", After) ==
              [InitialMenuItems[0], InitialMenuItems[2], InitialMenuItems[3]]
  {
    var t := InitialMenuItems;
    assert Find(t, "2") == Found(t[1], t, 1);
    var s := [t[0], t[2], t[3]];
    assert t == [t[0], t[1]] + [t[2], t[3]];
    RemoveConcat([t[0], t[1]], [t[2], t[3]], "2");
    LastTwoIds();
    RemoveAbsent([t[2], t[3]], "2");
    assert Remove([t[0], t[1]], "2") == [t[0]];
    assert Remove(t, "2") == s;
    assert PreIds(s) == ["1", "3", "4", "4-1", "4-2"];
  }
}
