/** The node locator: a depth-first, pre-order search by id that reports the
    entry together with the sibling list holding it and its index there. */
module Locate {
  import opened MenuTree

  /** A found entry, the list it sits in and its index, or the not-found
      sentinel that stands for the source's `(null, null, -1)`. */
  datatype Located = NotFound | Found(node: Item, parent: seq<Item>, index: nat)

  /** The search from sibling `i` onwards: each sibling is checked before its
      children are searched, and the first match wins. What it finds sits at
      `index` in `parent`, which is one of the forest's own sibling lists. */
  function FindFrom(items: seq<Item>, x: string, i: nat): (r: Located)
    requires i <= |items|
    ensures r.Found? ==> r.node.id == x && r.index < |r.parent| && r.parent[r.index] == r.node
    ensures r.Found? ==> SiblingList(items, r.parent)
    decreases items, |items| - i
  {
    if i == |items| then NotFound
    else if items[i].id == x then Found(items[i], items, i)
    else
      var below := FindFrom(items[i].children, x, 0);
      if below.Found? then
        FlattenChild(items, i);
        assert SiblingList(items, below.parent) by {
          if below.parent != items[i].children {
            var e :| e in Flatten(items[i].children) && e.children == below.parent;
            assert e in Flatten(items);
          }
        }
        below
      else FindFrom(items, x, i + 1)
  }

  function Find(items: seq<Item>, x: string): Located
  {
    FindFrom(items, x, 0)
  }

  /** The search from sibling `i` finds an entry exactly when the id occurs in
      the remaining siblings' subtrees, and what it finds is the first entry
      with that id in pre-order. */
  lemma {:induction false} FindFromSpec(items: seq<Item>, x: string, i: nat)
    requires i <= |items|
    ensures FindFrom(items, x, i).Found? <==> x in PreIds(items[i..])
    ensures FirstWith(Flatten(items[i..]), x) ==
              if FindFrom(items, x, i).Found? then Some(FindFrom(items, x, i).node) else None
    decreases items, |items| - i
  {
    if i < |items| {
      var n, rest := items[i], items[i+1..];
      assert items[i..] == [n] + rest;
      PreIdsCons(n, rest);
      assert Flatten(items[i..]) == [n] + Flatten(n.children) + Flatten(rest) by {
        assert ([n] + rest)[0] == n && ([n] + rest)[1..] == rest;
      }
      if n.id != x {
        assert n.children[0..] == n.children;
        FindFromSpec(n.children, x, 0);
        FindFromSpec(items, x, i + 1);
        assert ([n] + Flatten(n.children) + Flatten(rest))[1..] == Flatten(n.children) + Flatten(rest);
        FirstWithConcat(Flatten(n.children), Flatten(rest), x);
      }
    }
  }

  /** The whole-forest search succeeds exactly when the id occurs at some
      depth; it returns the first such entry in pre-order, which sits in
      `parent` at `index`. */
  lemma FindSpec(items: seq<Item>, x: string)
    ensures Find(items, x).Found? <==> x in PreIds(items)
    ensures Find(items, x).Found? ==>
              var r := Find(items, x);
              r.node.id == x && r.parent[r.index] == r.node && SiblingList(items, r.parent) &&
              FirstWith(Flatten(items), x) == Some(r.node)
    ensures Find(items, x).NotFound? ==> FirstWith(Flatten(items), x).None?
  {
    assert items[0..] == items;
    FindFromSpec(items, x, 0);
  }

  /** The locator as the source runs it: an indexed loop over the siblings
      with an early return, recursing into each sibling's children. */
  method FindMenuItem(items: seq<Item>, x: string) returns (r: Located)
    ensures r == Find(items, x)
    decreases items
  {
    var i := 0;
    while i < |items|
      invariant i <= |items|
      invariant FindFrom(items, x, i) == Find(items, x)
    {
      if items[i].id == x {
        return Found(items[i], items, i);
      }
      var below := FindMenuItem(items[i].children, x);
      if below.Found? {
        return below;
      }
      i := i + 1;
    }
    return NotFound;
  }
}
