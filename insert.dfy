/** The node inserter: places the dragged entry before, after or inside every
    entry with the target id, refusing `Inside` at or beyond the nesting limit. */
module Insertion {
  import opened MenuTree

  /** The level of the first entry with id `x` in pre-order, counting the
      given forest's roots as level `level`. */
  function LevelOf(items: seq<Item>, x: string, level: nat): (r: Option<nat>)
    ensures r.Some? <==> x in PreIds(items)
    ensures r.Some? ==> r.value >= level
  {
    if |items| == 0 then None
    else if items[0].id == x then Some(level)
    else
      var below := LevelOf(items[0].children, x, level + 1);
      if below.Some? then below else LevelOf(items[1..], x, level)
  }

  /** The dragged entry is placed: the target exists, and an `Inside` drop
      targets an entry above the nesting limit. */
  predicate Accepts(items: seq<Item>, x: string, pos: Position, level: nat)
  {
    LevelOf(items, x, level).Some? && (pos != Inside || LevelOf(items, x, level).value < MaxLevels)
  }

  /** What one sibling becomes. A matching sibling gets the dragged entry
      beside it, or appended to its children while `level` is below the limit,
      and is not searched further; any other sibling (and a match whose
      `Inside` is refused) is kept with the insertion applied to its children. */
  function Place(item: Item, target: string, pos: Position, dragged: Item, level: nat): (r: seq<Item>)
    ensures target !in PreIds([item]) ==> r == [item]
    decreases item
  {
    PreIdsCons(item, []);
    if item.id == target && pos == Before then [dragged, item]
    else if item.id == target && pos == After then [item, dragged]
    else if item.id == target && pos == Inside && level < MaxLevels then
      [item.(children := item.children + [dragged])]
    else
      [item.(children := Insert(item.children, target, pos, dragged, level + 1))]
  }

  /** The insertion over a sibling list at level `level`: each sibling is
      replaced by what it becomes, in order. */
  function Insert(items: seq<Item>, target: string, pos: Position, dragged: Item, level: nat): (r: seq<Item>)
    ensures target !in PreIds(items) ==> r == items
    decreases items
  {
    if |items| == 0 then []
    else
      PreIdsCons(items[0], items[1..]);
      assert items == [items[0]] + items[1..];
      Place(items[0], target, pos, dragged, level) + Insert(items[1..], target, pos, dragged, level)
  }

  lemma {:induction false} InsertConcat(a: seq<Item>, b: seq<Item>, x: string, pos: Position, d: Item, level: nat)
    ensures Insert(a + b, x, pos, d, level) == Insert(a, x, pos, d, level) + Insert(b, x, pos, d, level)
  {
    if |a| > 0 {
      assert (a + b)[0] == a[0] && (a + b)[1..] == a[1..] + b;
      InsertConcat(a[1..], b, x, pos, d, level);
    } else {
      assert a + b == b;
    }
  }

  /** With unique ids, a refused insertion (target missing, or `Inside` at or
      beyond the limit) leaves the forest exactly as it was. */
  lemma {:induction false} InsertRefused(s: seq<Item>, x: string, pos: Position, d: Item, level: nat)
    requires NoDup(PreIds(s)) && !Accepts(s, x, pos, level)
    ensures Insert(s, x, pos, d, level) == s
  {
    if |s| > 0 && x in PreIds(s) {
      var n, rest := s[0], s[1..];
      assert s == [n] + rest;
      PreIdsCons(n, rest);
      UniqueCons(n, rest);
      if n.id == x {
        assert Place(n, x, pos, d, level) == [n];
      } else if x in PreIds(n.children) {
        InsertRefused(n.children, x, pos, d, level + 1);
        assert Place(n, x, pos, d, level) == [n];
      } else {
        InsertRefused(rest, x, pos, d, level);
      }
    }
  }

  /** With unique ids, an accepted insertion adds exactly the dragged entry's
      pre-order block: before the target's block for `Before`, after the
      target's id (after its subtree, or as the last child) otherwise. */
  lemma {:induction false} InsertIds(s: seq<Item>, x: string, pos: Position, d: Item, level: nat)
    returns (a: seq<string>, b: seq<string>)
    requires NoDup(PreIds(s)) && Accepts(s, x, pos, level)
    ensures PreIds(s) == a + b
    ensures PreIds(Insert(s, x, pos, d, level)) == a + PreIds([d]) + b
    ensures pos == Before ==> |b| > 0 && b[0] == x
    ensures pos != Before ==> x in a
  {
    var n, rest := s[0], s[1..];
    var r := Insert(s, x, pos, d, level);
    var dIds := PreIds([d]);
    assert s == [n] + rest && r == Place(n, x, pos, d, level) + Insert(rest, x, pos, d, level);
    assert PreIds(s) == [n.id] + PreIds(n.children) + PreIds(rest) by {
      PreIdsCons(n, rest);
    }
    if n.id == x {
      a, b := InsertIdsHere(s, x, pos, d, level);
    } else if x in PreIds(n.children) {
      assert NoDup(PreIds(n.children)) && x !in PreIds(rest) && Accepts(n.children, x, pos, level + 1) by {
        UniqueCons(n, rest);
      }
      var a', b' := InsertIds(n.children, x, pos, d, level + 1);
      a, b := [n.id] + a', b' + PreIds(rest);
      assert PreIds(s) == a + b && PreIds(r) == a + dIds + b by {
        assert Insert(rest, x, pos, d, level) == rest;
        var n' := n.(children := Insert(n.children, x, pos, d, level + 1));
        assert r == [n'] + rest;
        PreIdsCons(n', rest);
        Regroup([n.id], a', b', PreIds(rest));
        Splice([n.id], a', dIds, b', PreIds(rest));
      }
      assert (pos == Before ==> |b| > 0 && b[0] == x) && (pos != Before ==> x in a);
    } else {
      assert NoDup(PreIds(rest)) && x !in PreIds(n.children) && Accepts(rest, x, pos, level) by {
        UniqueCons(n, rest);
      }
      var a', b' := InsertIds(rest, x, pos, d, level);
      a, b := [n.id] + PreIds(n.children) + a', b';
      assert PreIds(s) == a + b && PreIds(r) == a + dIds + b by {
        assert Place(n, x, pos, d, level) == [n];
        PreIdsCons(n, Insert(rest, x, pos, d, level));
        Regroup([n.id], PreIds(n.children), a', b');
        Regroup([n.id] + PreIds(n.children), a', dIds, b');
      }
      assert pos != Before ==> x in a;
    }
  }

  /** The base case of InsertIds: the target is the first root entry. The
      dragged block goes before that entry's block for `Before`, and right
      after it (after its subtree, or after its last child) otherwise. */
  lemma InsertIdsHere(s: seq<Item>, x: string, pos: Position, d: Item, level: nat)
    returns (a: seq<string>, b: seq<string>)
    requires NoDup(PreIds(s)) && Accepts(s, x, pos, level) && |s| > 0 && s[0].id == x
    ensures PreIds(s) == a + b
    ensures PreIds(Insert(s, x, pos, d, level)) == a + PreIds([d]) + b
    ensures pos == Before ==> |b| > 0 && b[0] == x
    ensures pos != Before ==> x in a
    ensures pos == Before ==> a == []
    ensures pos != Before ==> a == PreIds([s[0]]) && b == PreIds(s[1..])
  {
    var n, rest := s[0], s[1..];
    var r := Insert(s, x, pos, d, level);
    var dIds := PreIds([d]);
    assert s == [n] + rest && r == Place(n, x, pos, d, level) + rest && PreIds(s) == [x] + PreIds(n.children) + PreIds(rest) by {
      PreIdsCons(n, rest);
      PreIdsCons(n, []);
      UniqueCons(n, rest);
    }
    if pos == Before {
      a, b := [], PreIds(s);
      assert PreIds(r) == dIds + PreIds(s) by {
        assert r == [d] + s;
        PreIdsConcat([d], s);
      }
    } else if pos == After {
      a, b := [x] + PreIds(n.children), PreIds(rest);
      assert PreIds(r) == a + dIds + b by {
        assert r == [n] + ([d] + rest);
        PreIdsCons(n, [d] + rest);
        PreIdsConcat([d], rest);
        Regroup(a, dIds, b, []);
      }
    } else {
      a, b := [x] + PreIds(n.children), PreIds(rest);
      assert PreIds(r) == a + dIds + b by {
        var n' := n.(children := n.children + [d]);
        assert r == [n'] + rest;
        PreIdsCons(n', rest);
        PreIdsConcat(n.children, [d]);
        Regroup([x], PreIds(n.children), dIds, b);
      }
    }
  }

  /** With unique ids, an insertion at a root-level target rewrites only that
      root list: the dragged entry goes immediately before or after the
      target, or becomes the target's last child when below the limit; every
      other root entry keeps its place and contents. */
  lemma InsertAt(s: seq<Item>, k: nat, pos: Position, d: Item, level: nat)
    requires NoDup(PreIds(s)) && k < |s|
    ensures Insert(s, s[k].id, pos, d, level) ==
              s[..k] +
              (if pos == Before then [d, s[k]]
               else if pos == After then [s[k], d]
               else if level < MaxLevels then [s[k].(children := s[k].children + [d])]
               else [s[k]]) +
              s[k+1..]
  {
    var x := s[k].id;
    Untouched(s, k, x, pos, d, level);
    PreIdsCons(s[k], []);
    UniqueCons(s[k], []);
    assert [s[k]][1..] == [];
    assert Insert([s[k]], x, pos, d, level) == Place(s[k], x, pos, d, level);
  }

  /** With unique ids, an insertion whose target lies under root entry `k`
      rewrites only that entry's children: every other root entry keeps its
      place and contents. */
  lemma InsertBelow(s: seq<Item>, k: nat, x: string, pos: Position, d: Item, level: nat)
    requires NoDup(PreIds(s)) && k < |s| && x in PreIds(s[k].children)
    ensures Insert(s, x, pos, d, level) ==
              s[..k] + [s[k].(children := Insert(s[k].children, x, pos, d, level + 1))] + s[k+1..]
  {
    PreIdsCons(s[k], []);
    Untouched(s, k, x, pos, d, level);
    UniqueCons(s[k], []);
    assert [s[k]][1..] == [];
    assert Insert([s[k]], x, pos, d, level) == Place(s[k], x, pos, d, level);
  }

  /** When the target occurs in root entry `k`'s subtree, the insertion only
      acts on that entry. */
  lemma Untouched(s: seq<Item>, k: nat, x: string, pos: Position, d: Item, level: nat)
    requires NoDup(PreIds(s)) && k < |s| && x in PreIds([s[k]])
    ensures Insert(s, x, pos, d, level) == s[..k] + Insert([s[k]], x, pos, d, level) + s[k+1..]
    ensures NoDup(PreIds([s[k]] + []))
  {
    assert [s[k]] + [] == [s[k]];
    var left, mid, right := s[..k], [s[k]], s[k+1..];
    PreIdsAt(s, k);
    NoDupConcat(PreIds(left) + PreIds(mid), PreIds(right));
    NoDupConcat(PreIds(left), PreIds(mid));
    assert s == left + mid + right;
    InsertConcat(left + mid, right, x, pos, d, level);
    InsertConcat(left, mid, x, pos, d, level);
  }
}
