/** The node remover: deletes every entry with a given id, at any depth,
    together with its whole subtree. */
module Removal {
  import opened MenuTree

  /** Keeps the siblings whose id differs from `x`, each with `x` removed from
      its own children; a matching entry is dropped before its children are
      looked at. */
  function Remove(items: seq<Item>, x: string): (r: seq<Item>)
    ensures x !in PreIds(r)
  {
    if |items| == 0 then []
    else if items[0].id == x then Remove(items[1..], x)
    else
      var kept := items[0].(children := Remove(items[0].children, x));
      PreIdsCons(kept, Remove(items[1..], x));
      [kept] + Remove(items[1..], x)
  }

  /** Removal acts on each sibling independently. */
  lemma {:induction false} RemoveConcat(a: seq<Item>, b: seq<Item>, x: string)
    ensures Remove(a + b, x) == Remove(a, x) + Remove(b, x)
  {
    if |a| > 0 {
      assert (a + b)[0] == a[0] && (a + b)[1..] == a[1..] + b;
      RemoveConcat(a[1..], b, x);
    } else {
      assert a + b == b;
    }
  }

  /** Removing an id that occurs nowhere leaves the forest as it was. */
  lemma {:induction false} RemoveAbsent(items: seq<Item>, x: string)
    requires x !in PreIds(items)
    ensures Remove(items, x) == items
  {
    if |items| > 0 {
      RemoveAbsent(items[0].children, x);
      RemoveAbsent(items[1..], x);
      assert items == [items[0]] + items[1..];
    }
  }

  /** Whatever the ids, the survivors keep their pre-order: the remaining ids
      are the original ones with some deleted. */
  lemma {:induction false} RemoveKeepsOrder(items: seq<Item>, x: string)
    ensures Subseq(PreIds(Remove(items, x)), PreIds(items))
  {
    if |items| > 0 {
      var n, rest := items[0], items[1..];
      RemoveKeepsOrder(rest, x);
      if n.id == x {
        SubseqDropLeft(PreIds(Remove(rest, x)), [n.id] + PreIds(n.children), PreIds(rest));
      } else {
        RemoveKeepsOrder(n.children, x);
        var kept := n.(children := Remove(n.children, x));
        PreIdsCons(kept, Remove(rest, x));
        SubseqRefl([n.id]);
        SubseqConcat([n.id], [n.id], PreIds(Remove(n.children, x)), PreIds(n.children));
        SubseqConcat([n.id] + PreIds(Remove(n.children, x)), [n.id] + PreIds(n.children),
                     PreIds(Remove(rest, x)), PreIds(rest));
      }
    }
  }

  /** With unique ids, removing a present id cuts exactly the contiguous
      pre-order block of that entry's subtree: every other entry survives, in
      the same order, and the count drops by the subtree's size. */
  lemma {:induction false} RemoveExact(items: seq<Item>, x: string)
    returns (node: Item, a: seq<string>, b: seq<string>)
    requires NoDup(PreIds(items)) && x in PreIds(items)
    ensures FirstWith(Flatten(items), x) == Some(node)
    ensures PreIds(items) == a + PreIds([node]) + b
    ensures PreIds(Remove(items, x)) == a + b
  {
    var n, rest := items[0], items[1..];
    assert items == [n] + rest && PreIds(items) == [n.id] + PreIds(n.children) + PreIds(rest) &&
                  Flatten(items)[0] == n by {
      PreIdsCons(n, rest);
    }
    assert NoDup(PreIds(n.children)) && NoDup(PreIds(rest)) &&
                   n.id !in PreIds(n.children) && n.id !in PreIds(rest) &&
                   forall y :: y in PreIds(n.children) ==> y !in PreIds(rest) by {
      UniqueCons(n, rest);
    }
    FirstWithCons(items, x);
    var kept := n.(children := Remove(n.children, x));
    if n.id == x {
      node, a, b := n, [], PreIds(rest);
      assert PreIds(items) == a + PreIds([n]) + b && PreIds(Remove(items, x)) == a + b by {
        PreIdsCons(n, rest);
        RemoveAbsent(rest, x);
      }
    } else if x in PreIds(n.children) {
      var a', b';
      node, a', b' := RemoveExact(n.children, x);
      var block := PreIds([node]);
      a, b := [n.id] + a', b' + PreIds(rest);
      assert PreIds(items) == a + block + b && PreIds(Remove(items, x)) == a + b by {
        RemoveAbsent(rest, x);
        PreIdsCons(kept, rest);
        Splice([n.id], a', block, b', PreIds(rest));
        assert Remove(items, x) == [kept] + rest;
        assert PreIds(Remove(items, x)) == [n.id] + (a' + b') + PreIds(rest);
        Regroup([n.id], a', b', PreIds(rest));
      }
    } else {
      var a', b';
      node, a', b' := RemoveExact(rest, x);
      var block := PreIds([node]);
      a, b := [n.id] + PreIds(n.children) + a', b';
      assert PreIds(items) == a + block + b && PreIds(Remove(items, x)) == a + b by {
        RemoveAbsent(n.children, x);
        assert kept == n;
        PreIdsCons(kept, Remove(rest, x));
        Regroup([n.id] + PreIds(n.children), a', block, b');
        assert Remove(items, x) == [kept] + Remove(rest, x);
        assert PreIds(Remove(items, x)) == [n.id] + PreIds(n.children) + (a' + b');
        Regroup([n.id], PreIds(n.children), a', b');
      }
    }
  }

  /** With unique ids, removing a root entry's id deletes just that entry
      from its sibling list; every other root entry keeps its place and
      contents. */
  lemma RemoveAt(s: seq<Item>, k: nat)
    requires NoDup(PreIds(s)) && k < |s|
    ensures Remove(s, s[k].id) == s[..k] + s[k+1..]
  {
    var x, left, right := s[k].id, s[..k], s[k+1..];
    assert x in PreIds([s[k]]) by {
      PreIdsCons(s[k], []);
    }
    RemoveUntouched(s, k, x);
    RemoveSelf(s[k]);
    Unsplice(left, right);
  }

  lemma RemoveSelf(n: Item)
    ensures Remove([n], n.id) == []
  {
    assert [n][1..] == [];
  }

  /** With unique ids, removing an id that lies under root entry `k` rewrites
      only that entry's children; every other root entry keeps its place and
      contents. */
  lemma RemoveBelow(s: seq<Item>, k: nat, x: string)
    requires NoDup(PreIds(s)) && k < |s| && x in PreIds(s[k].children)
    ensures Remove(s, x) == s[..k] + [s[k].(children := Remove(s[k].children, x))] + s[k+1..]
  {
    PreIdsCons(s[k], []);
    RemoveUntouched(s, k, x);
    UniqueCons(s[k], []);
    assert [s[k]][1..] == [];
    assert Remove([s[k]], x) == [s[k].(children := Remove(s[k].children, x))] + Remove([], x);
  }

  /** When `x` occurs in root entry `k`'s subtree, the removal only acts on
      that entry. */
  lemma RemoveUntouched(s: seq<Item>, k: nat, x: string)
    requires NoDup(PreIds(s)) && k < |s| && x in PreIds([s[k]])
    ensures Remove(s, x) == s[..k] + Remove([s[k]], x) + s[k+1..]
    ensures NoDup(PreIds([s[k]] + []))
  {
    assert [s[k]] + [] == [s[k]];
    var left, mid, right := s[..k], [s[k]], s[k+1..];
    PreIdsAt(s, k);
    NoDupConcat(PreIds(left) + PreIds(mid), PreIds(right));
    NoDupConcat(PreIds(left), PreIds(mid));
    assert s == left + mid + right;
    RemoveConcat(left + mid, right, x);
    RemoveConcat(left, mid, x);
    RemoveAbsent(left, x);
    RemoveAbsent(right, x);
  }
}
