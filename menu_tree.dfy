/** Menu entries, drop positions, and the pre-order views of a menu forest
    in which the tree-reorder engine's properties are stated. */
module MenuTree {

  datatype Option<T> = None | Some(value: T)

  /** A menu entry. An entry whose `children` list is absent is a leaf; it is
      represented by the empty list, since no engine step tells the two apart. */
  datatype Item = Item(id: string, title: string, children: seq<Item>)

  /** Where a dropped entry is placed relative to the entry under the pointer. */
  datatype Position = Before | After | Inside

  /** Deepest level (root entries are level 1) below which `Inside` is accepted. */
  const MaxLevels: nat := 10

  /** The menu the builder starts with. */
  const InitialMenuItems: seq<Item> := [
    Item("1", "Home", []),
    Item("2", "Collections", [
      Item("2-1", "Spring", []),
      Item("2-2", "Summer", []),
      Item("2-3", "Fall", []),
      Item("2-4", "Winter", [])
    ]),
    Item("3", "About Us", []),
    Item("4", "My Account", [
      Item("4-1", "Addresses", []),
      Item("4-2", "Order History", [])
    ])
  ]

  /** The ids of every entry of the forest in pre-order: an entry, then its
      children, then its later siblings. */
  function PreIds(items: seq<Item>): seq<string>
  {
    if |items| == 0 then []
    else [items[0].id] + PreIds(items[0].children) + PreIds(items[1..])
  }

  /** Every entry of the forest in pre-order. */
  function Flatten(items: seq<Item>): seq<Item>
  {
    if |items| == 0 then []
    else [items[0]] + Flatten(items[0].children) + Flatten(items[1..])
  }

  /** Linear search of a flat list: the first entry with id `x`. */
  function FirstWith(s: seq<Item>, x: string): (r: Option<Item>)
    ensures r.Some? ==> r.value.id == x && r.value in s
    ensures r.None? <==> forall k :: 0 <= k < |s| ==> s[k].id != x
  {
    if |s| == 0 then None
    else if s[0].id == x then Some(s[0])
    else FirstWith(s[1..], x)
  }

  /** No id occurs twice. */
  predicate NoDup(s: seq<string>)
  {
    |s| == 0 || (s[0] !in s[1..] && NoDup(s[1..]))
  }

  /** `a` can be obtained from `b` by deleting elements (order is kept). */
  predicate Subseq(a: seq<string>, b: seq<string>)
    decreases |b|
  {
    |a| == 0 || (|b| > 0 && ((a[0] == b[0] && Subseq(a[1..], b[1..])) || Subseq(a, b[1..])))
  }

  // ---------------------------------------------------------------------------
  // Facts about the views

  /** The seed menu's ids are all distinct. */
  lemma SeedUnique()
    ensures NoDup(PreIds(InitialMenuItems))
  {
    SeedPreIds();
    SeedIdsUnique();
  }

  /** The seed menu's ids in pre-order. */
  lemma SeedPreIds()
    ensures PreIds(InitialMenuItems) == SeedIds
  {
    var t := InitialMenuItems;
    assert t == [t[0], t[1]] + [t[2], t[3]];
    PreIdsConcat([t[0], t[1]], [t[2], t[3]]);
    assert PreIds([t[0], t[1]]) == SeedIds[..6] by {
      assert PreIds(t[1].children) == ["2-1", "2-2", "2-3", "2-4"];
      PreIdsCons(t[0], [t[1]]);
      PreIdsCons(t[1], []);
    }
    assert PreIds([t[2], t[3]]) == SeedIds[6..] by {
      assert PreIds(t[3].children) == ["4-1", "4-2"];
      PreIdsCons(t[2], [t[3]]);
      PreIdsCons(t[3], []);
    }
    assert SeedIds == SeedIds[..6] + SeedIds[6..];
  }

  const SeedIds: seq<string> := ["1", "2", "2-1", "2-2", "2-3", "2-4", "3", "4", "4-1", "4-2"]

  lemma SeedIdsUnique()
    ensures NoDup(SeedIds)
  {
    var ids := SeedIds;
    assert NoDup(ids[9..]);
    assert NoDup(ids[8..]);
    assert NoDup(ids[7..]);
    assert NoDup(ids[6..]);
    assert NoDup(ids[5..]);
    assert NoDup(ids[4..]);
    assert NoDup(ids[3..]);
    assert NoDup(ids[2..]);
    assert NoDup(ids[1..]);
  }

  lemma PreIdsCons(n: Item, rest: seq<Item>)
    ensures PreIds([n] + rest) == [n.id] + PreIds(n.children) + PreIds(rest)
    ensures PreIds([n]) == [n.id] + PreIds(n.children)
  {
    assert ([n] + rest)[0] == n && ([n] + rest)[1..] == rest;
    assert [n][1..] == [];
  }

  lemma {:induction false} PreIdsConcat(a: seq<Item>, b: seq<Item>)
    ensures PreIds(a + b) == PreIds(a) + PreIds(b)
  {
    if |a| > 0 {
      assert a + b == [a[0]] + (a[1..] + b);
      PreIdsCons(a[0], a[1..] + b);
      PreIdsConcat(a[1..], b);
    } else {
      assert a + b == b;
    }
  }

  lemma {:induction false} FlattenConcat(a: seq<Item>, b: seq<Item>)
    ensures Flatten(a + b) == Flatten(a) + Flatten(b)
  {
    if |a| > 0 {
      assert (a + b)[0] == a[0] && (a + b)[1..] == a[1..] + b;
      FlattenConcat(a[1..], b);
    } else {
      assert a + b == b;
    }
  }

  /** Root entry `k` and every entry below it are entries of the forest. */
  lemma FlattenChild(items: seq<Item>, k: nat)
    requires k < |items|
    ensures items[k] in Flatten(items)
    ensures forall e :: e in Flatten(items[k].children) ==> e in Flatten(items)
  {
    var left, mid, right := items[..k], [items[k]], items[k+1..];
    assert mid + right == items[k..];
    assert left + items[k..] == items;
    FlattenConcat(left, items[k..]);
    FlattenConcat(mid, right);
    assert mid[1..] == [];
    assert Flatten(mid) == [items[k]] + Flatten(items[k].children) + [];
  }

  /** `p` is one of the forest's sibling lists: the root list itself, or the
      children of some entry. */
  predicate SiblingList(items: seq<Item>, p: seq<Item>)
  {
    p == items || exists e :: e in Flatten(items) && e.children == p
  }

  /** The forest's ids split around its `k`-th root entry. */
  lemma PreIdsAt(s: seq<Item>, k: nat)
    requires k < |s|
    ensures PreIds(s) == PreIds(s[..k]) + PreIds([s[k]]) + PreIds(s[k+1..])
  {
    var left, mid, right := s[..k], [s[k]], s[k+1..];
    assert PreIds(s) == PreIds(left) + PreIds(s[k..]) by {
      assert left + s[k..] == s;
      PreIdsConcat(left, s[k..]);
    }
    assert PreIds(s[k..]) == PreIds(mid) + PreIds(right) by {
      assert mid + right == s[k..];
      PreIdsConcat(mid, right);
    }
    Assoc(PreIds(left), PreIds(mid), PreIds(right));
  }

  lemma Assoc<T>(p: seq<T>, q: seq<T>, r: seq<T>)
    ensures p + (q + r) == p + q + r
  {
  }

  lemma {:induction false} FlattenIds(items: seq<Item>)
    ensures |Flatten(items)| == |PreIds(items)|
    ensures forall k :: 0 <= k < |Flatten(items)| ==> Flatten(items)[k].id == PreIds(items)[k]
  {
    if |items| > 0 {
      FlattenIds(items[0].children);
      FlattenIds(items[1..]);
    }
  }

  /** An id occurs in the forest exactly when the pre-order search finds an entry. */
  lemma InPreIds(items: seq<Item>, x: string)
    ensures x in PreIds(items) <==> FirstWith(Flatten(items), x).Some?
  {
    FlattenIds(items);
    var f, p := Flatten(items), PreIds(items);
    if x in p {
      var k :| 0 <= k < |p| && p[k] == x;
      assert f[k].id == x;
    }
    if FirstWith(f, x).Some? {
      var k :| 0 <= k < |f| && f[k].id == x;
      assert p[k] == x;
    }
  }

  lemma {:induction false} FirstWithConcat(a: seq<Item>, b: seq<Item>, x: string)
    ensures FirstWith(a + b, x) == if FirstWith(a, x).Some? then FirstWith(a, x) else FirstWith(b, x)
  {
    if |a| > 0 {
      assert (a + b)[0] == a[0] && (a + b)[1..] == a[1..] + b;
      FirstWithConcat(a[1..], b, x);
    } else {
      assert a + b == b;
    }
  }

  /** The pre-order search over a non-empty forest: the first root entry, then
      its subtree, then the later siblings. */
  lemma FirstWithCons(items: seq<Item>, x: string)
    requires |items| > 0
    ensures FirstWith(Flatten(items), x) ==
              if items[0].id == x then Some(items[0])
              else if x in PreIds(items[0].children) then FirstWith(Flatten(items[0].children), x)
              else FirstWith(Flatten(items[1..]), x)
  {
    var n := items[0];
    assert Flatten(items)[1..] == Flatten(n.children) + Flatten(items[1..]);
    InPreIds(n.children, x);
    FirstWithConcat(Flatten(n.children), Flatten(items[1..]), x);
  }

  lemma Regroup<T>(p: seq<T>, q: seq<T>, r: seq<T>, s: seq<T>)
    ensures p + (q + r + s) == p + q + r + s
    ensures p + (q + r) + s == (p + q) + (r + s)
    ensures p + q + (r + s) == (p + q + r) + s
  {
  }

  lemma Unsplice<T>(p: seq<T>, q: seq<T>)
    ensures p + [] + q == p + q
  {
  }

  lemma Splice<T>(p: seq<T>, q: seq<T>, r: seq<T>, s: seq<T>, t: seq<T>)
    ensures p + (q + r + s) + t == (p + q) + r + (s + t)
  {
  }

  /** Uniqueness of a concatenation: both parts unique and no id shared. */
  lemma {:induction false} NoDupConcat(a: seq<string>, b: seq<string>)
    ensures NoDup(a + b) <==> NoDup(a) && NoDup(b) && forall y :: y in a ==> y !in b
  {
    if |a| > 0 {
      assert (a + b)[0] == a[0] && (a + b)[1..] == a[1..] + b;
      NoDupConcat(a[1..], b);
      assert forall y :: y in a <==> y == a[0] || y in a[1..];
    } else {
      assert a + b == b;
    }
  }

  /** Uniqueness of a forest `[n] + rest` splits into uniqueness of each part. */
  lemma UniqueCons(n: Item, rest: seq<Item>)
    requires NoDup(PreIds([n] + rest))
    ensures NoDup(PreIds(n.children)) && NoDup(PreIds(rest))
    ensures n.id !in PreIds(n.children) && n.id !in PreIds(rest)
    ensures forall y :: y in PreIds(n.children) ==> y !in PreIds(rest)
  {
    PreIdsCons(n, rest);
    var c, r := PreIds(n.children), PreIds(rest);
    assert [n.id] + c + r == [n.id] + (c + r);
    NoDupConcat([n.id], c + r);
    NoDupConcat(c, r);
  }

  /** Inserting a block of fresh ids anywhere keeps a list unique. */
  lemma NoDupInsertBlock(a: seq<string>, d: seq<string>, b: seq<string>)
    requires NoDup(a + b) && NoDup(d)
    requires forall y :: y in d ==> y !in a + b
    ensures NoDup(a + d + b)
  {
    NoDupConcat(a, b);
    NoDupConcat(a, d);
    forall y | y in a + d ensures y !in b {
      if y in d { assert y !in a + b; }
    }
    NoDupConcat(a + d, b);
  }

  lemma {:induction false} SubseqRefl(a: seq<string>)
    ensures Subseq(a, a)
  {
    if |a| > 0 { SubseqRefl(a[1..]); }
  }

  lemma {:induction false} SubseqDropLeft(a: seq<string>, c: seq<string>, b: seq<string>)
    requires Subseq(a, b)
    ensures Subseq(a, c + b)
    decreases |c|
  {
    if |c| > 0 {
      SubseqDropLeft(a, c[1..], b);
      assert (c + b)[1..] == c[1..] + b;
    } else {
      assert c + b == b;
    }
  }

  lemma {:induction false} SubseqConcat(a1: seq<string>, b1: seq<string>, a2: seq<string>, b2: seq<string>)
    requires Subseq(a1, b1) && Subseq(a2, b2)
    ensures Subseq(a1 + a2, b1 + b2)
    decreases |b1|
  {
    if |a1| == 0 {
      assert a1 + a2 == a2;
      SubseqDropLeft(a2, b1, b2);
    } else {
      assert (b1 + b2)[1..] == b1[1..] + b2;
      if a1[0] == b1[0] && Subseq(a1[1..], b1[1..]) {
        SubseqConcat(a1[1..], b1[1..], a2, b2);
        assert (a1 + a2)[1..] == a1[1..] + a2;
      } else {
        SubseqConcat(a1, b1[1..], a2, b2);
      }
    }
  }
}
