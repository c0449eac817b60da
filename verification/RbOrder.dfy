// The order of the tree's items: where an insertion puts an item and what a
// removal takes out.
module RbOrder {
  import opened RbShape

  // it goes behind every item whose key is not greater.
  function Inserted(s: seq<Item>, it: Item): seq<Item>
  {
    if s == [] || it.key < s[0].key then [it] + s else [s[0]] + Inserted(s[1..], it)
  }

  ghost predicate Fits(c: Ctx, key: nat)
  {
    && (forall x :: x in Before(c) ==> x.key <= key)
    && (forall x :: x in After(c) ==> key < x.key)
  }

  lemma {:induction false} InsertedSplit(a: seq<Item>, b: seq<Item>, it: Item)
    requires forall x :: x in a ==> x.key <= it.key
    requires forall x :: x in b ==> it.key < x.key
    ensures Inserted(a + b, it) == a + [it] + b
  {
    if a == [] {
      assert a + b == b;
    } else {
      InsertedSplit(a[1..], b, it);
      assert (a + b)[1..] == a[1..] + b;
    }
  }

  // A new item keeps the order, the old items and their relative order, and
  // stands behind all items with a key that is not greater.
  lemma {:induction false} InsertedFacts(s: seq<Item>, it: Item) returns (i: nat)
    requires Sorted(s)
    ensures i <= |s| && Inserted(s, it) == s[..i] + [it] + s[i..] && Sorted(Inserted(s, it))
    ensures forall j :: 0 <= j < i ==> s[j].key <= it.key
    ensures forall j :: i <= j < |s| ==> it.key < s[j].key
  {
    if s == [] || it.key < s[0].key {
      i := 0;
    } else {
      i := InsertedFacts(s[1..], it);
      assert [s[0]] + s[1..][..i] == s[..i + 1] && s[1..][i..] == s[i + 1..];
      i := i + 1;
    }
  }

  // In an ordered run, what stands around an item is not beyond it.
  lemma Around(a: seq<Item>, l: seq<Item>, x: Item, r: seq<Item>, b: seq<Item>)
    requires Sorted(a + (l + [x] + r) + b)
    ensures forall y :: y in l ==> y.key <= x.key
    ensures forall y :: y in r ==> x.key <= y.key
  {
    var s, p := a + (l + [x] + r) + b, |a| + |l|;
    assert s[p] == x;
    forall y | y in l
      ensures y.key <= x.key
    {
      var j :| 0 <= j < |l| && l[j] == y;
      assert s[|a| + j] == y;
    }
    forall y | y in r
      ensures x.key <= y.key
    {
      var j :| 0 <= j < |r| && r[j] == y;
      assert s[p + 1 + j] == y;
    }
  }

  lemma GoLeft(c: Ctx, t: Tree, key: nat)
    requires t.Node? && Sorted(Before(c) + Inorder(t) + After(c)) && Fits(c, key) && key < t.key
    ensures Fits(Lft(c, t.n, t.key, t.red, t.right), key)
  {
    hide Sorted;
    Around(Before(c), Inorder(t.left), Item(t.n, t.key), Inorder(t.right), After(c));
  }

  lemma GoRight(c: Ctx, t: Tree, key: nat)
    requires t.Node? && Sorted(Before(c) + Inorder(t) + After(c)) && Fits(c, key) && t.key <= key
    ensures Fits(Rgt(t.left, t.n, t.key, t.red, c), key)
  {
    hide Sorted;
    Around(Before(c), Inorder(t.left), Item(t.n, t.key), Inorder(t.right), After(c));
  }

  // Hanging a node into the empty hole that fits its key inserts its item.
  lemma HungOrder(c: Ctx, n: RbNode, key: nat)
    requires Fits(c, key)
    ensures Inorder(Plug(c, Node(Nil, n, key, true, Nil))) == Inserted(Inorder(Plug(c, Nil)), Item(n, key))
  {
    hide Inserted, Before;
    PlugOrder(c, Nil);
    PlugOrder(c, Node(Nil, n, key, true, Nil));
    InsertedSplit(Before(c), After(c), Item(n, key));
    assert Before(c) + [] + After(c) == Before(c) + After(c);
  }

  lemma HungNodes(c: Ctx, n: RbNode, key: nat)
    ensures Nodes(Plug(c, Node(Nil, n, key, true, Nil))) == Nodes(Plug(c, Nil)) + {n}
  {
    PlugNodes(c, Nil);
    PlugNodes(c, Node(Nil, n, key, true, Nil));
  }

  lemma {:induction false} OrderNodes(t: Tree, n: RbNode)
    ensures n in Nodes(t) <==> exists k :: Item(n, k) in Inorder(t)
  {
    if t.Node? {
      OrderNodes(t.left, n);
      OrderNodes(t.right, n);
      assert forall k :: Item(n, k) in Inorder(t) <==>
        Item(n, k) in Inorder(t.left) || Item(n, k) == Item(t.n, t.key) || Item(n, k) in Inorder(t.right);
      assert Item(t.n, t.key) in Inorder(t);
    }
  }

  lemma OrderNodesBoth(t: Tree, t': Tree)
    requires Inorder(t) == Inorder(t')
    ensures Nodes(t) <= Nodes(t')
  {
    forall n | n in Nodes(t)
      ensures n in Nodes(t')
    {
      OrderNodes(t, n);
      OrderNodes(t', n);
    }
  }

  lemma SameOrderSameNodes(t: Tree, t': Tree)
    requires Inorder(t) == Inorder(t')
    ensures Nodes(t) == Nodes(t')
  {
    OrderNodesBoth(t, t');
    OrderNodesBoth(t', t);
  }

  // s without the first item of node n.
  function Removed(s: seq<Item>, n: RbNode): seq<Item>
  {
    if s == [] then [] else if s[0].n == n then s[1..] else [s[0]] + Removed(s[1..], n)
  }

  lemma {:induction false} RemovedSplit(a: seq<Item>, b: seq<Item>, it: Item)
    requires forall x :: x in a ==> x.n != it.n
    ensures Removed(a + [it] + b, it.n) == a + b
  {
    if a == [] {
      assert a + [it] + b == [it] + b;
    } else {
      RemovedSplit(a[1..], b, it);
      assert (a + [it] + b)[1..] == a[1..] + [it] + b;
      assert a == [a[0]] + a[1..];
    }
  }

  lemma {:induction false} RemovedSorted(s: seq<Item>, n: RbNode)
    requires Sorted(s)
    ensures Sorted(Removed(s, n))
    ensures forall x :: x in Removed(s, n) ==> x in s
  {
    if s != [] && s[0].n != n {
      var r := Removed(s[1..], n);
      RemovedSorted(s[1..], n);
      forall i | 0 <= i < |r|
        ensures s[0].key <= r[i].key
      {
        assert r[i] in s[1..];
      }
    }
  }

  lemma {:induction false} BeforeNodes(c: Ctx, x: Item)
    requires x in Before(c)
    ensures x.n in CtxNodes(c)
  {
    match c
    case Top =>
    case Lft(up, _, _, _, _) => BeforeNodes(up, x);
    case Rgt(l, n, k, _, up) =>
      if x in Before(up) {
        BeforeNodes(up, x);
      } else if x in Inorder(l) {
        assert Item(x.n, x.key) in Inorder(l);
        OrderNodes(l, x.n);
      }
  }

  lemma NotBefore(c: Ctx, t: Tree, x: Item)
    requires t.Node? && ZipDistinct(c, t) && x in Before(c) + Inorder(t.left)
    ensures x.n != t.n
  {
    if x in Before(c) {
      BeforeNodes(c, x);
    } else {
      assert Item(x.n, x.key) in Inorder(t.left);
      OrderNodes(t.left, x.n);
    }
  }

  lemma Regroup<T>(b: seq<T>, l: seq<T>, x: seq<T>, r: seq<T>, a: seq<T>)
    ensures b + (l + x + r) + a == (b + l) + x + (r + a)
    ensures b + (l + r) + a == (b + l) + (r + a)
  {
  }

  // Taking the item of t's root out of the order.
  lemma TakenOutOrder(c: Ctx, t: Tree, t': Tree)
    requires t.Node? && ZipDistinct(c, t) && Inorder(t') == Inorder(t.left) + Inorder(t.right)
    ensures Inorder(Plug(c, t')) == Removed(Inorder(Plug(c, t)), t.n)
  {
    hide Plug, Removed, ZipDistinct, Before, After;
    var it, l, r := Item(t.n, t.key), Inorder(t.left), Inorder(t.right);
    forall x | x in Before(c) + l
      ensures x.n != t.n
    {
      NotBefore(c, t, x);
    }
    RemovedSplit(Before(c) + l, r + After(c), it);
    Regroup(Before(c), l, [it], r, After(c));
    PlugOrder(c, t);
    PlugOrder(c, t');
  }

  lemma SideOf(t: Tree, i: nat)
    requires t.Node? && i < |Inorder(t)|
    ensures i < |Inorder(t.left)| ==> Inorder(t)[i].n in Nodes(t.left)
    ensures i == |Inorder(t.left)| ==> Inorder(t)[i].n == t.n
    ensures |Inorder(t.left)| < i ==> Inorder(t)[i].n in Nodes(t.right)
  {
    var l, r := Inorder(t.left), Inorder(t.right);
    if i < |l| {
      OrderNodes(t.left, l[i].n);
      assert Item(l[i].n, l[i].key) in l;
    } else if |l| < i {
      var x := r[i - |l| - 1];
      OrderNodes(t.right, x.n);
      assert Item(x.n, x.key) in r;
    }
  }

  // No node stands twice in the order.
  lemma {:induction false} OrderDistinct(t: Tree, i: nat, j: nat)
    requires Distinct(t) && i < |Inorder(t)| && j < |Inorder(t)| && Inorder(t)[i].n == Inorder(t)[j].n
    ensures i == j
  {
    var l, r := Inorder(t.left), Inorder(t.right);
    var s := Inorder(t);
    if i < |l| && j < |l| {
      OrderDistinct(t.left, i, j);
    } else if |l| < i && |l| < j {
      OrderDistinct(t.right, i - |l| - 1, j - |l| - 1);
    } else {
      SideOf(t, i);
      SideOf(t, j);
    }
  }
}
