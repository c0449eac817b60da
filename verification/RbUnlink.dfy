// Taking a node out of a tree that lies in memory.
module RbUnlink {
  import opened RbShape
  import opened RbMemory
  import opened RbZip
  import opened RbDelete

  // Like HoldsZip; an empty hole has the sentinel's parent link lead to the parent.
  ghost predicate HoldsHole(c: Ctx, t: Tree, nil: RbNode, root: RbNode, m: Mem)
  {
    HoldsZip(c, t, nil, root, m) && (!c.Top? ==> ParentOf(m, Ptr(t, nil)) == c.n)
  }

  function OnlyChild(t: Tree): Tree
    requires t.Node?
  {
    if t.left.Nil? then t.right else t.left
  }

  // The memory after the link from c to its hole was made to lead to kid.
  ghost function HoleLinked(c: Ctx, kid: RbNode, m: Mem): Mem
  {
    match c
    case Top => m
    case Lft(_, n, _, _, _) => m.(left := m.left[n := kid])
    case Rgt(_, n, _, _, _) => m.(right := m.right[n := kid])
  }

  ghost function Spliced(c: Ctx, x: Tree, nil: RbNode, m: Mem): Mem
    requires !c.Top?
  {
    var m' := HoleLinked(c, Ptr(x, nil), m);
    m'.(parent := m'.parent[Ptr(x, nil) := c.n])
  }

  lemma SplicedBelow(c: Ctx, t: Tree, nil: RbNode, root: RbNode, m: Mem)
    requires HoldsZip(c, t, nil, root, m) && t.Node? && (t.left.Nil? || t.right.Nil?) && !c.Top?
    ensures Holds(OnlyChild(t), nil, Spliced(c, OnlyChild(t), nil, m))
  {
    var x := OnlyChild(t);
    assert Holds(x, nil, m) && Distinct(x);
    assert c.n in CtxNodes(c);
    MovedHolds(x, nil, m, Spliced(c, x, nil, m));
  }

  lemma SplicedElsewhere(c: Ctx, x: Tree, nil: RbNode, m: Mem, o: RbNode)
    requires !c.Top? && o != c.n && o != Ptr(x, nil)
    ensures SameAt(o, m, Spliced(c, x, nil, m))
  {
  }

  lemma SplicedLinks(c: Ctx, x: Tree, nil: RbNode, m: Mem)
    requires !c.Top? && Ptr(x, nil) !in CtxNodes(c)
    ensures Relinked(c, m, Spliced(c, x, nil, m))
    ensures c.Lft? ==> LeftOf(Spliced(c, x, nil, m), c.n) == Ptr(x, nil)
    ensures c.Rgt? ==> RightOf(Spliced(c, x, nil, m), c.n) == Ptr(x, nil)
  {
    hide SameAt;
    forall o | o in CtxNodes(c) && o != c.n
      ensures SameAt(o, m, Spliced(c, x, nil, m))
    {
      SplicedElsewhere(c, x, nil, m, o);
    }
  }

  lemma SplicedAbove(c: Ctx, t: Tree, nil: RbNode, root: RbNode, m: Mem)
    requires HoldsZip(c, t, nil, root, m) && t.Node? && (t.left.Nil? || t.right.Nil?) && !c.Top?
    ensures HoldsCtx(c, Ptr(OnlyChild(t), nil), nil, root, Spliced(c, OnlyChild(t), nil, m))
  {
    hide HoldsCtx, Spliced;
    var x := OnlyChild(t);
    assert Ptr(x, nil) !in CtxNodes(c);
    SplicedLinks(c, x, nil, m);
    RelinkHolds(c, t.n, Ptr(x, nil), nil, root, root, m, Spliced(c, x, nil, m));
  }

  lemma SplicedZip(c: Ctx, t: Tree, nil: RbNode, root: RbNode, m: Mem)
    requires HoldsZip(c, t, nil, root, m) && t.Node? && (t.left.Nil? || t.right.Nil?) && !c.Top?
    ensures HoldsHole(c, OnlyChild(t), nil, root, Spliced(c, OnlyChild(t), nil, m))
    ensures Nodes(OnlyChild(t)) == Nodes(t) - {t.n}
  {
    SplicedBelow(c, t, nil, root, m);
    SplicedAbove(c, t, nil, root, m);
  }

  function PlaceCopied(node: RbNode, subst: RbNode, m: Mem): Mem
  {
    m.(left := m.left[subst := LeftOf(m, node)], right := m.right[subst := RightOf(m, node)],
       parent := m.parent[subst := ParentOf(m, node)], red := m.red[subst := RedOf(m, node)])
  }

  function ChildrenAdopted(l: Tree, r: Tree, subst: RbNode, m: Mem): Mem
  {
    var p1 := if l.Node? then m.parent[l.n := subst] else m.parent;
    m.(parent := if r.Node? then p1[r.n := subst] else p1)
  }

  // The memory after subst took over the place and the colour of node, whose
  // children are the trees l and r.
  ghost function PlaceTaken(c: Ctx, l: Tree, node: RbNode, r: Tree, subst: RbNode, m: Mem): Mem
  {
    ChildrenAdopted(l, r, subst, HoleLinked(c, subst, PlaceCopied(node, subst, m)))
  }

  // What must hold before subst takes the place: all of the new tree, but for
  // the links of subst and the parent links of its children.
  ghost predicate PlaceReady(c: Ctx, z: Tree, node: RbNode, nil: RbNode, root: RbNode, m: Mem)
  {
    && z.Node? && ZipDistinct(c, z) && nil !in CtxNodes(c) && nil !in Nodes(z)
    && HoldsCtx(c, node, nil, root, m) && Holds(z.left, nil, m) && Holds(z.right, nil, m)
    && KeyOf(m, z.n) == z.key && RedOf(m, node) == z.red
    && LeftOf(m, node) == Ptr(z.left, nil) && RightOf(m, node) == Ptr(z.right, nil)
    && (!c.Top? ==> ParentOf(m, node) == c.n)
  }

  lemma CopiedElsewhere(node: RbNode, subst: RbNode, m: Mem, s: set<RbNode>)
    requires subst !in s
    ensures Same(s, m, PlaceCopied(node, subst, m))
  {
  }

  lemma LinkedElsewhere(c: Ctx, kid: RbNode, m: Mem, s: set<RbNode>)
    requires c.Top? || c.n !in s
    ensures Same(s, m, HoleLinked(c, kid, m))
  {
  }

  lemma AdoptedElsewhere(l: Tree, r: Tree, subst: RbNode, m: Mem, s: set<RbNode>)
    requires (l.Node? ==> l.n !in s) && (r.Node? ==> r.n !in s)
    ensures Same(s, m, ChildrenAdopted(l, r, subst, m))
  {
  }

  lemma SameThrice(s: set<RbNode>, m0: Mem, m1: Mem, m2: Mem, m3: Mem)
    requires Same(s, m0, m1) && Same(s, m1, m2) && Same(s, m2, m3)
    ensures Same(s, m0, m3)
  {
  }

  lemma PlaceTakenElsewhere(c: Ctx, l: Tree, node: RbNode, r: Tree, subst: RbNode, m: Mem, s: set<RbNode>)
    requires subst !in s && (c.Top? || c.n !in s) && (l.Node? ==> l.n !in s) && (r.Node? ==> r.n !in s)
    ensures Same(s, m, PlaceTaken(c, l, node, r, subst, m))
  {
    hide PlaceCopied, HoleLinked, ChildrenAdopted, Same;
    var m1 := PlaceCopied(node, subst, m);
    var m2 := HoleLinked(c, subst, m1);
    CopiedElsewhere(node, subst, m, s);
    LinkedElsewhere(c, subst, m1, s);
    AdoptedElsewhere(l, r, subst, m2, s);
    SameThrice(s, m, m1, m2, PlaceTaken(c, l, node, r, subst, m));
  }

  lemma PlaceTakenHole(c: Ctx, l: Tree, node: RbNode, r: Tree, subst: RbNode, m: Mem)
    requires !c.Top? && c.n != subst && (l.Node? ==> l.n != c.n) && (r.Node? ==> r.n != c.n)
    ensures var m' := PlaceTaken(c, l, node, r, subst, m);
      && KeyOf(m', c.n) == KeyOf(m, c.n) && RedOf(m', c.n) == RedOf(m, c.n) && ParentOf(m', c.n) == ParentOf(m, c.n)
      && LeftOf(m', c.n) == (if c.Lft? then subst else LeftOf(m, c.n))
      && RightOf(m', c.n) == (if c.Rgt? then subst else RightOf(m, c.n))
  {
  }

  lemma PlaceTakenChildren(c: Ctx, l: Tree, node: RbNode, r: Tree, subst: RbNode, m: Mem)
    requires l.Node? ==> l.n != subst && (c.Top? || c.n != l.n)
    requires r.Node? ==> r.n != subst && (c.Top? || c.n != r.n)
    ensures var m' := PlaceTaken(c, l, node, r, subst, m);
      && IsChild(l, subst, m') && IsChild(r, subst, m')
      && (l.Node? ==> SameLinks(l.n, m, m')) && (r.Node? ==> SameLinks(r.n, m, m'))
  {
  }

  lemma PlaceTakenNode(c: Ctx, l: Tree, node: RbNode, r: Tree, subst: RbNode, m: Mem)
    requires (c.Top? || c.n != subst) && (l.Node? ==> l.n != subst) && (r.Node? ==> r.n != subst)
    ensures var m' := PlaceTaken(c, l, node, r, subst, m);
      && KeyOf(m', subst) == KeyOf(m, subst) && RedOf(m', subst) == RedOf(m, node)
      && LeftOf(m', subst) == LeftOf(m, node) && RightOf(m', subst) == RightOf(m, node)
      && ParentOf(m', subst) == ParentOf(m, node)
  {
  }

  lemma PlaceTakenAbove(c: Ctx, z: Tree, node: RbNode, nil: RbNode, root: RbNode, m: Mem)
    requires PlaceReady(c, z, node, nil, root, m)
    ensures HoldsCtx(c, z.n, nil, if c.Top? then z.n else root, PlaceTaken(c, z.left, node, z.right, z.n, m))
  {
    hide PlaceTaken;
    if !c.Top? {
      assert z.left.Node? ==> z.left.n in Nodes(z);
      assert z.right.Node? ==> z.right.n in Nodes(z);
      PlaceTakenElsewhere(c, z.left, node, z.right, z.n, m, CtxNodes(c) - {c.n});
      PlaceTakenHole(c, z.left, node, z.right, z.n, m);
      RelinkHolds(c, node, z.n, nil, root, root, m, PlaceTaken(c, z.left, node, z.right, z.n, m));
    }
  }

  lemma PlaceTakenBelow(c: Ctx, z: Tree, node: RbNode, nil: RbNode, root: RbNode, m: Mem)
    requires PlaceReady(c, z, node, nil, root, m)
    ensures var m' := PlaceTaken(c, z.left, node, z.right, z.n, m);
      Holds(z.left, nil, m') && IsChild(z.left, z.n, m') && Holds(z.right, nil, m') && IsChild(z.right, z.n, m')
  {
    hide PlaceTaken;
    assert c.Top? || c.n in CtxNodes(c);
    PlaceTakenElsewhere(c, z.left, node, z.right, z.n, m, Nodes(z.left) - {Ptr(z.left, nil)});
    PlaceTakenElsewhere(c, z.left, node, z.right, z.n, m, Nodes(z.right) - {Ptr(z.right, nil)});
    PlaceTakenChildren(c, z.left, node, z.right, z.n, m);
    MovedHolds(z.left, nil, m, PlaceTaken(c, z.left, node, z.right, z.n, m));
    MovedHolds(z.right, nil, m, PlaceTaken(c, z.left, node, z.right, z.n, m));
  }

  lemma PlaceTakenZip(c: Ctx, z: Tree, node: RbNode, nil: RbNode, root: RbNode, m: Mem)
    requires PlaceReady(c, z, node, nil, root, m)
    ensures var m' := PlaceTaken(c, z.left, node, z.right, z.n, m);
      && HoldsZip(c, z, nil, if c.Top? then z.n else root, m')
      && ParentOf(m', nil) == ParentOf(m, nil)
  {
    hide PlaceTaken, HoldsCtx, CtxDistinct;
    assert c.Top? || c.n in CtxNodes(c);
    PlaceTakenAbove(c, z, node, nil, root, m);
    PlaceTakenBelow(c, z, node, nil, root, m);
    PlaceTakenNode(c, z.left, node, z.right, z.n, m);
    PlaceTakenElsewhere(c, z.left, node, z.right, z.n, m, {nil});
    assert SameAt(nil, m, PlaceTaken(c, z.left, node, z.right, z.n, m));
  }

  // What the program reads while subst takes the place.
  lemma PlaceReads(c: Ctx, z: Tree, node: RbNode, nil: RbNode, root: RbNode, m: Mem)
    requires PlaceReady(c, z, node, nil, root, m) && node !in CtxNodes(c) && node !in Nodes(z) && node != nil
    ensures c.Top? <==> node == root
    ensures !c.Top? ==> c.n in CtxNodes(c) && c.n != z.n && c.n != node
    ensures LeftOf(m, node) == Ptr(z.left, nil) && RightOf(m, node) == Ptr(z.right, nil)
    ensures !c.Top? ==> ParentOf(m, node) == c.n
    ensures c.Lft? ==> LeftOf(m, c.n) == node
    ensures c.Rgt? ==> LeftOf(m, c.n) != node
    ensures z.n in Nodes(z) && z.n != node && z.n != nil
    ensures z.left.Node? ==> z.left.n in Nodes(z) && z.left.n != z.n && z.left.n != nil
    ensures z.right.Node? ==> z.right.n in Nodes(z) && z.right.n != z.n && z.right.n != nil
  {
    if !c.Top? {
      RootInZip(c, node, nil, root, m);
    }
  }

  // The memory after the near successor, node's right child, was cut out: its
  // only child hangs below node, with the successor already as its parent.
  ghost function NearCut(t: Tree, nil: RbNode, m: Mem): Mem
    requires t.Node? && t.right.Node?
  {
    var x := Ptr(t.right.right, nil);
    m.(right := m.right[t.n := x], parent := m.parent[x := t.right.n])
  }

  lemma NearReady(c: Ctx, t: Tree, nil: RbNode, root: RbNode, m: Mem)
    requires HoldsZip(c, t, nil, root, m) && t.Node? && t.right.Node? && t.right.left.Nil?
    ensures PlaceReady(c, Replaced(t), t.n, nil, root, NearCut(t, nil, m))
  {
    hide CtxNodes, HoldsCtx;
    var m', x := NearCut(t, nil, m), t.right.right;
    assert Holds(t.right, nil, m) && Distinct(t.right);
    assert Nodes(t.right) == {t.right.n} + Nodes(x);
    ReplacedDistinct(c, t);
    SameHoldsCtx(c, t.n, nil, root, m, m');
    SameHolds(t.left, nil, m, m');
    MovedHolds(x, nil, m, m');
  }

  // The far successor was spliced out of its place below node's right child.
  lemma FarReady(c: Ctx, t: Tree, nil: RbNode, root: RbNode, m: Mem)
    requires t.Node? && t.right.Node? && t.right.left.Node? && ZipDistinct(c, t)
    requires HoldsZip(c, Node(t.left, t.n, t.key, t.red, WithMin(t.right, MinTree(t.right).right)), nil, root, m)
    requires KeyOf(m, MinTree(t.right).n) == MinTree(t.right).key && MinTree(t.right).n != nil
    ensures PlaceReady(c, Replaced(t), t.n, nil, root, m)
  {
    ReplacedDistinct(c, t);
  }

  // The only child of the root becomes the root, black.
  lemma RootGivesWay(t: Tree, nil: RbNode, m: Mem)
    requires t.Node? && HoldsZip(Top, t, nil, t.n, m) && (t.left.Nil? || t.right.Nil?)
    ensures var x := OnlyChild(t);
      HoldsZip(Top, Blacken(x), nil, Ptr(x, nil), m.(red := m.red[Ptr(x, nil) := false]))
  {
    hide Same;
    var x := OnlyChild(t);
    var m' := m.(red := m.red[Ptr(x, nil) := false]);
    if x.Node? {
      assert Holds(x, nil, m) && Distinct(x);
      ColourSame(Nodes(x.left), m, x.n, false);
      ColourSame(Nodes(x.right), m, x.n, false);
      SameHolds(x.left, nil, m, m');
      SameHolds(x.right, nil, m, m');
    }
  }

  // What the program reads at a root with at most one child.
  lemma RootReads(t: Tree, nil: RbNode, root: RbNode, m: Mem)
    requires t.Node? && HoldsZip(Top, t, nil, root, m) && (t.left.Nil? || t.right.Nil?)
    ensures ZipDistinct(Top, t) && Distinct(t)
    ensures var x := OnlyChild(t);
      && root == t.n != nil && nil !in Nodes(t) && t.n in Nodes(t) && t.n !in Nodes(x) && Nodes(t) == Nodes(x) + {t.n}
      && (x.Node? ==> ParentOf(m, x.n) == t.n && x.n in Nodes(x) && x.n != nil)
  {
  }
}
