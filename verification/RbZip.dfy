// Moving and painting a zipper that lies in memory.
module RbZip {
  import opened RbShape
  import opened RbMemory

  lemma {:induction false} ZipUp(c: Ctx, t: Tree, nil: RbNode, root: RbNode, m: Mem)
    requires HoldsZip(c, t, nil, root, m)
    ensures HoldsZip(Top, Plug(c, t), nil, root, m)
    decreases c
  {
    match c
    case Top =>
    case Lft(up, n, k, red, r) => ZipUp(up, Node(t, n, k, red, r), nil, root, m);
    case Rgt(l, n, k, red, up) => ZipUp(up, Node(l, n, k, red, t), nil, root, m);
  }

  lemma {:induction false} ZipDown(c: Ctx, t: Tree, nil: RbNode, root: RbNode, m: Mem)
    requires HoldsZip(Top, Plug(c, t), nil, root, m)
    ensures HoldsZip(c, t, nil, root, m)
    decreases c
  {
    match c
    case Top =>
    case Lft(up, n, k, red, r) => ZipDown(up, Node(t, n, k, red, r), nil, root, m);
    case Rgt(l, n, k, red, up) => ZipDown(up, Node(l, n, k, red, t), nil, root, m);
  }

  // The same tree, looked at from another place.
  lemma Refocus(c: Ctx, t: Tree, c': Ctx, t': Tree, nil: RbNode, root: RbNode, m: Mem)
    requires HoldsZip(c, t, nil, root, m) && Plug(c, t) == Plug(c', t')
    ensures HoldsZip(c', t', nil, root, m)
    ensures CtxNodes(c) + Nodes(t) == CtxNodes(c') + Nodes(t')
  {
    ZipUp(c, t, nil, root, m);
    ZipDown(c', t', nil, root, m);
    PlugNodes(c, t);
    PlugNodes(c', t');
  }

  lemma ColourSame(s: set<RbNode>, m: Mem, n: RbNode, red: bool)
    requires n !in s
    ensures Same(s, m, m.(red := m.red[n := red]))
  {
  }

  lemma Painted(c: Ctx, t: Tree, red: bool, nil: RbNode, root: RbNode, m: Mem)
    requires HoldsZip(c, t, nil, root, m) && t.Node?
    ensures HoldsZip(c, t.(red := red), nil, root, m.(red := m.red[t.n := red]))
  {
    hide HoldsCtx, Same;
    var m' := m.(red := m.red[t.n := red]);
    ColourSame(CtxNodes(c), m, t.n, red);
    ColourSame(Nodes(t.left), m, t.n, red);
    ColourSame(Nodes(t.right), m, t.n, red);
    SameHoldsCtx(c, t.n, nil, root, m, m');
    SameHolds(t.left, nil, m, m');
    SameHolds(t.right, nil, m, m');
  }

  lemma {:induction false} RootInZip(c: Ctx, kid: RbNode, nil: RbNode, root: RbNode, m: Mem)
    requires HoldsCtx(c, kid, nil, root, m) && !c.Top?
    ensures root in CtxNodes(c)
  {
    match c
    case Lft(up, n, _, _, _) => if !up.Top? { RootInZip(up, n, nil, root, m); }
    case Rgt(_, n, _, _, up) => if !up.Top? { RootInZip(up, n, nil, root, m); }
  }

  // What the program sees at the hole and just above it.
  ghost predicate Sees(c: Ctx, t: Tree, nil: RbNode, root: RbNode, m: Mem)
  {
    && (c.Top? <==> Ptr(t, nil) == root)
    && (t.Node? ==>
          && KeyOf(m, t.n) == t.key && RedOf(m, t.n) == t.red
          && LeftOf(m, t.n) == Ptr(t.left, nil) && RightOf(m, t.n) == Ptr(t.right, nil))
    && (!c.Top? ==> c.n in CtxNodes(c) && KeyOf(m, c.n) == c.key && RedOf(m, c.n) == c.red)
    && (!c.Top? && t.Node? ==> ParentOf(m, t.n) == c.n)
    && (c.Lft? ==> LeftOf(m, c.n) == Ptr(t, nil) && RightOf(m, c.n) == Ptr(c.right, nil))
    && (c.Rgt? ==> LeftOf(m, c.n) == Ptr(c.left, nil) && RightOf(m, c.n) == Ptr(t, nil))
    && (c.Lft? && t.Node? ==> RightOf(m, c.n) != t.n)
    && (c.Rgt? && t.Node? ==> LeftOf(m, c.n) != t.n)
  }

  lemma Seen(c: Ctx, t: Tree, nil: RbNode, root: RbNode, m: Mem)
    requires HoldsZip(c, t, nil, root, m)
    ensures Sees(c, t, nil, root, m)
  {
    if !c.Top? {
      RootInZip(c, Ptr(t, nil), nil, root, m);
    }
  }

  // Of the context only the link into its hole is written.
  ghost predicate Relinked(c: Ctx, m: Mem, m': Mem)
  {
    && (forall o :: o in CtxNodes(c) && (c.Top? || o != c.n) ==> SameAt(o, m, m'))
    && (!c.Top? ==>
          && KeyOf(m', c.n) == KeyOf(m, c.n) && RedOf(m', c.n) == RedOf(m, c.n)
          && ParentOf(m', c.n) == ParentOf(m, c.n))
    && (c.Rgt? ==> LeftOf(m', c.n) == LeftOf(m, c.n))
    && (c.Lft? ==> RightOf(m', c.n) == RightOf(m, c.n))
  }

  lemma RelinkHolds(c: Ctx, kid: RbNode, kid': RbNode, nil: RbNode, root: RbNode, root': RbNode, m: Mem, m': Mem)
    requires HoldsCtx(c, kid, nil, root, m) && CtxDistinct(c) && Relinked(c, m, m')
    requires c.Top? ==> root' == kid'
    requires !c.Top? ==> root' == root
    requires c.Lft? ==> LeftOf(m', c.n) == kid'
    requires c.Rgt? ==> RightOf(m', c.n) == kid'
    ensures HoldsCtx(c, kid', nil, root', m')
  {
    match c
    case Top =>
    case Lft(up, n, _, _, r) => SameHolds(r, nil, m, m'); SameHoldsCtx(up, n, nil, root, m, m');
    case Rgt(l, n, _, _, up) => SameHolds(l, nil, m, m'); SameHoldsCtx(up, n, nil, root, m, m');
  }

  // The memory after node was hung, red, into the empty hole of c.
  ghost function Hung(c: Ctx, node: RbNode, nil: RbNode, m: Mem): Mem
    requires !c.Top?
  {
    m.(left := (if c.Lft? then m.left[c.n := node] else m.left)[node := nil],
       right := (if c.Rgt? then m.right[c.n := node] else m.right)[node := nil],
       parent := m.parent[node := c.n],
       red := m.red[node := true])
  }

  lemma HungElsewhere(c: Ctx, node: RbNode, nil: RbNode, m: Mem, o: RbNode)
    requires !c.Top? && o != node && o != c.n
    ensures SameAt(o, m, Hung(c, node, nil, m))
  {
  }

  lemma HungHole(c: Ctx, node: RbNode, nil: RbNode, m: Mem)
    requires !c.Top? && c.n != node
    ensures var m' := Hung(c, node, nil, m);
      && KeyOf(m', c.n) == KeyOf(m, c.n) && RedOf(m', c.n) == RedOf(m, c.n) && ParentOf(m', c.n) == ParentOf(m, c.n)
      && LeftOf(m', c.n) == (if c.Lft? then node else LeftOf(m, c.n))
      && RightOf(m', c.n) == (if c.Rgt? then node else RightOf(m, c.n))
  {
  }

  lemma HungNode(c: Ctx, node: RbNode, nil: RbNode, m: Mem)
    requires !c.Top?
    ensures var m' := Hung(c, node, nil, m);
      && KeyOf(m', node) == KeyOf(m, node) && RedOf(m', node)
      && LeftOf(m', node) == nil && RightOf(m', node) == nil && ParentOf(m', node) == c.n
  {
  }

  lemma HungZip(c: Ctx, node: RbNode, nil: RbNode, root: RbNode, m: Mem)
    requires HoldsZip(c, Nil, nil, root, m) && !c.Top? && node !in CtxNodes(c) && node != nil
    ensures HoldsZip(c, Node(Nil, node, KeyOf(m, node), true, Nil), nil, root, Hung(c, node, nil, m))
  {
    hide Hung, HoldsCtx, SameAt;
    var m' := Hung(c, node, nil, m);
    assert c.n in CtxNodes(c);
    HungHole(c, node, nil, m);
    HungNode(c, node, nil, m);
    forall o | o in CtxNodes(c) && o != c.n ensures SameAt(o, m, m') {
      HungElsewhere(c, node, nil, m, o);
    }
    RelinkHolds(c, nil, node, nil, root, root, m, m');
    var t := Node(Nil, node, KeyOf(m, node), true, Nil);
    assert ZipDistinct(c, t) && Holds(t, nil, m');
  }

  // The picture with the fields of one more node.
  function Widened(m: Mem, n: RbNode, key: nat, red: bool, left: RbNode?, right: RbNode?, parent: RbNode?): Mem
  {
    Mem(m.key[n := key], m.red[n := red], m.left[n := left], m.right[n := right], m.parent[n := parent])
  }

  lemma WidenedSame(s: set<RbNode>, m: Mem, n: RbNode, key: nat, red: bool, left: RbNode?, right: RbNode?,
                    parent: RbNode?)
    requires n !in s
    ensures Same(s, m, Widened(m, n, key, red, left, right, parent))
  {
  }

  lemma WidenedReads(m: Mem, n: RbNode, key: nat, red: bool, left: RbNode?, right: RbNode?, parent: RbNode?)
    ensures var m' := Widened(m, n, key, red, left, right, parent);
      && KeyOf(m', n) == key && RedOf(m', n) == red && LeftOf(m', n) == left && RightOf(m', n) == right
      && ParentOf(m', n) == parent
      && (forall o :: o != n ==> KeyOf(m', o) == KeyOf(m, o)) && (forall o :: o != n ==> RedOf(m', o) == RedOf(m, o))
      && (forall o :: o != n ==> LeftOf(m', o) == LeftOf(m, o))
      && (forall o :: o != n ==> RightOf(m', o) == RightOf(m, o))
      && (forall o :: o != n ==> ParentOf(m', o) == ParentOf(m, o))
  {
  }

  // A node outside the tree may hold anything.
  lemma WidenedZip(c: Ctx, t: Tree, nil: RbNode, root: RbNode, m: Mem, n: RbNode,
                   key: nat, red: bool, left: RbNode?, right: RbNode?, parent: RbNode?)
    requires HoldsZip(c, t, nil, root, m) && n !in CtxNodes(c) && n !in Nodes(t)
    ensures HoldsZip(c, t, nil, root, Widened(m, n, key, red, left, right, parent))
  {
    hide Widened;
    var m' := Widened(m, n, key, red, left, right, parent);
    WidenedSame(CtxNodes(c), m, n, key, red, left, right, parent);
    WidenedSame(Nodes(t), m, n, key, red, left, right, parent);
    SameHoldsCtx(c, Ptr(t, nil), nil, root, m, m');
    SameHolds(t, nil, m, m');
    assert !c.Top? && t.Node? ==> SameAt(t.n, m, m');
  }

  // The memory when a node became the whole tree.
  lemma FirstZip(node: RbNode, nil: RbNode, m: Mem)
    requires node != nil
    ensures HoldsZip(Top, Node(Nil, node, KeyOf(m, node), false, Nil), nil, node,
                     m.(parent := m.parent[node := null], left := m.left[node := nil],
                        right := m.right[node := nil], red := m.red[node := false]))
  {
    var t := Node(Nil, node, KeyOf(m, node), false, Nil);
    assert Nodes(t) == {node} && Distinct(t.left);
  }
}
