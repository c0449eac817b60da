// Rotations: on trees, and on trees that lie in memory.
module RbRotate {
  import opened RbShape
  import opened RbMemory
  import opened RbZip

  function RotatedLeft(t: Tree): Tree
    requires t.Node? && t.right.Node?
  {
    var y := t.right;
    Node(Node(t.left, t.n, t.key, t.red, y.left), y.n, y.key, y.red, y.right)
  }

  function RotatedRight(t: Tree): Tree
    requires t.Node? && t.left.Node?
  {
    var y := t.left;
    Node(y.left, y.n, y.key, y.red, Node(y.right, t.n, t.key, t.red, t.right))
  }

  lemma RotatedLeftFacts(t: Tree)
    requires t.Node? && t.right.Node? && Distinct(t)
    ensures Nodes(RotatedLeft(t)) == Nodes(t) && Distinct(RotatedLeft(t))
  {
    assert Distinct(t.right);
  }

  lemma RotatedRightFacts(t: Tree)
    requires t.Node? && t.left.Node? && Distinct(t)
    ensures Nodes(RotatedRight(t)) == Nodes(t) && Distinct(RotatedRight(t))
  {
    assert Distinct(t.left);
  }

  lemma RotatedLeftOrder(c: Ctx, t: Tree)
    requires t.Node? && t.right.Node?
    ensures Inorder(Plug(c, RotatedLeft(t))) == Inorder(Plug(c, t))
  {
    var x, y := [Item(t.n, t.key)], [Item(t.right.n, t.right.key)];
    var a, b, d := Inorder(t.left), Inorder(t.right.left), Inorder(t.right.right);
    assert a + x + (b + y + d) == (a + x + b) + y + d;
    assert Inorder(t.right) == b + y + d;
    assert Inorder(RotatedLeft(t).left) == a + x + b;
    PlugOrder(c, t);
    PlugOrder(c, RotatedLeft(t));
  }

  lemma RotatedRightOrder(c: Ctx, t: Tree)
    requires t.Node? && t.left.Node?
    ensures Inorder(Plug(c, RotatedRight(t))) == Inorder(Plug(c, t))
  {
    RotatedLeftOrder(c, RotatedRight(t));
    assert RotatedLeft(RotatedRight(t)) == t;
  }

  lemma RotateLeftHolds(t: Tree, nil: RbNode, m: Mem, m': Mem)
    requires t.Node? && t.right.Node? && Holds(t, nil, m) && Distinct(t) && nil !in Nodes(t)
    requires forall o :: o in Nodes(t) && o != t.n && o != t.right.n && o != Ptr(t.right.left, nil) ==> SameAt(o, m, m')
    requires t.right.left.Node? ==> SameLinks(t.right.left.n, m, m') && ParentOf(m', t.right.left.n) == t.n
    requires KeyOf(m', t.n) == t.key && RedOf(m', t.n) == t.red && LeftOf(m', t.n) == LeftOf(m, t.n)
    requires RightOf(m', t.n) == LeftOf(m, t.right.n) && ParentOf(m', t.n) == t.right.n
    requires KeyOf(m', t.right.n) == t.right.key && RedOf(m', t.right.n) == t.right.red
    requires LeftOf(m', t.right.n) == t.n && RightOf(m', t.right.n) == RightOf(m, t.right.n)
    ensures Holds(RotatedLeft(t), nil, m')
  {
    hide SameLinks;
    var b := t.right.left;
    assert Holds(t.right, nil, m) && Distinct(t.right);
    assert Nodes(t.right) == Nodes(b) + {t.right.n} + Nodes(t.right.right);
    MovedHolds(b, nil, m, m');
    SameHolds(t.left, nil, m, m');
    SameHolds(t.right.right, nil, m, m');
  }

  lemma RotateRightHolds(t: Tree, nil: RbNode, m: Mem, m': Mem)
    requires t.Node? && t.left.Node? && Holds(t, nil, m) && Distinct(t) && nil !in Nodes(t)
    requires forall o :: o in Nodes(t) && o != t.n && o != t.left.n && o != Ptr(t.left.right, nil) ==> SameAt(o, m, m')
    requires t.left.right.Node? ==> SameLinks(t.left.right.n, m, m') && ParentOf(m', t.left.right.n) == t.n
    requires KeyOf(m', t.n) == t.key && RedOf(m', t.n) == t.red && RightOf(m', t.n) == RightOf(m, t.n)
    requires LeftOf(m', t.n) == RightOf(m, t.left.n) && ParentOf(m', t.n) == t.left.n
    requires KeyOf(m', t.left.n) == t.left.key && RedOf(m', t.left.n) == t.left.red
    requires RightOf(m', t.left.n) == t.n && LeftOf(m', t.left.n) == LeftOf(m, t.left.n)
    ensures Holds(RotatedRight(t), nil, m')
  {
    hide SameLinks;
    var b := t.left.right;
    assert Holds(t.left, nil, m) && Distinct(t.left);
    assert Nodes(t.left) == Nodes(t.left.left) + {t.left.n} + Nodes(b);
    MovedHolds(b, nil, m, m');
    SameHolds(t.left.left, nil, m, m');
    SameHolds(t.right, nil, m, m');
  }

  // The memory after the left rotation of t under c, field by field.
  ghost function LeftRotated(c: Ctx, t: Tree, m: Mem): Mem
    requires t.Node? && t.right.Node?
  {
    var x, y, b := t.n, t.right.n, t.right.left;
    m.(left := (if c.Lft? then m.left[c.n := y] else m.left)[y := x],
       right := if c.Rgt? then m.right[x := LeftOf(m, y)][c.n := y] else m.right[x := LeftOf(m, y)],
       parent := (if b.Node? then m.parent[b.n := x] else m.parent)[y := ParentOf(m, x)][x := y])
  }

  lemma LeftRotatedBelow(c: Ctx, t: Tree, nil: RbNode, root: RbNode, m: Mem)
    requires HoldsZip(c, t, nil, root, m) && t.Node? && t.right.Node?
    ensures Holds(RotatedLeft(t), nil, LeftRotated(c, t, m))
  {
    var m' := LeftRotated(c, t, m);
    assert Holds(t.right, nil, m) && Distinct(t.right);
    assert c.Top? || c.n in CtxNodes(c);
    RotateLeftHolds(t, nil, m, m');
  }

  lemma LeftRotatedAbove(c: Ctx, t: Tree, nil: RbNode, root: RbNode, m: Mem)
    requires HoldsZip(c, t, nil, root, m) && t.Node? && t.right.Node?
    ensures HoldsCtx(c, t.right.n, nil, if c.Top? then t.right.n else root, LeftRotated(c, t, m))
  {
    hide HoldsCtx;
    var m' := LeftRotated(c, t, m);
    assert t.right.n in Nodes(t);
    assert t.right.left.Node? ==> t.right.left.n in Nodes(t);
    RelinkHolds(c, t.n, t.right.n, nil, root, if c.Top? then t.right.n else root, m, m');
  }

  lemma LeftRotatedZip(c: Ctx, t: Tree, nil: RbNode, root: RbNode, m: Mem)
    requires HoldsZip(c, t, nil, root, m) && t.Node? && t.right.Node?
    ensures HoldsZip(c, RotatedLeft(t), nil, if c.Top? then t.right.n else root, LeftRotated(c, t, m))
    ensures Nodes(RotatedLeft(t)) == Nodes(t)
  {
    LeftRotatedBelow(c, t, nil, root, m);
    LeftRotatedAbove(c, t, nil, root, m);
    RotatedLeftFacts(t);
  }

  // What the program reads around a left rotation.
  lemma LeftRotateReads(c: Ctx, t: Tree, nil: RbNode, root: RbNode, m: Mem)
    requires HoldsZip(c, t, nil, root, m) && t.Node? && t.right.Node?
    ensures RightOf(m, t.n) == t.right.n && LeftOf(m, t.right.n) == Ptr(t.right.left, nil)
    ensures t.right.left.Node? ==> t.right.left.n in Nodes(t) && t.right.left.n != t.n && t.right.left.n != nil
    ensures t.n in Nodes(t) && t.right.n in Nodes(t)
    ensures !c.Top? ==> c.n in CtxNodes(c)
  {
    assert Holds(t.right, nil, m) && Distinct(t.right);
  }

  // The memory after the right rotation of t under c, field by field.
  ghost function RightRotated(c: Ctx, t: Tree, m: Mem): Mem
    requires t.Node? && t.left.Node?
  {
    var x, y, b := t.n, t.left.n, t.left.right;
    m.(right := (if c.Rgt? then m.right[c.n := y] else m.right)[y := x],
       left := if c.Lft? then m.left[x := RightOf(m, y)][c.n := y] else m.left[x := RightOf(m, y)],
       parent := (if b.Node? then m.parent[b.n := x] else m.parent)[y := ParentOf(m, x)][x := y])
  }

  lemma RightRotatedBelow(c: Ctx, t: Tree, nil: RbNode, root: RbNode, m: Mem)
    requires HoldsZip(c, t, nil, root, m) && t.Node? && t.left.Node?
    ensures Holds(RotatedRight(t), nil, RightRotated(c, t, m))
  {
    var m' := RightRotated(c, t, m);
    assert Holds(t.left, nil, m) && Distinct(t.left);
    assert c.Top? || c.n in CtxNodes(c);
    RotateRightHolds(t, nil, m, m');
  }

  lemma RightRotatedAbove(c: Ctx, t: Tree, nil: RbNode, root: RbNode, m: Mem)
    requires HoldsZip(c, t, nil, root, m) && t.Node? && t.left.Node?
    ensures HoldsCtx(c, t.left.n, nil, if c.Top? then t.left.n else root, RightRotated(c, t, m))
  {
    hide HoldsCtx;
    var m' := RightRotated(c, t, m);
    assert t.left.n in Nodes(t);
    assert t.left.right.Node? ==> t.left.right.n in Nodes(t);
    RelinkHolds(c, t.n, t.left.n, nil, root, if c.Top? then t.left.n else root, m, m');
  }

  lemma RightRotatedZip(c: Ctx, t: Tree, nil: RbNode, root: RbNode, m: Mem)
    requires HoldsZip(c, t, nil, root, m) && t.Node? && t.left.Node?
    ensures HoldsZip(c, RotatedRight(t), nil, if c.Top? then t.left.n else root, RightRotated(c, t, m))
    ensures Nodes(RotatedRight(t)) == Nodes(t)
  {
    RightRotatedBelow(c, t, nil, root, m);
    RightRotatedAbove(c, t, nil, root, m);
    RotatedRightFacts(t);
  }

  // What the program reads around a right rotation.
  lemma RightRotateReads(c: Ctx, t: Tree, nil: RbNode, root: RbNode, m: Mem)
    requires HoldsZip(c, t, nil, root, m) && t.Node? && t.left.Node?
    ensures LeftOf(m, t.n) == t.left.n && RightOf(m, t.left.n) == Ptr(t.left.right, nil)
    ensures t.left.right.Node? ==> t.left.right.n in Nodes(t) && t.left.right.n != t.n && t.left.right.n != nil
    ensures t.n in Nodes(t) && t.left.n in Nodes(t)
    ensures !c.Top? ==> c.n in CtxNodes(c)
  {
    assert Holds(t.left, nil, m) && Distinct(t.left);
  }
}
