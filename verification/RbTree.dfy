// The timer tree of the program: nodes linked in memory, with a shared sentinel.
module RbTree {
  import opened RbShape
  import opened RbMemory
  import opened RbZip
  import opened RbRotate
  import opened RbInsert
  import opened RbOrder
  import opened RbDelete
  import opened RbUnlink

  class RbTree {
    var root: RbNode
    const sentinel: RbNode
    ghost var repr: set<RbNode>
    ghost var mem: Mem
    ghost var tree: Tree

    // The ghost picture of the memory is what the fields hold.
    ghost predicate Synced()
      reads this`repr, this`mem, repr
    {
      forall o :: o in repr ==>
        && o.key == KeyOf(mem, o) && o.red == RedOf(mem, o)
        && o.left == LeftOf(mem, o) && o.right == RightOf(mem, o) && o.parent == ParentOf(mem, o)
    }

    // The tree t, in the place described by c, is what the memory holds.
    ghost predicate At(c: Ctx, t: Tree)
      reads this`repr, this`mem, this`root, repr
    {
      && Synced() && sentinel in repr && CtxNodes(c) <= repr && Nodes(t) <= repr
      && HoldsZip(c, t, sentinel, root, mem) && !RedOf(mem, sentinel)
    }

    constructor (s: RbNode)
      modifies s
      ensures sentinel == s && Valid() && Items() == []
    {
      root := s;
      sentinel := s;
      repr := {s};
      tree := Nil;
      new;
      s.red := false;
      mem := Mem(map o | o in repr :: o.key, map o | o in repr :: o.red,
                 map o | o in repr :: o.left, map o | o in repr :: o.right, map o | o in repr :: o.parent);
    }

    lemma FieldsOf(o: RbNode)
      requires Synced() && o in repr
      ensures o.key == KeyOf(mem, o) && o.red == RedOf(mem, o)
      ensures o.left == LeftOf(mem, o) && o.right == RightOf(mem, o) && o.parent == ParentOf(mem, o)
    {
    }

    // ---- assignments to a node's fields ----

    method SetRed(o: RbNode, v: bool)
      requires Synced() && o in repr
      modifies this`mem, o`red
      ensures Synced() && o.red == v && mem == old(mem).(red := old(mem).red[o := v])
    {
      o.red := v;
      mem := mem.(red := mem.red[o := v]);
    }

    method SetLeft(o: RbNode, v: RbNode?)
      requires Synced() && o in repr
      modifies this`mem, o`left
      ensures Synced() && o.left == v && mem == old(mem).(left := old(mem).left[o := v])
    {
      o.left := v;
      mem := mem.(left := mem.left[o := v]);
    }

    method SetRight(o: RbNode, v: RbNode?)
      requires Synced() && o in repr
      modifies this`mem, o`right
      ensures Synced() && o.right == v && mem == old(mem).(right := old(mem).right[o := v])
    {
      o.right := v;
      mem := mem.(right := mem.right[o := v]);
    }

    method SetParent(o: RbNode, v: RbNode?)
      requires Synced() && o in repr
      modifies this`mem, o`parent
      ensures Synced() && o.parent == v && mem == old(mem).(parent := old(mem).parent[o := v])
    {
      o.parent := v;
      mem := mem.(parent := mem.parent[o := v]);
    }

    // Paints the node at the hole; the order of the tree stays.
    method Paint(o: RbNode, red: bool, ghost c: Ctx, ghost t: Tree)
      requires At(c, t) && t.Node? && t.n == o
      modifies this`mem, o`red
      ensures mem.key == old(mem.key)
      ensures At(c, t.(red := red))
      ensures mem.parent == old(mem.parent)
      ensures Inorder(Plug(c, t.(red := red))) == Inorder(Plug(c, t))
    {
      Painted(c, t, red, sentinel, root, mem);
      SetRed(o, red);
      PlugOrder(c, t);
      PlugOrder(c, t.(red := red));
    }

    // Makes the link that leads to node lead to kid.
    method Relink(node: RbNode, kid: RbNode, ghost c: Ctx)
      requires Synced()
      requires c.Top? <==> node == root
      requires !c.Top? ==> c.n in repr && node.parent == c.n
      requires c.Lft? ==> c.n.left == node
      requires c.Rgt? ==> c.n.left != node
      modifies this`root, this`mem
      modifies (if c.Top? then {} else {c.n})`left, (if c.Top? then {} else {c.n})`right
      ensures Synced()
      ensures root == if c.Top? then kid else old(root)
      ensures mem == match c
        case Top => old(mem)
        case Lft(_, p, _, _, _) => old(mem).(left := old(mem).left[p := kid])
        case Rgt(_, p, _, _, _) => old(mem).(right := old(mem).right[p := kid])
    {
      hide RbTree.Synced;
      if node == root {
        root := kid;
      } else if node == node.parent.left {
        SetLeft(node.parent, kid);
      } else {
        SetRight(node.parent, kid);
      }
    }

    // The same, as the right rotation does it: the right link is tried first.
    method RelinkRight(node: RbNode, kid: RbNode, ghost c: Ctx)
      requires Synced()
      requires c.Top? <==> node == root
      requires !c.Top? ==> c.n in repr && node.parent == c.n
      requires c.Rgt? ==> c.n.right == node
      requires c.Lft? ==> c.n.right != node
      modifies this`root, this`mem
      modifies (if c.Top? then {} else {c.n})`left, (if c.Top? then {} else {c.n})`right
      ensures Synced()
      ensures root == if c.Top? then kid else old(root)
      ensures mem == match c
        case Top => old(mem)
        case Lft(_, p, _, _, _) => old(mem).(left := old(mem).left[p := kid])
        case Rgt(_, p, _, _, _) => old(mem).(right := old(mem).right[p := kid])
    {
      hide RbTree.Synced;
      if node == root {
        root := kid;
      } else if node == node.parent.right {
        SetRight(node.parent, kid);
      } else {
        SetLeft(node.parent, kid);
      }
    }

    lemma Look(c: Ctx, t: Tree, c': Ctx, t': Tree)
      requires At(c, t) && Plug(c, t) == Plug(c', t')
      ensures At(c', t')
    {
      Refocus(c, t, c', t', sentinel, root, mem);
    }

    // The writes of the left rotation.
    method LeftLinks(node: RbNode, ghost c: Ctx, ghost t: Tree)
      requires t.Node? && t.right.Node? && t.n == node && At(c, t)
      modifies this`root, this`mem, repr
      ensures Synced() && mem == LeftRotated(c, t, old(mem)) && root == if c.Top? then t.right.n else old(root)
    {
      hide RbTree.Synced, Holds, HoldsCtx, HoldsZip, ZipDistinct, Nodes, CtxNodes, KeyOf, RedOf, LeftOf, RightOf;
      hide ParentOf;
      Seen(c, t, sentinel, root, mem);
      LeftRotateReads(c, t, sentinel, root, mem);
      FieldsOf(node);
      var temp := node.right;
      FieldsOf(temp);
      if !c.Top? {
        FieldsOf(c.n);
      }
      SetRight(node, temp.left);
      if temp.left != sentinel {
        SetParent(temp.left, node);
      }
      SetParent(temp, node.parent);
      Relink(node, temp, c);
      SetLeft(temp, node);
      SetParent(node, temp);
    }

    method LeftRotate(node: RbNode, ghost c: Ctx, ghost t: Tree)
      requires t.Node? && t.right.Node? && t.n == node && At(c, t)
      modifies this`root, this`mem, repr
      ensures mem.key == old(mem.key)
      ensures At(c, RotatedLeft(t))
      ensures ParentOf(mem, sentinel) == old(ParentOf(mem, sentinel))
      ensures Inorder(Plug(c, RotatedLeft(t))) == Inorder(Plug(c, t))
    {
      hide RbTree.Synced, Holds, HoldsCtx, ZipDistinct, Inorder, Plug, RotatedLeft;
      ghost var m := mem;
      Seen(c, t, sentinel, root, m);
      LeftRotateReads(c, t, sentinel, root, m);
      LeftRotatedZip(c, t, sentinel, root, m);
      RotatedLeftOrder(c, t);
      LeftLinks(node, c, t);
    }

    // The writes of the right rotation.
    method RightLinks(node: RbNode, ghost c: Ctx, ghost t: Tree)
      requires t.Node? && t.left.Node? && t.n == node && At(c, t)
      modifies this`root, this`mem, repr
      ensures Synced() && mem == RightRotated(c, t, old(mem)) && root == if c.Top? then t.left.n else old(root)
    {
      hide RbTree.Synced, Holds, HoldsCtx, HoldsZip, ZipDistinct, Nodes, CtxNodes, KeyOf, RedOf, LeftOf, RightOf;
      hide ParentOf;
      Seen(c, t, sentinel, root, mem);
      RightRotateReads(c, t, sentinel, root, mem);
      FieldsOf(node);
      var temp := node.left;
      FieldsOf(temp);
      if !c.Top? {
        FieldsOf(c.n);
      }
      SetLeft(node, temp.right);
      if temp.right != sentinel {
        SetParent(temp.right, node);
      }
      SetParent(temp, node.parent);
      RelinkRight(node, temp, c);
      SetRight(temp, node);
      SetParent(node, temp);
    }

    method RightRotate(node: RbNode, ghost c: Ctx, ghost t: Tree)
      requires t.Node? && t.left.Node? && t.n == node && At(c, t)
      modifies this`root, this`mem, repr
      ensures mem.key == old(mem.key)
      ensures At(c, RotatedRight(t))
      ensures ParentOf(mem, sentinel) == old(ParentOf(mem, sentinel))
      ensures Inorder(Plug(c, RotatedRight(t))) == Inorder(Plug(c, t))
    {
      hide RbTree.Synced, Holds, HoldsCtx, ZipDistinct, Inorder, Plug, RotatedRight;
      ghost var m := mem;
      Seen(c, t, sentinel, root, m);
      RightRotateReads(c, t, sentinel, root, m);
      RightRotatedZip(c, t, sentinel, root, m);
      RotatedRightOrder(c, t);
      RightLinks(node, c, t);
    }

    // Red parent and red uncle turn black, the grandparent red.
    method Recolour(node: RbNode, temp: RbNode, ghost c: Ctx, ghost t: Tree)
      requires At(c, t) && RedAtHole(c, t) && t.Node? && t.n == node && !c.Top? && c.red
      requires !c.up.Top? && IsRed(Sibling(c.up)) && temp == Sibling(c.up).n
      modifies this`mem, repr`red
      ensures mem.key == old(mem.key)
      ensures At(c.up.up, Recoloured(c, t)) && RedAtHole(c.up.up, Recoloured(c, t))
      ensures Recoloured(c, t).Node? && Recoloured(c, t).n == c.up.n
      ensures Inorder(Plug(c.up.up, Recoloured(c, t))) == Inorder(Plug(c, t))
    {
      RecolourKeeps(c, t);
      ghost var g, p, u := c.up, Parent(c, t), Sibling(c.up);
      Seen(c, t, sentinel, root, mem);
      Look(c, t, g, p);
      Seen(g, p, sentinel, root, mem);
      var parent, grand := node.parent, node.parent.parent;
      Paint(parent, false, g, p);
      ghost var p' := p.(red := false);
      ghost var c1 := if g.Lft? then Rgt(p', g.n, g.key, g.red, g.up) else Lft(g.up, g.n, g.key, g.red, p');
      Look(g, p', c1, u);
      Paint(temp, false, c1, u);
      ghost var u' := u.(red := false);
      Look(c1, u', g.up, Parent(c1, u'));
      Paint(grand, true, g.up, Parent(c1, u'));
    }

    // The inner grandchild is rotated outwards, below a grandparent on the right.
    method RotateOutLeft(node: RbNode, ghost c: Ctx, ghost t: Tree) returns (ghost c': Ctx, ghost t': Tree)
      requires At(c, t) && RedAtHole(c, t) && c.Rgt? && c.red && c.up.Lft? && node == c.n
      modifies this`root, this`mem, repr
      ensures mem.key == old(mem.key)
      ensures c' == Lft(c.up, t.n, t.key, true, t.right) && t' == Node(c.left, c.n, c.key, true, t.left)
      ensures At(c', t') && RedAtHole(c', t') && t'.Node?
      ensures Inorder(Plug(c', t')) == Inorder(Plug(c, t))
    {
      ghost var p := Parent(c, t);
      Look(c, t, c.up, p);
      LeftRotate(node, c.up, p);
      c' := Lft(c.up, t.n, t.key, true, t.right);
      t' := Node(c.left, c.n, c.key, true, t.left);
      Look(c.up, RotatedLeft(p), c', t');
      InnerKeepsLeft(c, t);
    }

    method RotateOutRight(node: RbNode, ghost c: Ctx, ghost t: Tree) returns (ghost c': Ctx, ghost t': Tree)
      requires At(c, t) && RedAtHole(c, t) && c.Lft? && c.red && c.up.Rgt? && node == c.n
      modifies this`root, this`mem, repr
      ensures mem.key == old(mem.key)
      ensures c' == Rgt(t.left, t.n, t.key, true, c.up) && t' == Node(t.right, c.n, c.key, true, c.right)
      ensures At(c', t') && RedAtHole(c', t') && t'.Node?
      ensures Inorder(Plug(c', t')) == Inorder(Plug(c, t))
    {
      ghost var p := Parent(c, t);
      Look(c, t, c.up, p);
      RightRotate(node, c.up, p);
      c' := Rgt(t.left, t.n, t.key, true, c.up);
      t' := Node(t.right, c.n, c.key, true, c.right);
      Look(c.up, RotatedRight(p), c', t');
      InnerKeepsRight(c, t);
    }

    // The parent takes the grandparent's place and colour.
    method RotateGrandRight(node: RbNode, ghost c: Ctx, ghost t: Tree) returns (ghost c': Ctx)
      requires At(c, t) && RedAtHole(c, t) && c.Lft? && c.red && c.up.Lft? && !IsRed(c.up.right) && node == t.n
      modifies this`root, this`mem, repr
      ensures mem.key == old(mem.key)
      ensures c' == Lft(c.up.up, c.n, c.key, false, Node(c.right, c.up.n, c.up.key, true, c.up.right))
      ensures At(c', t) && RedAtHole(c', t)
      ensures Inorder(Plug(c', t)) == Inorder(Plug(c, t))
    {
      ghost var g, p := c.up, Parent(c, t);
      ghost var p' := p.(red := false);
      Seen(c, t, sentinel, root, mem);
      Look(c, t, g, p);
      Seen(g, p, sentinel, root, mem);
      Paint(node.parent, false, g, p);
      ghost var gt := Parent(g, p');
      Look(g, p', g.up, gt);
      Paint(node.parent.parent, true, g.up, gt);
      RightRotate(node.parent.parent, g.up, gt.(red := true));
      c' := Lft(g.up, c.n, c.key, false, Node(c.right, g.n, g.key, true, g.right));
      Look(g.up, RotatedRight(gt.(red := true)), c', t);
      OuterKeepsLeft(c, t);
    }

    method RotateGrandLeft(node: RbNode, ghost c: Ctx, ghost t: Tree) returns (ghost c': Ctx)
      requires At(c, t) && RedAtHole(c, t) && c.Rgt? && c.red && c.up.Rgt? && !IsRed(c.up.left) && node == t.n
      modifies this`root, this`mem, repr
      ensures mem.key == old(mem.key)
      ensures c' == Rgt(Node(c.up.left, c.up.n, c.up.key, true, c.left), c.n, c.key, false, c.up.up)
      ensures At(c', t) && RedAtHole(c', t)
      ensures Inorder(Plug(c', t)) == Inorder(Plug(c, t))
    {
      hide HoldsZip, Nodes;
      ghost var g, p := c.up, Parent(c, t);
      ghost var p' := p.(red := false);
      Seen(c, t, sentinel, root, mem);
      Look(c, t, g, p);
      Seen(g, p, sentinel, root, mem);
      Paint(node.parent, false, g, p);
      ghost var gt := Parent(g, p');
      Look(g, p', g.up, gt);
      Paint(node.parent.parent, true, g.up, gt);
      LeftRotate(node.parent.parent, g.up, gt.(red := true));
      c' := Rgt(Node(g.left, g.n, g.key, true, c.left), c.n, c.key, false, g.up);
      Look(g.up, RotatedLeft(gt.(red := true)), c', t);
      OuterKeepsRight(c, t);
    }

    // The items of the tree, in order.
    ghost function Items(): seq<Item>
      reads this
    {
      Inorder(tree)
    }

    ghost predicate Valid()
      reads this, repr
    {
      && At(Top, tree) && repr == Nodes(tree) + {sentinel}
      && RedBlack(tree) && Sorted(Inorder(tree))
    }

    // One turn of the insertion loop below a parent that is a left child.
    method FixBelowLeft(start: RbNode, ghost c0: Ctx, ghost t0: Tree)
        returns (node: RbNode, ghost c: Ctx, ghost t: Tree)
      requires At(c0, t0) && RedAtHole(c0, t0) && t0.Node? && start == t0.n && !c0.Top? && c0.red && c0.up.Lft?
      modifies this`root, this`mem, repr
      ensures mem.key == old(mem.key)
      ensures At(c, t) && RedAtHole(c, t) && t.Node? && node == t.n
      ensures Inorder(Plug(c, t)) == Inorder(Plug(c0, t0))
      ensures c.Top? || !c.red || c == c0.up.up
    {
      hide At, RedAtHole, Plug, Inorder;
      node, c, t := start, c0, t0;
      Around(c, t);
      var temp := node.parent.parent.right;
      if temp.red {
        Recolour(node, temp, c, t);
        node := node.parent.parent;
        c, t := c.up.up, Recoloured(c, t);
      } else {
        if node == node.parent.right {
          node := node.parent;
          c, t := RotateOutLeft(node, c, t);
        }
        c := RotateGrandRight(node, c, t);
      }
    }

    method FixBelowRight(start: RbNode, ghost c0: Ctx, ghost t0: Tree)
        returns (node: RbNode, ghost c: Ctx, ghost t: Tree)
      requires At(c0, t0) && RedAtHole(c0, t0) && t0.Node? && start == t0.n && !c0.Top? && c0.red && c0.up.Rgt?
      modifies this`root, this`mem, repr
      ensures mem.key == old(mem.key)
      ensures At(c, t) && RedAtHole(c, t) && t.Node? && node == t.n
      ensures Inorder(Plug(c, t)) == Inorder(Plug(c0, t0))
      ensures c.Top? || !c.red || c == c0.up.up
    {
      hide At, RedAtHole, Plug, Inorder;
      node, c, t := start, c0, t0;
      Around(c, t);
      var temp := node.parent.parent.left;
      if temp.red {
        Recolour(node, temp, c, t);
        node := node.parent.parent;
        c, t := c.up.up, Recoloured(c, t);
      } else {
        if node == node.parent.left {
          node := node.parent;
          c, t := RotateOutRight(node, c, t);
        }
        c := RotateGrandLeft(node, c, t);
      }
    }

    // The pointers around a red node with a red parent.
    lemma Around(c: Ctx, t: Tree)
      requires At(c, t) && RedAtHole(c, t) && !c.Top? && c.red
      ensures !c.up.Top? && t.n in repr && t.n.parent == c.n && c.n in repr && c.n.parent == c.up.n && c.up.n in repr
      ensures Depth(c) == 2 + Depth(c.up.up)
      ensures c.Lft? <==> c.n.left == t.n
      ensures c.Rgt? <==> c.n.right == t.n
      ensures c.up.Lft? <==> c.up.n.left == c.n
      ensures Ptr(Sibling(c.up), sentinel) in repr && Ptr(Sibling(c.up), sentinel).red == IsRed(Sibling(c.up))
      ensures Ptr(Sibling(c.up), sentinel) == if c.up.Lft? then c.up.n.right else c.up.n.left
    {
      GrandExists(c, t);
      Seen(c, t, sentinel, root, mem);
      Look(c, t, c.up, Parent(c, t));
      Seen(c.up, Parent(c, t), sentinel, root, mem);
      var u := Sibling(c.up);
      if u.Node? {
        assert Holds(u, sentinel, mem);
      }
    }

    // What the loop's test sees.
    ghost predicate Reads(c: Ctx, t: Tree)
      reads this`repr, this`root, repr
    {
      && t.Node? && t.n in repr
      && (c.Top? <==> t.n == root)
      && (!c.Top? ==> c.n in repr && t.n.parent == c.n && c.n.red == c.red)
    }

    lemma ReadsOf(c: Ctx, t: Tree)
      requires At(c, t) && t.Node?
      ensures Reads(c, t)
    {
      Seen(c, t, sentinel, root, mem);
    }

    // The root is painted black at the end.
    method BlackenRoot(ghost c: Ctx, ghost t: Tree) returns (ghost w: Tree)
      requires At(c, t) && RedAtHole(c, t) && (c.Top? || !c.red)
      modifies this`mem, repr`red
      ensures mem.key == old(mem.key)
      ensures At(Top, w) && RedBlack(w) && Inorder(w) == Inorder(Plug(c, t))
    {
      w := Plug(c, t);
      InsertDone(c, t);
      Look(c, t, Top, w);
      Seen(Top, w, sentinel, root, mem);
      Paint(root, false, Top, w);
      w := Blacken(w);
    }

    // The insertion fix-up: t0, whose root node is red, sits at c0.
    method Rebalance(start: RbNode, ghost c0: Ctx, ghost t0: Tree) returns (ghost w: Tree)
      requires At(c0, t0) && RedAtHole(c0, t0) && t0.Node? && start == t0.n
      modifies this`root, this`mem, repr
      ensures mem.key == old(mem.key)
      ensures At(Top, w) && RedBlack(w) && Inorder(w) == Inorder(Plug(c0, t0))
    {
      hide At, RedAtHole, Plug, Inorder, Synced;
      var node := start;
      ghost var c, t := c0, t0;
      ReadsOf(c, t);
      while node != root && node.parent.red
        invariant At(c, t) && RedAtHole(c, t) && Reads(c, t) && node == t.n
        invariant mem.key == old(mem.key)
        invariant Inorder(Plug(c, t)) == Inorder(Plug(c0, t0))
        decreases if c.Top? || !c.red then 0 else 1 + Depth(c)
      {
        Around(c, t);
        if node.parent == node.parent.parent.left {
          node, c, t := FixBelowLeft(node, c, t);
        } else {
          node, c, t := FixBelowRight(node, c, t);
        }
        ReadsOf(c, t);
      }
      w := BlackenRoot(c, t);
    }

    // ---- insertion ----

    // Takes a node outside the tree into the picture.
    ghost method Adopt(node: RbNode, c: Ctx, t: Tree)
      requires At(c, t) && node !in repr
      modifies this`repr, this`mem
      ensures At(c, t) && repr == old(repr) + {node}
    {
      hide HoldsZip, Widened, KeyOf, RedOf, LeftOf, RightOf, ParentOf, Nodes, CtxNodes;
      WidenedZip(c, t, sentinel, root, mem, node, node.key, node.red, node.left, node.right, node.parent);
      WidenedReads(mem, node, node.key, node.red, node.left, node.right, node.parent);
      repr := repr + {node};
      mem := Widened(mem, node, node.key, node.red, node.left, node.right, node.parent);
    }

    // One step down, towards the place of a new item with this key.
    lemma StepDown(c: Ctx, t: Tree, key: nat)
      requires At(c, t) && t.Node? && Plug(c, t) == tree && Sorted(Items()) && Fits(c, key)
      ensures t.n in repr && t.n.key == t.key
      ensures t.n.left == Ptr(t.left, sentinel) && t.n.right == Ptr(t.right, sentinel)
      ensures key < t.key ==> Descended(Lft(c, t.n, t.key, t.red, t.right), t.left, key)
      ensures t.key <= key ==> Descended(Rgt(t.left, t.n, t.key, t.red, c), t.right, key)
    {
      PlugOrder(c, t);
      Seen(c, t, sentinel, root, mem);
      if key < t.key {
        GoLeft(c, t, key);
        Look(c, t, Lft(c, t.n, t.key, t.red, t.right), t.left);
      } else {
        GoRight(c, t, key);
        Look(c, t, Rgt(t.left, t.n, t.key, t.red, c), t.right);
      }
    }

    lemma StartDown(key: nat)
      ensures Fits(Top, key)
    {
    }

    ghost predicate Descended(c: Ctx, t: Tree, key: nat)
      reads this, repr
    {
      At(c, t) && Plug(c, t) == tree && Fits(c, key) && Ptr(t, sentinel) in repr && (t.Node? ==> t.n != sentinel)
    }

    // Walks down from the root to the empty place for node, and hangs it there, red.
    method InsertTimerValue(start: RbNode, node: RbNode) returns (ghost c: Ctx)
      requires At(Top, tree) && tree.Node? && start == tree.n && Sorted(Items()) && node !in repr
      modifies this`repr, this`mem, repr, node
      ensures !c.Top? && Plug(c, Nil) == tree && Fits(c, node.key)
      ensures node.key == old(node.key) && repr == old(repr) + {node}
      ensures At(c, Node(Nil, node, node.key, true, Nil))
    {
      hide At, Fits, Nodes, CtxNodes, Items, Sorted;
      var temp := start;
      ghost var t := tree;
      c := Top;
      StartDown(node.key);
      while true
        invariant At(c, t) && t.Node? && temp == t.n && Plug(c, t) == tree && Fits(c, node.key)
        decreases t
        modifies {}
      {
        StepDown(c, t, node.key);
        var p := if node.key < temp.key then temp.left else temp.right;
        if node.key < temp.key {
          c, t := Lft(c, t.n, t.key, t.red, t.right), t.left;
        } else {
          c, t := Rgt(t.left, t.n, t.key, t.red, c), t.right;
        }
        if p == sentinel {
          break;
        }
        temp := p;
      }
      HangAt(temp, node, c);
    }

    // The links of the new leaf node below temp.
    method HangLinks(temp: RbNode, node: RbNode, ghost c: Ctx)
      requires Synced() && !c.Top? && temp == c.n && {temp, node} <= repr && (c.Lft? <==> node.key < temp.key)
      modifies this`mem, repr
      ensures Synced() && mem == Hung(c, node, sentinel, old(mem)) && node.key == old(node.key)
    {
      hide RbTree.Synced;
      if node.key < temp.key {
        SetLeft(temp, node);
      } else {
        SetRight(temp, node);
      }
      SetParent(node, temp);
      SetLeft(node, sentinel);
      SetRight(node, sentinel);
      SetRed(node, true);
    }

    method HangAt(temp: RbNode, node: RbNode, ghost c: Ctx)
      requires At(c, Nil) && !c.Top? && temp == c.n && node !in repr && (c.Lft? <==> node.key < c.key)
      modifies this`repr, this`mem, repr, node
      ensures At(c, Node(Nil, node, node.key, true, Nil))
      ensures node.key == old(node.key) && repr == old(repr) + {node}
    {
      hide RbTree.Synced, Holds, HoldsCtx, ZipDistinct, CtxNodes, KeyOf, LeftOf, RightOf, ParentOf;
      Seen(c, Nil, sentinel, root, mem);
      Adopt(node, c, Nil);
      Seen(c, Nil, sentinel, root, mem);
      FieldsOf(node);
      FieldsOf(temp);
      HungZip(c, node, sentinel, root, mem);
      HangLinks(temp, node, c);
    }

    method FirstLinks(node: RbNode)
      requires Synced() && node in repr
      modifies this`mem, node
      ensures Synced() && node.key == old(node.key)
      ensures var m := old(mem);
        mem == m.(parent := m.parent[node := null], left := m.left[node := sentinel],
                  right := m.right[node := sentinel], red := m.red[node := false])
    {
      hide RbTree.Synced;
      SetParent(node, null);
      SetLeft(node, sentinel);
      SetRight(node, sentinel);
      SetRed(node, false);
    }

    // The first node of an empty tree.
    method InsertFirst(node: RbNode)
      requires Valid() && root == sentinel && node !in repr
      modifies this, node
      ensures Valid() && Items() == [Item(node, node.key)]
      ensures node.key == old(node.key) && repr == old(repr) + {node}
      ensures Items() == Inserted(old(Items()), Item(node, node.key))
    {
      hide RbTree.Synced, KeyOf, LeftOf, RightOf, ParentOf;
      Seen(Top, tree, sentinel, root, mem);
      Adopt(node, Top, Nil);
      FirstZip(node, sentinel, mem);
      FieldsOf(node);
      FirstLinks(node);
      root := node;
      tree := Node(Nil, node, node.key, false, Nil);
    }

    // Hanging a red node into an empty hole leaves at most its parent red.
    lemma HungRed(c: Ctx, n: RbNode, key: nat)
      requires RedBlack(Plug(c, Nil)) && !c.Top?
      ensures RedAtHole(c, Node(Nil, n, key, true, Nil))
    {
      PlugBalanced(c, Nil);
      PlugNoRedRed(c, Nil);
      PlugRootRed(c, Nil);
    }

    method Insert(node: RbNode)
      requires Valid() && node !in repr
      modifies this, repr, node
      ensures Valid() && Items() == Inserted(old(Items()), Item(node, node.key))
      ensures node.key == old(node.key) && repr == old(repr) + {node}
    {
      hide At, Plug, Inorder, RedBlack, Sorted, Inserted, Nodes, CtxNodes, RedAtHole;
      ghost var s := Items();
      RootOf();
      if root == sentinel {
        InsertFirst(node);
        return;
      }
      ghost var c := InsertTimerValue(root, node);
      ghost var t := Node(Nil, node, node.key, true, Nil);
      ghost var i := InsertedFacts(s, Item(node, node.key));
      HungOrder(c, node, node.key);
      HungRed(c, node, node.key);
      KeyHeld(node, c, t);
      tree := Rebalance(node, c, t);
      KeyHeld(node, Top, tree);
      HungNodes(c, node, node.key);
      SameOrderSameNodes(tree, Plug(c, t));
    }

    lemma KeyHeld(n: RbNode, c: Ctx, t: Tree)
      requires At(c, t) && n in repr
      ensures n.key == KeyOf(mem, n)
    {
    }

    // The root pointer leads to the sentinel exactly when the tree is empty.
    lemma RootOf()
      requires Valid()
      ensures tree.Nil? <==> root == sentinel
      ensures tree.Node? ==> root == tree.n
      ensures At(Top, tree)
      ensures tree.Nil? ==> Items() == []
    {
      Seen(Top, tree, sentinel, root, mem);
    }

    // ---- removal: the fix-up ----

    // At, for a hole the removal fix-up works on.
    ghost predicate AtHole(c: Ctx, t: Tree)
      reads this`repr, this`mem, this`root, repr
    {
      At(c, t) && (!c.Top? && t.Nil? ==> ParentOf(mem, sentinel) == c.n)
    }

    // What the loop sees around a short hole.
    ghost predicate HoleReads(c: Ctx, t: Tree)
      reads this`repr, this`root, repr
    {
      var temp := Ptr(t, sentinel);
      && temp in repr && temp.red == IsRed(t) && (c.Top? <==> temp == root)
      && (!c.Top? ==>
            var w := Ptr(Sibling(c), sentinel);
            && c.n in repr && temp.parent == c.n && c.n.red == c.red
            && temp != w && w in repr && w.red == IsRed(Sibling(c))
            && (c.Lft? ==> c.n.left == temp && c.n.right == w)
            && (c.Rgt? ==> c.n.right == temp && c.n.left == w))
    }

    lemma HoleReadsOf(c: Ctx, t: Tree)
      requires AtHole(c, t) && (!c.Top? ==> Sibling(c).Node?) && (c.Top? ==> t.Node?)
      ensures HoleReads(c, t)
    {
      Seen(c, t, sentinel, root, mem);
      if !c.Top? {
        Look(c, t, SiblingCtx(c, t), Sibling(c));
        Seen(SiblingCtx(c, t), Sibling(c), sentinel, root, mem);
      }
    }

    // The children of the sibling.
    lemma NephewReads(c: Ctx, t: Tree)
      requires At(c, t) && !c.Top? && Sibling(c).Node?
      ensures var w := Sibling(c);
        && w.n in repr && w.n.left == Ptr(w.left, sentinel) && w.n.right == Ptr(w.right, sentinel)
        && w.n.left in repr && w.n.left.red == IsRed(w.left)
        && w.n.right in repr && w.n.right.red == IsRed(w.right)
    {
      var w := Sibling(c);
      Look(c, t, SiblingCtx(c, t), w);
      Seen(SiblingCtx(c, t), w, sentinel, root, mem);
      assert Holds(w.left, sentinel, mem) && Holds(w.right, sentinel, mem);
    }

    method PaintSibling(o: RbNode, red: bool, ghost c: Ctx, ghost t: Tree)
      requires At(c, t) && !c.Top? && Sibling(c).Node? && o == Sibling(c).n
      modifies this`mem, o`red
      ensures mem.key == old(mem.key) && mem.parent == old(mem.parent)
      ensures At(WithSibling(c, Sibling(c).(red := red)), t)
      ensures Inorder(Plug(WithSibling(c, Sibling(c).(red := red)), t)) == Inorder(Plug(c, t))
    {
      ghost var w, sc := Sibling(c), SiblingCtx(c, t);
      Look(c, t, sc, w);
      Paint(o, red, sc, w);
      Look(sc, w.(red := red), WithSibling(c, w.(red := red)), t);
    }

    method PaintParent(o: RbNode, red: bool, ghost c: Ctx, ghost t: Tree)
      requires At(c, t) && !c.Top? && o == c.n
      modifies this`mem, o`red
      ensures mem.key == old(mem.key) && mem.parent == old(mem.parent)
      ensures At(CtxPainted(c, red), t)
      ensures Inorder(Plug(CtxPainted(c, red), t)) == Inorder(Plug(c, t))
    {
      ghost var p := Parent(c, t);
      Look(c, t, c.up, p);
      Paint(o, red, c.up, p);
      Look(c.up, p.(red := red), CtxPainted(c, red), t);
    }

    // A red sibling on the right is rotated above the parent.
    method LiftSiblingLeft(parent: RbNode, w: RbNode, ghost c: Ctx, ghost t: Tree) returns (ghost c': Ctx)
      requires AtHole(c, t) && ShortAtHole(c, t) && c.Lft? && IsRed(c.right) && parent == c.n && w == c.right.n
      modifies this`root, this`mem, repr
      ensures mem.key == old(mem.key)
      ensures c' == Lft(Lft(c.up, c.right.n, c.right.key, false, c.right.right), c.n, c.key, true, c.right.left)
      ensures AtHole(c', t) && ShortAtHole(c', t)
      ensures Inorder(Plug(c', t)) == Inorder(Plug(c, t))
    {
      RedSiblingKeepsLeft(c, t);
      ghost var c1 := c.(right := c.right.(red := false));
      ghost var c2 := CtxPainted(c1, true);
      PaintSibling(w, false, c, t);
      PaintParent(parent, true, c1, t);
      Look(c2, t, c2.up, Parent(c2, t));
      LeftRotate(parent, c2.up, Parent(c2, t));
      c' := Lft(Lft(c.up, c.right.n, c.right.key, false, c.right.right), c.n, c.key, true, c.right.left);
      Look(c2.up, RotatedLeft(Parent(c2, t)), c', t);
    }

    // The sibling's red inner child is rotated above the sibling.
    method TurnNephewLeft(w: RbNode, ghost c: Ctx, ghost t: Tree) returns (ghost c': Ctx)
      requires AtHole(c, t) && ShortAtHole(c, t) && c.Lft? && !IsRed(c.right) && c.right.Node? && w == c.right.n
      requires IsRed(c.right.left) && !IsRed(c.right.right)
      modifies this`root, this`mem, repr
      ensures mem.key == old(mem.key)
      ensures c' == c.(right := RotatedRight(c.right.(red := true, left := c.right.left.(red := false))))
      ensures AtHole(c', t) && ShortAtHole(c', t)
      ensures Inorder(Plug(c', t)) == Inorder(Plug(c, t))
    {
      hide RbTree.At;
      InnerNephewKeepsLeft(c, t);
      ghost var v, sc := c.right.left, SiblingCtx(c, t);
      NephewReads(c, t);
      Look(c, t, Lft(sc, c.right.n, c.right.key, c.right.red, c.right.right), v);
      Paint(w.left, false, Lft(sc, c.right.n, c.right.key, c.right.red, c.right.right), v);
      ghost var w1 := c.right.(left := v.(red := false));
      Look(Lft(sc, c.right.n, c.right.key, c.right.red, c.right.right), v.(red := false), sc, w1);
      Paint(w, true, sc, w1);
      RightRotate(w, sc, w1.(red := true));
      c' := c.(right := RotatedRight(w1.(red := true)));
      Look(sc, RotatedRight(w1.(red := true)), c', t);
    }

    // The sibling's red outer child pays: the whole tree is red-black again.
    method PayLeft(parent: RbNode, w: RbNode, ghost c: Ctx, ghost t: Tree) returns (ghost tree': Tree)
      requires AtHole(c, t) && ShortAtHole(c, t) && c.Lft? && !IsRed(t) && parent == c.n
      requires c.right.Node? && !IsRed(c.right) && w == c.right.n && IsRed(c.right.right)
      modifies this`root, this`mem, repr
      ensures mem.key == old(mem.key)
      ensures At(Top, tree') && RedBlack(tree') && tree'.Node? && Inorder(tree') == Inorder(Plug(c, t))
    {
      hide RbTree.At;
      OuterNephewPaysLeft(c, t);
      NephewReads(c, t);
      ghost var u := c.right.right;
      HoleReadsOf(c, t);
      PaintSibling(w, parent.red, c, t);
      ghost var c1 := c.(right := c.right.(red := c.red));
      PaintParent(parent, false, c1, t);
      ghost var c2 := CtxPainted(c1, false);
      ghost var w2 := c2.right;
      ghost var uc := Rgt(w2.left, w2.n, w2.key, w2.red, SiblingCtx(c2, t));
      Look(c2, t, uc, u);
      Paint(w.right, false, uc, u);
      ghost var p := Node(t, c.n, c.key, false, w2.(right := u.(red := false)));
      Look(uc, u.(red := false), c.up, p);
      LeftRotate(parent, c.up, p);
      tree' := Plug(c.up, RotatedLeft(p));
      Look(c.up, RotatedLeft(p), Top, tree');
    }
    // A red sibling on the left is rotated above the parent.
    method LiftSiblingRight(parent: RbNode, w: RbNode, ghost c: Ctx, ghost t: Tree) returns (ghost c': Ctx)
      requires AtHole(c, t) && ShortAtHole(c, t) && c.Rgt? && IsRed(c.left) && parent == c.n && w == c.left.n
      modifies this`root, this`mem, repr
      ensures mem.key == old(mem.key)
      ensures c' == Rgt(c.left.right, c.n, c.key, true, Rgt(c.left.left, c.left.n, c.left.key, false, c.up))
      ensures AtHole(c', t) && ShortAtHole(c', t)
      ensures Inorder(Plug(c', t)) == Inorder(Plug(c, t))
    {
      hide RbTree.Synced;
      RedSiblingKeepsRight(c, t);
      ghost var c1 := c.(left := c.left.(red := false));
      ghost var c2 := CtxPainted(c1, true);
      PaintSibling(w, false, c, t);
      PaintParent(parent, true, c1, t);
      Look(c2, t, c2.up, Parent(c2, t));
      RightRotate(parent, c2.up, Parent(c2, t));
      c' := Rgt(c.left.right, c.n, c.key, true, Rgt(c.left.left, c.left.n, c.left.key, false, c.up));
      Look(c2.up, RotatedRight(Parent(c2, t)), c', t);
    }

    // The sibling's red inner child is rotated above the sibling.
    method TurnNephewRight(w: RbNode, ghost c: Ctx, ghost t: Tree) returns (ghost c': Ctx)
      requires AtHole(c, t) && ShortAtHole(c, t) && c.Rgt? && !IsRed(c.left) && c.left.Node? && w == c.left.n
      requires IsRed(c.left.right) && !IsRed(c.left.left)
      modifies this`root, this`mem, repr
      ensures mem.key == old(mem.key)
      ensures c' == c.(left := RotatedLeft(c.left.(red := true, right := c.left.right.(red := false))))
      ensures AtHole(c', t) && ShortAtHole(c', t)
      ensures Inorder(Plug(c', t)) == Inorder(Plug(c, t))
    {
      hide RbTree.At;
      InnerNephewKeepsRight(c, t);
      ghost var v, sc := c.left.right, SiblingCtx(c, t);
      NephewReads(c, t);
      Look(c, t, Rgt(c.left.left, c.left.n, c.left.key, c.left.red, sc), v);
      Paint(w.right, false, Rgt(c.left.left, c.left.n, c.left.key, c.left.red, sc), v);
      ghost var w1 := c.left.(right := v.(red := false));
      Look(Rgt(c.left.left, c.left.n, c.left.key, c.left.red, sc), v.(red := false), sc, w1);
      Paint(w, true, sc, w1);
      LeftRotate(w, sc, w1.(red := true));
      c' := c.(left := RotatedLeft(w1.(red := true)));
      Look(sc, RotatedLeft(w1.(red := true)), c', t);
    }

    // The sibling's red outer child pays: the whole tree is red-black again.
    method PayRight(parent: RbNode, w: RbNode, ghost c: Ctx, ghost t: Tree) returns (ghost tree': Tree)
      requires AtHole(c, t) && ShortAtHole(c, t) && c.Rgt? && !IsRed(t) && parent == c.n
      requires c.left.Node? && !IsRed(c.left) && w == c.left.n && IsRed(c.left.left)
      modifies this`root, this`mem, repr
      ensures mem.key == old(mem.key)
      ensures At(Top, tree') && RedBlack(tree') && tree'.Node? && Inorder(tree') == Inorder(Plug(c, t))
    {
      hide RbTree.At;
      OuterNephewPaysRight(c, t);
      NephewReads(c, t);
      ghost var u := c.left.left;
      HoleReadsOf(c, t);
      PaintSibling(w, parent.red, c, t);
      ghost var c1 := c.(left := c.left.(red := c.red));
      PaintParent(parent, false, c1, t);
      ghost var c2 := CtxPainted(c1, false);
      ghost var w2 := c2.left;
      ghost var uc := Lft(SiblingCtx(c2, t), w2.n, w2.key, w2.red, w2.right);
      Look(c2, t, uc, u);
      Paint(w.left, false, uc, u);
      ghost var p := Node(w2.(left := u.(red := false)), c.n, c.key, false, t);
      Look(uc, u.(red := false), c.up, p);
      RightRotate(parent, c.up, p);
      tree' := Plug(c.up, RotatedRight(p));
      Look(c.up, RotatedRight(p), Top, tree');
    }

    // The sibling turns red and the shortage passes to the parent.
    method PassUp(w: RbNode, ghost c: Ctx, ghost t: Tree)
      requires AtHole(c, t) && ShortAtHole(c, t) && !c.Top? && !IsRed(t) && Sibling(c).Node? && w == Sibling(c).n
      requires !IsRed(Sibling(c)) && !IsRed(Sibling(c).left) && !IsRed(Sibling(c).right)
      modifies this`mem, w`red
      ensures mem.key == old(mem.key)
      ensures AtHole(c.up, PassedUp(c, t)) && ShortAtHole(c.up, PassedUp(c, t))
      ensures Inorder(Plug(c.up, PassedUp(c, t))) == Inorder(Plug(c, t))
    {
      PassUpKeeps(c, t);
      PaintSibling(w, true, c, t);
      Look(WithSibling(c, Sibling(c).(red := true)), t, c.up, PassedUp(c, t));
    }

    lemma WholeIsShort(t: Tree)
      requires RedBlack(t) && At(Top, t)
      ensures ShortAtHole(Top, t) && AtHole(Top, t) && Plug(Top, t) == t
    {
    }

    // One turn of the removal loop at a hole on the left.
    method FixShortLeft(start: RbNode, ghost c0: Ctx, ghost t0: Tree)
        returns (temp: RbNode, ghost c: Ctx, ghost t: Tree)
      requires AtHole(c0, t0) && ShortAtHole(c0, t0) && c0.Lft? && !IsRed(t0) && start == Ptr(t0, sentinel)
      modifies this`root, this`mem, repr
      ensures mem.key == old(mem.key)
      ensures AtHole(c, t) && ShortAtHole(c, t) && temp == Ptr(t, sentinel) && (c.Top? ==> t.Node?)
      ensures Inorder(Plug(c, t)) == Inorder(Plug(c0, t0))
      ensures c.Top? || IsRed(t) || c == c0.up
    {
      hide At, ShortAtHole, Plug, Inorder, RedBlack, Synced;
      temp, c, t := start, c0, t0;
      SiblingExists(c, t);
      HoleReadsOf(c, t);
      var w := temp.parent.right;
      if w.red {
        c := LiftSiblingLeft(temp.parent, w, c, t);
        SiblingExists(c, t);
        HoleReadsOf(c, t);
        w := temp.parent.right;
      }
      NephewReads(c, t);
      if !w.left.red && !w.right.red {
        PassUp(w, c, t);
        temp := temp.parent;
        c, t := c.up, PassedUp(c, t);
      } else {
        if !w.right.red {
          c := TurnNephewLeft(w, c, t);
          SiblingExists(c, t);
          HoleReadsOf(c, t);
          w := temp.parent.right;
        }
        t := PayLeft(temp.parent, w, c, t);
        c := Top;
        WholeIsShort(t);
        HoleReadsOf(c, t);
        temp := root;
      }
    }

    // One turn of the removal loop at a hole on the right.
    method FixShortRight(start: RbNode, ghost c0: Ctx, ghost t0: Tree)
        returns (temp: RbNode, ghost c: Ctx, ghost t: Tree)
      requires AtHole(c0, t0) && ShortAtHole(c0, t0) && c0.Rgt? && !IsRed(t0) && start == Ptr(t0, sentinel)
      modifies this`root, this`mem, repr
      ensures mem.key == old(mem.key)
      ensures AtHole(c, t) && ShortAtHole(c, t) && temp == Ptr(t, sentinel) && (c.Top? ==> t.Node?)
      ensures Inorder(Plug(c, t)) == Inorder(Plug(c0, t0))
      ensures c.Top? || IsRed(t) || c == c0.up
    {
      hide At, ShortAtHole, Plug, Inorder, RedBlack, Synced, HoldsZip;
      temp, c, t := start, c0, t0;
      SiblingExists(c, t);
      HoleReadsOf(c, t);
      var w := temp.parent.left;
      if w.red {
        c := LiftSiblingRight(temp.parent, w, c, t);
        SiblingExists(c, t);
        HoleReadsOf(c, t);
        w := temp.parent.left;
      }
      NephewReads(c, t);
      if !w.right.red && !w.left.red {
        PassUp(w, c, t);
        temp := temp.parent;
        c, t := c.up, PassedUp(c, t);
      } else {
        if !w.left.red {
          c := TurnNephewRight(w, c, t);
          SiblingExists(c, t);
          HoleReadsOf(c, t);
          w := temp.parent.left;
        }
        t := PayRight(temp.parent, w, c, t);
        c := Top;
        WholeIsShort(t);
        HoleReadsOf(c, t);
        temp := root;
      }
    }

    lemma DepthUp(c: Ctx)
      ensures !c.Top? ==> Depth(c.up) < Depth(c)
    {
    }

    lemma ShortReads(c: Ctx, t: Tree)
      requires AtHole(c, t) && ShortAtHole(c, t) && (c.Top? ==> t.Node?)
      ensures HoleReads(c, t)
    {
      if !c.Top? {
        SiblingExists(c, t);
      }
      HoleReadsOf(c, t);
    }

    method BlackenHole(temp: RbNode, ghost c: Ctx, ghost t: Tree) returns (ghost w: Tree)
      requires AtHole(c, t) && ShortAtHole(c, t) && temp == Ptr(t, sentinel) && t.Node? && (c.Top? || IsRed(t))
      modifies this`mem, temp`red
      ensures mem.key == old(mem.key)
      ensures At(Top, w) && RedBlack(w) && Inorder(w) == Inorder(Plug(c, t))
    {
      DeleteDone(c, t);
      Paint(temp, false, c, t);
      w := Plug(c, Blacken(t));
      Look(c, Blacken(t), Top, w);
    }

    // The removal fix-up: the subtree t0 at c0 is one black node short.
    method Refill(start: RbNode, ghost c0: Ctx, ghost t0: Tree) returns (ghost w: Tree)
      requires AtHole(c0, t0) && ShortAtHole(c0, t0) && start == Ptr(t0, sentinel) && (c0.Top? ==> t0.Node?)
      modifies this`root, this`mem, repr
      ensures mem.key == old(mem.key)
      ensures At(Top, w) && RedBlack(w) && Inorder(w) == Inorder(Plug(c0, t0))
    {
      hide At, AtHole, ShortAtHole, Plug, Inorder, RedBlack, Synced, Depth;
      var temp := start;
      ghost var c, t := c0, t0;
      ShortReads(c, t);
      while temp != root && !temp.red
        invariant AtHole(c, t) && ShortAtHole(c, t) && HoleReads(c, t) && temp == Ptr(t, sentinel)
        invariant c.Top? ==> t.Node?
        invariant mem.key == old(mem.key)
        invariant Inorder(Plug(c, t)) == Inorder(Plug(c0, t0))
        decreases if c.Top? || IsRed(t) then 0 else 1 + Depth(c)
      {
        DepthUp(c);
        if temp == temp.parent.left {
          temp, c, t := FixShortLeft(temp, c, t);
        } else {
          temp, c, t := FixShortRight(temp, c, t);
        }
        ShortReads(c, t);
      }
      w := BlackenHole(temp, c, t);
    }

    // ---- removal: taking the node out ----

    // The leftmost node below start.
    method Min(start: RbNode, ghost c0: Ctx, ghost t0: Tree) returns (node: RbNode)
      requires At(c0, t0) && t0.Node? && start == t0.n
      ensures node == MinTree(t0).n && At(MinCtx(c0, t0), MinTree(t0))
    {
      hide At, MinTree, MinCtx;
      node := start;
      ghost var c, t := c0, t0;
      MinStep(c, t);
      while node.left != sentinel
        invariant At(c, t) && t.Node? && node == t.n && node in repr
        invariant t.left.Nil? <==> node.left == sentinel
        invariant t.left.Node? ==> node.left == t.left.n
        invariant MinTree(t) == MinTree(t0) && MinCtx(c, t) == MinCtx(c0, t0)
        decreases t
      {
        node := node.left;
        MinStep(c, t);
        c, t := Lft(c, t.n, t.key, t.red, t.right), t.left;
        MinStep(c, t);
      }
      MinStep(c, t);
    }

    lemma MinStep(c: Ctx, t: Tree)
      requires At(c, t) && t.Node?
      ensures t.n in repr && t.n.left == Ptr(t.left, sentinel)
      ensures t.left.Nil? ==> MinTree(t) == t && MinCtx(c, t) == c && t.n.left == sentinel
      ensures t.left.Node? ==>
        var c' := Lft(c, t.n, t.key, t.red, t.right);
        MinTree(t.left) == MinTree(t) && MinCtx(c', t.left) == MinCtx(c, t) && At(c', t.left) && t.left.n != sentinel
    {
      Seen(c, t, sentinel, root, mem);
      if t.left.Node? {
        Look(c, t, Lft(c, t.n, t.key, t.red, t.right), t.left);
      }
    }

    // The fields of a removed node are cleared.
    method Clear(node: RbNode, ghost c: Ctx, ghost t: Tree)
      requires At(c, t) && node in repr && node !in CtxNodes(c) && node !in Nodes(t) && node != sentinel
      modifies this`repr, node
      ensures At(c, t) && repr == old(repr) - {node}
      ensures node.left == null && node.right == null && node.parent == null && node.key == 0
    {
      hide Nodes, HoldsZip, RedOf, KeyOf, LeftOf, RightOf, ParentOf;
      repr := repr - {node};
      node.left := null;
      node.right := null;
      node.parent := null;
      node.key := 0;
    }

    // The parent of subst, at c, gets temp in the place of subst.
    method CutLink(subst: RbNode, temp: RbNode, ghost c: Ctx)
      requires Synced() && !c.Top? && c.n in repr && subst in repr && ParentOf(mem, subst) == c.n
      requires c.Lft? ==> LeftOf(mem, c.n) == subst
      requires c.Rgt? ==> LeftOf(mem, c.n) != subst
      modifies this`mem, c.n
      ensures Synced() && mem == HoleLinked(c, temp, old(mem))
    {
      if subst == subst.parent.left {
        SetLeft(subst.parent, temp);
      } else {
        SetRight(subst.parent, temp);
      }
    }

    // Cuts a node with at most one child out from below its parent.
    method Splice(subst: RbNode, temp: RbNode, ghost c: Ctx, ghost t: Tree)
      requires At(c, t) && t.Node? && (t.left.Nil? || t.right.Nil?) && !c.Top?
      requires subst == t.n && temp == Ptr(OnlyChild(t), sentinel)
      modifies this`mem, repr
      ensures AtHole(c, OnlyChild(t))
      ensures mem == Spliced(c, OnlyChild(t), sentinel, old(mem)) && root == old(root)
    {
      Seen(c, t, sentinel, root, mem);
      SplicedZip(c, t, sentinel, root, mem);
      OnlyChildIn(t);
      CutLink(subst, temp, c);
      SetParent(temp, subst.parent);
    }

    lemma OnlyChildIn(t: Tree)
      requires t.Node? && Distinct(t)
      ensures OnlyChild(t).Node? ==> OnlyChild(t).n in Nodes(t) && OnlyChild(t).n != t.n
    {
    }

    // subst copies the links and the colour of node, and is hung where node was.
    method CopyPlace(node: RbNode, subst: RbNode, ghost c: Ctx)
      requires Synced() && node in repr && subst in repr && node != subst
      requires c.Top? <==> node == root
      requires !c.Top? ==> c.n in repr && ParentOf(mem, node) == c.n && c.n != subst
      requires c.Lft? ==> LeftOf(mem, c.n) == node
      requires c.Rgt? ==> LeftOf(mem, c.n) != node
      modifies this`mem, this`root, repr
      ensures Synced() && root == if c.Top? then subst else old(root)
      ensures mem == HoleLinked(c, subst, PlaceCopied(node, subst, old(mem)))
    {
      SetLeft(subst, node.left);
      SetRight(subst, node.right);
      SetParent(subst, node.parent);
      SetRed(subst, node.red);
      Relink(node, subst, c);
    }

    // The children of subst get it as their parent.
    method AdoptChildren(subst: RbNode, ghost l: Tree, ghost r: Tree)
      requires Synced() && subst in repr && Ptr(l, sentinel) in repr && Ptr(r, sentinel) in repr
      requires LeftOf(mem, subst) == Ptr(l, sentinel) && RightOf(mem, subst) == Ptr(r, sentinel)
      requires l.Node? ==> l.n != sentinel
      requires r.Node? ==> r.n != sentinel
      modifies this`mem, repr
      ensures Synced() && mem == ChildrenAdopted(l, r, subst, old(mem))
    {
      if subst.left != sentinel {
        SetParent(subst.left, subst);
      }
      if subst.right != sentinel {
        SetParent(subst.right, subst);
      }
    }

    // subst takes over the links, the colour and the place of node.
    method TakePlace(node: RbNode, subst: RbNode, ghost c: Ctx, ghost z: Tree)
      requires Synced() && PlaceReady(c, z, node, sentinel, root, mem) && !RedOf(mem, sentinel)
      requires subst == z.n && node in repr && sentinel in repr && CtxNodes(c) <= repr && Nodes(z) <= repr
      requires node !in CtxNodes(c) && node !in Nodes(z) && node != sentinel
      modifies this`mem, this`root, repr
      ensures At(c, z) && ParentOf(mem, sentinel) == old(ParentOf(mem, sentinel)) && mem.key == old(mem.key)
    {
      hide RbTree.Synced, Nodes, ParentOf, KeyOf, Holds, IsChild;
      PlaceTakenZip(c, z, node, sentinel, root, mem);
      PlaceReads(c, z, node, sentinel, root, mem);
      CopyPlace(node, subst, c);
      AdoptChildren(subst, z.left, z.right);
    }

    // The state after the successor took node's place.
    ghost predicate ReplacedIn(c: Ctx, t: Tree)
      requires t.Node? && t.right.Node?
      reads this`repr, this`mem, this`root, repr
    {
      && At(c, Replaced(t))
      && (MinTree(t.right).right.Nil? ==> !ReplacedCtx(c, t).Top? && ParentOf(mem, sentinel) == ReplacedCtx(c, t).n)
    }

    // The successor is the right child of node.
    method ReplaceNear(node: RbNode, subst: RbNode, temp: RbNode, ghost c: Ctx, ghost t: Tree)
      requires At(c, t) && t.Node? && t.right.Node? && t.right.left.Nil?
      requires node == t.n && subst == t.right.n && temp == Ptr(t.right.right, sentinel)
      modifies this`mem, this`root, repr
      ensures ReplacedIn(c, t) && mem.key == old(mem.key)
    {
      hide HoldsZip, Nodes, CtxNodes, RedOf, ParentOf, ZipDistinct, HoldsCtx, Holds, IsChild, WithMin, KeyOf;
      hide LeftOf, RightOf;
      NearReads(c, t);
      NearReady(c, t, sentinel, root, mem);
      CutLink(subst, temp, Rgt(t.left, t.n, t.key, t.red, c));
      SetParent(temp, subst);
      TakePlace(node, subst, c, Replaced(t));
    }

    lemma NearReads(c: Ctx, t: Tree)
      requires At(c, t) && t.Node? && t.right.Node?
      ensures t.n in repr && t.right.n in repr && t.right.n.parent == t.n && t.n.left != t.right.n
      ensures Ptr(t.right.right, sentinel) in repr && t.n != sentinel && t.right.n != sentinel
      ensures Nodes(Replaced(t)) == Nodes(t) - {t.n} && t.n !in CtxNodes(c)
    {
      ReplacedDistinct(c, t);
      assert t.left.Node? ==> t.left.n in Nodes(t.left);
    }

    // The successor lies deeper.
    method ReplaceFar(node: RbNode, subst: RbNode, temp: RbNode, ghost c: Ctx, ghost t: Tree)
      requires At(c, t) && t.Node? && t.right.Node? && t.right.left.Node?
      requires node == t.n && subst == MinTree(t.right).n && temp == Ptr(MinTree(t.right).right, sentinel)
      modifies this`mem, this`root, repr
      ensures ReplacedIn(c, t) && mem.key == old(mem.key)
    {
      ghost var mc, s := MinCtx(Rgt(t.left, t.n, t.key, t.red, c), t.right), MinTree(t.right);
      FarFacts(c, t);
      Splice(subst, temp, mc, s);
      Look(mc, s.right, c, Node(t.left, t.n, t.key, t.red, WithMin(t.right, s.right)));
      FarReady(c, t, sentinel, root, mem);
      TakePlace(node, subst, c, Replaced(t));
    }

    lemma FarFacts(c: Ctx, t: Tree)
      requires At(c, t) && t.Node? && t.right.Node? && t.right.left.Node?
      ensures var mc, s := MinCtx(Rgt(t.left, t.n, t.key, t.red, c), t.right), MinTree(t.right);
        && At(mc, s) && !mc.Top? && !ReplacedCtx(c, t).Top? && mc.n == ReplacedCtx(c, t).n && OnlyChild(s) == s.right
        && Plug(mc, s.right) == Plug(c, Node(t.left, t.n, t.key, t.red, WithMin(t.right, s.right)))
        && KeyOf(mem, s.n) == s.key && s.n != sentinel
      ensures t.n in repr && t.n != sentinel && Nodes(Replaced(t)) == Nodes(t) - {t.n} && t.n !in CtxNodes(c)
    {
      var r, s := Rgt(t.left, t.n, t.key, t.red, c), MinTree(t.right);
      MinPlug(r, t.right, s.right);
      MinCtxNode(r, Rgt(t.left, s.n, s.key, t.red, c), t.right);
      Look(c, t, MinCtx(r, t.right), s);
      Seen(MinCtx(r, t.right), s, sentinel, root, mem);
      ReplacedDistinct(c, t);
    }

    // The tree and its items without a root that has at most one child.
    lemma RootTakenOut(t: Tree)
      requires Valid() && t == tree && t.Node? && (t.left.Nil? || t.right.Nil?)
      ensures var x := Blacken(OnlyChild(t));
        && RedBlack(x) && Sorted(Inorder(x)) && Inorder(x) == Removed(Items(), t.n)
        && Nodes(x) == Nodes(OnlyChild(t))
    {
      hide HoldsZip, RbTree.Synced;
      RootReads(t, sentinel, root, mem);
      TakenOut(Top, t);
      TakenOutOrder(Top, t, OnlyChild(t));
      RemovedSorted(Items(), t.n);
    }

    // A root with at most one child gives way to it.
    method DeleteRoot(node: RbNode, temp: RbNode, ghost t: Tree)
      requires Valid() && t == tree && t.Node? && (t.left.Nil? || t.right.Nil?)
      requires node == t.n && temp == Ptr(OnlyChild(t), sentinel)
      modifies this, repr
      ensures Valid() && repr == old(repr) - {node} && Items() == Removed(old(Items()), node)
      ensures node.left == null && node.right == null && node.parent == null && node.key == 0
      // the parent link of the new root is left at the node that has gone
      ensures root != sentinel ==> root.parent == node
    {
      hide HoldsZip, ZipDistinct, Distinct, Holds, HoldsCtx, Inorder, Sorted, Removed, RedBlack, LeftOf;
      hide RightOf, ParentOf;
      RootReads(t, sentinel, root, mem);
      RootTakenOut(t);
      RootGivesWay(t, sentinel, mem);
      root := temp;
      SetRed(temp, false);
      tree := Blacken(OnlyChild(t));
      Clear(node, Top, tree);
    }

    // Takes node out of the tree; what hangs at c' is temp's subtree.
    method Unlink(node: RbNode, subst: RbNode, temp: RbNode, ghost c: Ctx, ghost t: Tree)
        returns (ghost c': Ctx, ghost t': Tree)
      requires At(c, t) && t.Node? && node == t.n && RedBlack(Plug(c, t))
      requires if t.left.Nil? || t.right.Nil? then subst == node && temp == Ptr(OnlyChild(t), sentinel) && !c.Top?
               else subst == MinTree(t.right).n && temp == Ptr(MinTree(t.right).right, sentinel)
      modifies this`mem, this`root, repr
      ensures mem.key == old(mem.key)
      ensures AtHole(c', t') && temp == Ptr(t', sentinel) && !c'.Top?
      ensures old(subst.red) ==> RedBlack(Plug(c', t'))
      ensures !old(subst.red) ==> ShortAtHole(c', t')
      ensures Inorder(Plug(c', t')) == Removed(Inorder(Plug(c, t)), node)
      ensures Nodes(Plug(c', t')) == Nodes(Plug(c, t)) - {node}
    {
      UnlinkFacts(c, t);
      if subst == node {
        Splice(subst, temp, c, t);
        c', t' := c, OnlyChild(t);
      } else {
        if subst.parent == node {
          ReplaceNear(node, subst, temp, c, t);
        } else {
          ReplaceFar(node, subst, temp, c, t);
        }
        c', t' := ReplacedCtx(c, t), MinTree(t.right).right;
        Look(c, Replaced(t), c', t');
      }
    }

    // What comes of each of the two ways to unlink.
    lemma UnlinkFacts(c: Ctx, t: Tree)
      requires At(c, t) && t.Node? && RedBlack(Plug(c, t))
      ensures (t.left.Nil? || t.right.Nil?) ==>
        var x := OnlyChild(t);
        && t.n.red == t.red
        && (t.red ==> RedBlack(Plug(c, x))) && (!t.red ==> ShortAtHole(c, x))
        && Inorder(Plug(c, x)) == Removed(Inorder(Plug(c, t)), t.n)
        && Nodes(Plug(c, x)) == Nodes(Plug(c, t)) - {t.n}
      ensures t.left.Node? && t.right.Node? ==>
        var s, h := MinTree(t.right), ReplacedCtx(c, t);
        && s.n != t.n && s.n.red == s.red && !h.Top? && Plug(h, s.right) == Plug(c, Replaced(t))
        && (s.n.parent == t.n <==> t.right.left.Nil?)
        && (s.red ==> RedBlack(Plug(h, s.right))) && (!s.red ==> ShortAtHole(h, s.right))
        && Inorder(Plug(h, s.right)) == Removed(Inorder(Plug(c, t)), t.n)
        && Nodes(Plug(h, s.right)) == Nodes(Plug(c, t)) - {t.n}
    {
      if t.left.Nil? || t.right.Nil? {
        UnlinkSingle(c, t);
      } else {
        UnlinkDouble(c, t);
      }
    }

    lemma UnlinkSingle(c: Ctx, t: Tree)
      requires At(c, t) && t.Node? && RedBlack(Plug(c, t)) && (t.left.Nil? || t.right.Nil?)
      ensures var x := OnlyChild(t);
        && t.n.red == t.red
        && (t.red ==> RedBlack(Plug(c, x))) && (!t.red ==> ShortAtHole(c, x))
        && Inorder(Plug(c, x)) == Removed(Inorder(Plug(c, t)), t.n)
        && Nodes(Plug(c, x)) == Nodes(Plug(c, t)) - {t.n}
    {
      hide CtxNodes, ParentOf, RightOf, Removed, RedOf, NoRedRed, Balanced, CtxBalanced, CtxNoRedRed;
      hide CtxRootBlack, KeyOf, LeftOf, HoldsCtx, IsChild;
      TakenOut(c, t);
      TakenOutOrder(c, t, OnlyChild(t));
      PlugNodes(c, t);
      PlugNodes(c, OnlyChild(t));
    }

    lemma UnlinkDouble(c: Ctx, t: Tree)
      requires At(c, t) && t.Node? && RedBlack(Plug(c, t)) && t.left.Node? && t.right.Node?
      ensures var s, h := MinTree(t.right), ReplacedCtx(c, t);
        && s.n != t.n && s.n.red == s.red && !h.Top? && Plug(h, s.right) == Plug(c, Replaced(t))
        && (s.n.parent == t.n <==> t.right.left.Nil?)
        && (s.red ==> RedBlack(Plug(h, s.right))) && (!s.red ==> ShortAtHole(h, s.right))
        && Inorder(Plug(h, s.right)) == Removed(Inorder(Plug(c, t)), t.n)
        && Nodes(Plug(h, s.right)) == Nodes(Plug(c, t)) - {t.n}
    {
      SuccessorReads(c, t);
      ReplacedKeeps(c, t);
      ReplacedOrder(t);
      TakenOutOrder(c, t, Replaced(t));
      ReplacedDistinct(c, t);
      PlugNodes(c, t);
      PlugNodes(c, Replaced(t));
    }

    lemma SuccessorReads(c: Ctx, t: Tree)
      requires At(c, t) && t.Node? && t.right.Node?
      ensures var s := MinTree(t.right);
        && s.n != t.n && s.n.red == s.red && (s.n.parent == t.n <==> t.right.left.Nil?)
    {
      var r, s := Rgt(t.left, t.n, t.key, t.red, c), MinTree(t.right);
      MinPlug(r, t.right, s.right);
      Look(c, t, MinCtx(r, t.right), s);
      Seen(MinCtx(r, t.right), s, sentinel, root, mem);
      ReplacedDistinct(c, t);
      MinCtxDown(r, t.right);
      if t.right.left.Node? {
        MinCtxIn(r, t.right);
      }
    }

    // Every node of the tree has a place in it.
    lemma PlaceOf(node: RbNode) returns (c: Ctx, t: Tree)
      requires Valid() && node in repr && node != sentinel
      ensures At(c, t) && t.Node? && t.n == node && Plug(c, t) == tree && Reads(c, t)
      ensures node.left == Ptr(t.left, sentinel) && node.right == Ptr(t.right, sentinel)
      ensures t.left.Nil? <==> node.left == sentinel
      ensures t.right.Nil? <==> node.right == sentinel
    {
      c, t := Locate(Top, tree, node);
      Look(Top, tree, c, t);
      Seen(c, t, sentinel, root, mem);
      assert t.left.Node? ==> t.left.n in Nodes(t);
      assert t.right.Node? ==> t.right.n in Nodes(t);
    }

    // What the successor search needs and finds.
    lemma SuccessorOf(c: Ctx, t: Tree)
      requires At(c, t) && t.Node? && t.right.Node?
      ensures At(Rgt(t.left, t.n, t.key, t.red, c), t.right)
      ensures MinTree(t.right).n != root && MinTree(t.right).n in repr
    {
      var r, s := Rgt(t.left, t.n, t.key, t.red, c), MinTree(t.right);
      Look(c, t, r, t.right);
      MinPlug(r, t.right, s.right);
      MinCtxDown(r, t.right);
      Look(r, t.right, MinCtx(r, t.right), s);
      Seen(MinCtx(r, t.right), s, sentinel, root, mem);
    }

    method Delete(node: RbNode)
      requires Valid() && node in repr && node != sentinel
      modifies this, repr
      ensures Valid() && Items() == Removed(old(Items()), node)
      ensures repr == old(repr) - {node}
      ensures node.left == null && node.right == null && node.parent == null && node.key == 0
    {
      hide At, Inorder, Nodes, CtxNodes, RedBlack, ShortAtHole, Sorted, Removed, MinTree, RbTree.Synced;
      ghost var c, t := PlaceOf(node);
      var subst, temp;
      if node.left == sentinel {
        temp := node.right;
        subst := node;
      } else if node.right == sentinel {
        temp := node.left;
        subst := node;
      } else {
        SuccessorOf(c, t);
        subst := Min(node.right, Rgt(t.left, t.n, t.key, t.red, c), t.right);
        SuccessorChild(c, t);
        temp := subst.right;
      }
      if subst == root {
        DeleteRoot(node, temp, t);
        return;
      }
      RemovedSorted(Items(), node);
      var red := subst.red;
      ghost var c', t' := Unlink(node, subst, temp, c, t);
      OffTree(c', t', tree, node);
      Clear(node, c', t');
      if red {
        tree := Plug(c', t');
        Whole(c', t');
      } else {
        tree := Refill(temp, c', t');
        SameOrderSameNodes(tree, Plug(c', t'));
      }
    }

    lemma SuccessorChild(c: Ctx, t: Tree)
      requires At(c, t) && t.Node? && t.right.Node?
      ensures MinTree(t.right).n.right == Ptr(MinTree(t.right).right, sentinel)
      ensures MinTree(t.right).n in repr
    {
      var r, s := Rgt(t.left, t.n, t.key, t.red, c), MinTree(t.right);
      MinPlug(r, t.right, s.right);
      Look(c, t, MinCtx(r, t.right), s);
      Seen(MinCtx(r, t.right), s, sentinel, root, mem);
    }

    lemma OffTree(c: Ctx, t: Tree, oldTree: Tree, node: RbNode)
      requires Nodes(Plug(c, t)) == Nodes(oldTree) - {node}
      ensures node !in CtxNodes(c) && node !in Nodes(t)
    {
      PlugNodes(c, t);
    }

    lemma Whole(c: Ctx, t: Tree)
      requires At(c, t)
      ensures At(Top, Plug(c, t))
    {
      Look(c, t, Top, Plug(c, t));
    }

    // ---- walking the tree in order ----

    // The node at position i of the order ends t's part of it: its successor
    // is the next ancestor that has it on the left.
    method Climb(start: RbNode, ghost c0: Ctx, ghost t0: Tree, ghost i: nat) returns (next: RbNode?)
      requires Valid() && At(c0, t0) && t0.Node? && start == t0.n && Plug(c0, t0) == tree
      requires |Before(c0) + Inorder(t0)| == i + 1
      ensures next == if i + 1 < |Items()| then Items()[i + 1].n else null
    {
      var node := start;
      ghost var c, t := c0, t0;
      while true
        invariant At(c, t) && t.Node? && node == t.n && Plug(c, t) == tree
        invariant |Before(c) + Inorder(t)| == i + 1
        decreases c
      {
        ReadsOf(c, t);
        ClimbStep(c, t, i);
        var parent := node.parent;
        if node == root {
          return null;
        }
        if node == parent.left {
          return parent;
        }
        node := parent;
        t := Parent(c, t);
        c := c.up;
      }
    }

    lemma ClimbStep(c: Ctx, t: Tree, i: nat)
      requires At(c, t) && t.Node? && Plug(c, t) == tree && |Before(c) + Inorder(t)| == i + 1
      ensures c.Top? ==> i + 1 == |Items()|
      ensures c.Lft? ==> i + 1 < |Items()| && Items()[i + 1].n == c.n
      ensures !c.Top? ==> (c.Lft? <==> c.n.left == t.n) && c.n in repr
      ensures c.Rgt? ==> At(c.up, Parent(c, t)) && |Before(c.up) + Inorder(Parent(c, t))| == i + 1
    {
      PlugOrder(c, t);
      Seen(c, t, sentinel, root, mem);
      if c.Lft? {
        assert After(c)[0] == Item(c.n, c.key);
      }
      if c.Rgt? {
        Look(c, t, c.up, Parent(c, t));
      }
    }

    // The node after node in the order, null after the last one.
    method Next(node: RbNode, ghost i: nat) returns (next: RbNode?)
      requires Valid() && i < |Items()| && Items()[i].n == node
      ensures next == if i + 1 < |Items()| then Items()[i + 1].n else null
    {
      ItemInTree(i);
      ghost var c, t := PlaceOf(node);
      PlaceIndex(c, t, i);
      if node.right != sentinel {
        SuccessorOf(c, t);
        next := Min(node.right, Rgt(t.left, t.n, t.key, t.red, c), t.right);
      } else {
        next := Climb(node, c, t, i);
      }
    }

    lemma ItemInTree(i: nat)
      requires Valid() && i < |Items()|
      ensures Items()[i].n in repr && Items()[i].n != sentinel
    {
      OrderNodes(tree, Items()[i].n);
      assert Item(Items()[i].n, Items()[i].key) in Inorder(tree);
    }

    lemma PlaceIndex(c: Ctx, t: Tree, i: nat)
      requires At(c, t) && t.Node? && Plug(c, t) == tree && i < |Items()| && Items()[i].n == t.n
      ensures |Before(c) + Inorder(t.left)| == i
      ensures t.right.Node? ==> i + 1 < |Items()| && Items()[i + 1].n == MinTree(t.right).n
      ensures t.right.Nil? ==> |Before(c) + Inorder(t)| == i + 1
    {
      var k := |Before(c) + Inorder(t.left)|;
      PlugOrder(c, t);
      assert Items()[k] == Item(t.n, t.key);
      assert ZipDistinct(c, t);
      PlugNodes(c, t);
      OrderDistinct(tree, i, k);
      if t.right.Node? {
        MinOrder(t.right);
        assert Items()[k + 1] == Inorder(t.right)[0];
      }
    }

    // A node of the tree has its item, with the key it holds, in the order.
    lemma ItemOf(node: RbNode)
      requires Valid()
      ensures node in repr && node != sentinel <==> exists k :: Item(node, k) in Items()
      ensures node in repr && node != sentinel ==> Item(node, node.key) in Items()
    {
      OrderNodes(tree, node);
      if node in repr && node != sentinel {
        var c, t := PlaceOf(node);
        Seen(c, t, sentinel, root, mem);
        PlugOrder(c, t);
        assert Item(node, t.key) in Inorder(t);
      }
    }

    lemma FirstItem()
      requires Valid() && tree.Node?
      ensures Items() != [] && Items()[0].n == MinTree(tree).n && MinTree(tree).n in repr
      ensures MinTree(tree).n != sentinel && Items()[0].key == MinTree(tree).n.key
    {
      MinOrder(tree);
      ItemInTree(0);
      ItemOf(Items()[0].n);
      var i: nat :| i < |Items()| && Items()[i] == Item(Items()[0].n, Items()[0].n.key);
      OrderDistinct(tree, 0, i);
    }
  }
}
