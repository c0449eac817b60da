// The removal fix-up on zippers: what each case keeps.
module RbDelete {
  import opened RbShape

  // A red-black tree, but for the hole, which is one black node short; its
  // root may be red below a red parent, or above a red child.
  ghost predicate ShortAtHole(c: Ctx, t: Tree)
  {
    && NoRedRed(Blacken(t)) && Balanced(t)
    && CtxBalanced(c, BlackHeight(t) + 1) && CtxNoRedRed(c, false) && CtxRootBlack(c)
  }

  lemma SiblingExists(c: Ctx, t: Tree)
    requires ShortAtHole(c, t) && !c.Top?
    ensures Sibling(c).Node? && NoRedRed(Sibling(c)) && Balanced(Sibling(c))
    ensures BlackHeight(Sibling(c)) == BlackHeight(t) + 1
    ensures IsRed(Sibling(c)) ==> !c.red && Sibling(c).left.Node? && Sibling(c).right.Node?
    ensures CtxBalanced(c.up, BlackHeight(t) + if c.red then 1 else 2)
    ensures CtxNoRedRed(c.up, c.red) && CtxNoRedRed(c.up, false) && CtxRootBlack(c.up) && (c.up.Top? ==> !c.red)
    ensures var w := Sibling(c);
      && NoRedRed(w.left) && NoRedRed(w.right) && Balanced(w.left) && Balanced(w.right)
      && BlackHeight(w.left) == BlackHeight(w.right) == BlackHeight(w) - if w.red then 0 else 1
  {
    assert CtxNoRedRed(c.up, c.red);
    CtxRelax(c.up, c.red);
  }

  // A red sibling is rotated above the parent.
  lemma RedSiblingKeepsLeft(c: Ctx, t: Tree)
    requires ShortAtHole(c, t) && c.Lft? && IsRed(c.right)
    ensures var w := c.right;
      && ShortAtHole(Lft(Lft(c.up, w.n, w.key, false, w.right), c.n, c.key, true, w.left), t)
      && w.left.Node? && !w.left.red
  {
    SiblingExists(c, t);
  }

  lemma RedSiblingKeepsRight(c: Ctx, t: Tree)
    requires ShortAtHole(c, t) && c.Rgt? && IsRed(c.left)
    ensures var w := c.left;
      && ShortAtHole(Rgt(w.right, c.n, c.key, true, Rgt(w.left, w.n, w.key, false, c.up)), t)
      && w.right.Node? && !w.right.red
  {
    SiblingExists(c, t);
  }

  function PassedUp(c: Ctx, t: Tree): Tree
    requires !c.Top? && Sibling(c).Node?
  {
    var w := Sibling(c).(red := true);
    if c.Lft? then Node(t, c.n, c.key, c.red, w) else Node(w, c.n, c.key, c.red, t)
  }

  // A black sibling with black children turns red: the shortage moves up.
  lemma PassUpKeeps(c: Ctx, t: Tree)
    requires ShortAtHole(c, t) && !c.Top? && !IsRed(t)
    requires !IsRed(Sibling(c)) && !IsRed(Sibling(c).left) && !IsRed(Sibling(c).right)
    ensures ShortAtHole(c.up, PassedUp(c, t))
  {
    SiblingExists(c, t);
    var w := Sibling(c).(red := true);
    assert NoRedRed(w) && Balanced(w) && BlackHeight(w) == BlackHeight(t);
  }

  // The sibling's red inner child is rotated above the sibling.
  lemma InnerNephewKeepsLeft(c: Ctx, t: Tree)
    requires ShortAtHole(c, t) && c.Lft? && !IsRed(c.right) && IsRed(c.right.left) && !IsRed(c.right.right)
    ensures var w, v := c.right, c.right.left;
      ShortAtHole(c.(right := Node(v.left, v.n, v.key, false, Node(v.right, w.n, w.key, true, w.right))), t)
  {
    SiblingExists(c, t);
    var w, v := c.right, c.right.left;
    assert NoRedRed(v.left) && NoRedRed(v.right) && Balanced(v.left) && Balanced(v.right);
    var o := Node(v.right, w.n, w.key, true, w.right);
    assert NoRedRed(o) && Balanced(o) && BlackHeight(o) == BlackHeight(t);
    var r := Node(v.left, v.n, v.key, false, o);
    assert Balanced(r) && NoRedRed(r) && BlackHeight(r) == BlackHeight(t) + 1;
  }

  lemma InnerNephewKeepsRight(c: Ctx, t: Tree)
    requires ShortAtHole(c, t) && c.Rgt? && !IsRed(c.left) && IsRed(c.left.right) && !IsRed(c.left.left)
    ensures var w, v := c.left, c.left.right;
      ShortAtHole(c.(left := Node(Node(w.left, w.n, w.key, true, v.left), v.n, v.key, false, v.right)), t)
  {
    SiblingExists(c, t);
    var w, v := c.left, c.left.right;
    assert NoRedRed(v.left) && NoRedRed(v.right) && Balanced(v.left) && Balanced(v.right);
    var o := Node(w.left, w.n, w.key, true, v.left);
    assert NoRedRed(o) && Balanced(o) && BlackHeight(o) == BlackHeight(t);
    var r := Node(o, v.n, v.key, false, v.right);
    assert Balanced(r) && NoRedRed(r) && BlackHeight(r) == BlackHeight(t) + 1;
  }

  // The sibling's red outer child pays the shortage: the tree is whole.
  lemma OuterNephewPaysLeft(c: Ctx, t: Tree)
    requires ShortAtHole(c, t) && c.Lft? && !IsRed(t) && !IsRed(c.right) && IsRed(c.right.right)
    ensures var w := c.right;
      RedBlack(Plug(c.up, Node(Node(t, c.n, c.key, false, w.left), w.n, w.key, c.red, w.right.(red := false))))
  {
    SiblingExists(c, t);
    var w := c.right;
    var r := Node(Node(t, c.n, c.key, false, w.left), w.n, w.key, c.red, w.right.(red := false));
    var o := w.right.(red := false);
    assert Balanced(o) && NoRedRed(o) && BlackHeight(o) == BlackHeight(t) + 1;
    assert NoRedRed(t);
    assert Balanced(r.left) && NoRedRed(r.left) && BlackHeight(r.left) == BlackHeight(t) + 1;
    PlugBalanced(c.up, r);
    PlugNoRedRed(c.up, r);
    PlugRootRed(c.up, r);
  }

  lemma OuterNephewPaysRight(c: Ctx, t: Tree)
    requires ShortAtHole(c, t) && c.Rgt? && !IsRed(t) && !IsRed(c.left) && IsRed(c.left.left)
    ensures var w := c.left;
      RedBlack(Plug(c.up, Node(w.left.(red := false), w.n, w.key, c.red, Node(w.right, c.n, c.key, false, t))))
  {
    SiblingExists(c, t);
    var w := c.left;
    var r := Node(w.left.(red := false), w.n, w.key, c.red, Node(w.right, c.n, c.key, false, t));
    var o := w.left.(red := false);
    assert Balanced(o) && NoRedRed(o) && BlackHeight(o) == BlackHeight(t) + 1;
    assert NoRedRed(t);
    assert Balanced(r.right) && NoRedRed(r.right) && BlackHeight(r.right) == BlackHeight(t) + 1;
    PlugBalanced(c.up, r);
    PlugNoRedRed(c.up, r);
    PlugRootRed(c.up, r);
  }

  // When the loop ends, blackening the hole's root leaves a red-black tree.
  lemma DeleteDone(c: Ctx, t: Tree)
    requires ShortAtHole(c, t) && (c.Top? || IsRed(t))
    ensures RedBlack(Plug(c, Blacken(t)))
  {
    assert Balanced(Blacken(t));
    PlugBalanced(c, Blacken(t));
    PlugNoRedRed(c, Blacken(t));
    PlugRootRed(c, Blacken(t));
  }

  // ---- the smallest node of a subtree ----

  function MinTree(t: Tree): (r: Tree)
    requires t.Node?
    ensures r.Node? && r.left.Nil?
  {
    if t.left.Nil? then t else MinTree(t.left)
  }

  function MinCtx(up: Ctx, t: Tree): Ctx
    requires t.Node?
    decreases t
  {
    if t.left.Nil? then up else MinCtx(Lft(up, t.n, t.key, t.red, t.right), t.left)
  }

  // t with x in the place of its smallest node.
  function WithMin(t: Tree, x: Tree): Tree
    requires t.Node?
  {
    if t.left.Nil? then x else Node(WithMin(t.left, x), t.n, t.key, t.red, t.right)
  }

  lemma {:induction false} MinPlug(up: Ctx, t: Tree, x: Tree)
    requires t.Node?
    ensures Plug(MinCtx(up, t), MinTree(t)) == Plug(up, t)
    ensures Plug(MinCtx(up, t), x) == Plug(up, WithMin(t, x))
    ensures t.left.Nil? <==> MinTree(t) == t
    decreases t
  {
    if t.left.Node? {
      MinPlug(Lft(up, t.n, t.key, t.red, t.right), t.left, x);
    }
  }

  lemma {:induction false} MinOrder(t: Tree)
    requires t.Node?
    ensures var s := MinTree(t); Inorder(t) == [Item(s.n, s.key)] + Inorder(WithMin(t, s.right))
    ensures MinTree(t).n in Nodes(t)
  {
    var s := MinTree(t);
    if t.left.Nil? {
      assert Inorder(t) == [] + [Item(t.n, t.key)] + Inorder(t.right);
    } else {
      MinOrder(t.left);
      assert Inorder(t) ==
             [Item(s.n, s.key)] + Inorder(WithMin(t.left, s.right)) + [Item(t.n, t.key)] + Inorder(t.right);
    }
  }

  // After a black node with the one subtree x was taken out from under c.
  lemma TakenOut(c: Ctx, t: Tree)
    requires RedBlack(Plug(c, t)) && t.Node? && (t.left.Nil? || t.right.Nil?)
    ensures var x := if t.left.Nil? then t.right else t.left;
      && NoRedRed(x)
      && (t.red ==> RedBlack(Plug(c, x)))
      && (!t.red ==> ShortAtHole(c, x))
      && (c.Top? ==> RedBlack(Blacken(x)))
  {
    var x := if t.left.Nil? then t.right else t.left;
    PlugBalanced(c, t);
    PlugNoRedRed(c, t);
    PlugRootRed(c, t);
    if t.red {
      assert CtxNoRedRed(c, IsRed(x));
      PlugBalanced(c, x);
      PlugNoRedRed(c, x);
      PlugRootRed(c, x);
    }
    CtxRelax(c, t.red);
  }

  // The tree with subst in the place of node, its smallest right successor.
  function Replaced(t: Tree): (z: Tree)
    requires t.Node? && t.right.Node?
    ensures z.Node?
  {
    var s := MinTree(t.right);
    Node(t.left, s.n, s.key, t.red, WithMin(t.right, s.right))
  }

  function ReplacedCtx(c: Ctx, t: Tree): Ctx
    requires t.Node? && t.right.Node?
  {
    var s := MinTree(t.right);
    MinCtx(Rgt(t.left, s.n, s.key, t.red, c), t.right)
  }

  lemma {:induction false} MinCtxNode(up: Ctx, up': Ctx, t: Tree)
    requires t.Node? && t.left.Node?
    ensures !MinCtx(up, t).Top? && !MinCtx(up', t).Top? && MinCtx(up, t).n == MinCtx(up', t).n
    decreases t
  {
    if t.left.left.Node? {
      MinCtxNode(Lft(up, t.n, t.key, t.red, t.right), Lft(up', t.n, t.key, t.red, t.right), t.left);
    }
  }

  lemma {:induction false} MinCtxDown(up: Ctx, t: Tree)
    requires t.Node? && !up.Top?
    ensures !MinCtx(up, t).Top?
    decreases t
  {
    if t.left.Node? {
      MinCtxDown(Lft(up, t.n, t.key, t.red, t.right), t.left);
    }
  }

  // After the successor took node's place: red-black, or short where it stood.
  lemma ReplacedKeeps(c: Ctx, t: Tree)
    requires RedBlack(Plug(c, t)) && t.Node? && t.right.Node?
    ensures var s, h := MinTree(t.right), ReplacedCtx(c, t);
      && Plug(h, s.right) == Plug(c, Replaced(t)) && !h.Top?
      && (s.red ==> RedBlack(Plug(c, Replaced(t))))
      && (!s.red ==> ShortAtHole(h, s.right))
  {
    var s, h := MinTree(t.right), ReplacedCtx(c, t);
    var t' := Node(t.left, s.n, s.key, t.red, t.right);
    assert RedBlack(Plug(c, t')) by {
      PlugBalanced(c, t);
      PlugNoRedRed(c, t);
      PlugRootRed(c, t);
      PlugBalanced(c, t');
      PlugNoRedRed(c, t');
      PlugRootRed(c, t');
    }
    MinPlug(Rgt(t.left, s.n, s.key, t.red, c), t.right, s.right);
    MinCtxDown(Rgt(t.left, s.n, s.key, t.red, c), t.right);
    TakenOut(h, s);
  }

  lemma ReplacedOrder(t: Tree)
    requires t.Node? && t.right.Node?
    ensures Inorder(Replaced(t)) == Inorder(t.left) + Inorder(t.right)
  {
    MinOrder(t.right);
    var s := MinTree(t.right);
    assert Inorder(t.left) + [Item(s.n, s.key)] + Inorder(WithMin(t.right, s.right))
        == Inorder(t.left) + ([Item(s.n, s.key)] + Inorder(WithMin(t.right, s.right)));
  }

  // Every node of a tree has a place.
  lemma {:induction false} Locate(up: Ctx, t: Tree, n: RbNode) returns (c: Ctx, u: Tree)
    requires n in Nodes(t)
    ensures Plug(c, u) == Plug(up, t) && u.Node? && u.n == n
    decreases t
  {
    if t.n == n {
      c, u := up, t;
    } else if n in Nodes(t.left) {
      c, u := Locate(Lft(up, t.n, t.key, t.red, t.right), t.left, n);
    } else {
      c, u := Locate(Rgt(t.left, t.n, t.key, t.red, up), t.right, n);
    }
  }

  lemma {:induction false} MinNodes(t: Tree)
    requires t.Node? && Distinct(t)
    ensures var s := MinTree(t);
      && s.n in Nodes(t) && Nodes(WithMin(t, s.right)) == Nodes(t) - {s.n} && Distinct(WithMin(t, s.right))
  {
    if t.left.Node? {
      MinNodes(t.left);
    }
  }

  lemma ReplacedDistinct(c: Ctx, t: Tree)
    requires t.Node? && t.right.Node? && ZipDistinct(c, t)
    ensures ZipDistinct(c, Replaced(t)) && Nodes(Replaced(t)) == Nodes(t) - {t.n}
    ensures MinTree(t.right).n in Nodes(t) && MinTree(t.right).n != t.n
  {
    MinNodes(t.right);
  }

  // The smallest node of t, when it is not t's root, hangs below a node of t.
  lemma {:induction false} MinCtxIn(up: Ctx, t: Tree)
    requires t.Node? && t.left.Node?
    ensures !MinCtx(up, t).Top? && MinCtx(up, t).n in Nodes(t)
    decreases t
  {
    if t.left.left.Node? {
      MinCtxIn(Lft(up, t.n, t.key, t.red, t.right), t.left);
    }
  }
}
