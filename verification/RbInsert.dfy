// The insertion fix-up on zippers: what each turn of the loop keeps.
module RbInsert {
  import opened RbShape
  import opened RbRotate

  // A red-black tree, but for the red node at the hole, whose parent may be red.
  ghost predicate RedAtHole(c: Ctx, t: Tree)
  {
    && IsRed(t) && NoRedRed(t) && Balanced(t)
    && CtxBalanced(c, BlackHeight(t)) && CtxNoRedRed(c, false) && CtxRootBlack(c)
  }

  lemma GrandExists(c: Ctx, t: Tree)
    requires RedAtHole(c, t) && !c.Top? && c.red
    ensures !c.up.Top? && !c.up.red
    ensures CtxBalanced(c.up, BlackHeight(Parent(c, t))) && CtxNoRedRed(c.up, true) && CtxRootBlack(c.up)
    ensures Balanced(Parent(c, t))
  {
    assert CtxNoRedRed(c.up, true);
    assert CtxRootBlack(c.up);
  }

  // The tree under the grandparent, after parent and uncle were made black and the grandparent red.
  function Recoloured(c: Ctx, t: Tree): Tree
    requires !c.Top? && !c.up.Top? && Sibling(c.up).Node?
  {
    var g, p, u := c.up, Blacken(Parent(c, t)), Blacken(Sibling(c.up));
    if g.Lft? then Node(p, g.n, g.key, true, u) else Node(u, g.n, g.key, true, p)
  }

  lemma RecolourKeeps(c: Ctx, t: Tree)
    requires RedAtHole(c, t) && !c.Top? && c.red && !c.up.Top? && IsRed(Sibling(c.up))
    ensures RedAtHole(c.up.up, Recoloured(c, t))
  {
    var g, p := c.up, Parent(c, t);
    GrandExists(c, t);
    var p', u' := p.(red := false), Sibling(g).(red := false);
    assert Balanced(p') && Balanced(u') && NoRedRed(p') && NoRedRed(u');
    assert BlackHeight(p') == BlackHeight(p) + 1;
  }

  // The rotation that moves an inner grandchild outwards.
  lemma InnerKeepsLeft(c: Ctx, t: Tree)
    requires RedAtHole(c, t) && c.Rgt? && c.red && c.up.Lft?
    ensures RedAtHole(Lft(c.up, t.n, t.key, true, t.right), Node(c.left, c.n, c.key, true, t.left))
  {
    GrandExists(c, t);
  }

  lemma InnerKeepsRight(c: Ctx, t: Tree)
    requires RedAtHole(c, t) && c.Lft? && c.red && c.up.Rgt?
    ensures RedAtHole(Rgt(t.left, t.n, t.key, true, c.up), Node(t.right, c.n, c.key, true, c.right))
  {
    GrandExists(c, t);
  }

  // The last rotation: the grandparent comes down as the parent's other child.
  lemma OuterKeepsLeft(c: Ctx, t: Tree)
    requires RedAtHole(c, t) && c.Lft? && c.red && c.up.Lft? && !IsRed(c.up.right)
    ensures RedAtHole(Lft(c.up.up, c.n, c.key, false, Node(c.right, c.up.n, c.up.key, true, c.up.right)), t)
  {
    GrandExists(c, t);
  }

  lemma OuterKeepsRight(c: Ctx, t: Tree)
    requires RedAtHole(c, t) && c.Rgt? && c.red && c.up.Rgt? && !IsRed(c.up.left)
    ensures RedAtHole(Rgt(Node(c.up.left, c.up.n, c.up.key, true, c.left), c.n, c.key, false, c.up.up), t)
  {
    GrandExists(c, t);
  }

  // When the loop ends, blackening the root leaves a red-black tree.
  lemma InsertDone(c: Ctx, t: Tree)
    requires RedAtHole(c, t) && (c.Top? || !c.red)
    ensures RedBlack(Blacken(Plug(c, t)))
  {
    var w := Plug(c, t);
    assert CtxNoRedRed(c, true);
    PlugBalanced(c, t);
    PlugNoRedRed(c, t);
  }
}
