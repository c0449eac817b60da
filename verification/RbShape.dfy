// The mathematical side of the timer tree: red-black trees as values, and
// zippers (a subtree plus the context above it) on which the two fix-up
// loops of the program work.
module RbShape {
  class RbNode {
    var key: nat
    var left: RbNode?
    var right: RbNode?
    var parent: RbNode?
    var red: bool

    constructor ()
      ensures !red
    {
      key, left, right, parent, red := 0, null, null, null, false;
    }
  }

  datatype Item = Item(n: RbNode, key: nat)

  datatype Tree = Nil | Node(left: Tree, n: RbNode, key: nat, red: bool, right: Tree)

  // The path from a hole up to the root. Lft: the hole is the left child.
  datatype Ctx =
    | Top
    | Lft(up: Ctx, n: RbNode, key: nat, red: bool, right: Tree)
    | Rgt(left: Tree, n: RbNode, key: nat, red: bool, up: Ctx)

  function Plug(c: Ctx, t: Tree): (w: Tree)
    ensures t.Node? || c != Top ==> w.Node?
    decreases c
  {
    match c
    case Top => t
    case Lft(up, n, k, red, r) => Plug(up, Node(t, n, k, red, r))
    case Rgt(l, n, k, red, up) => Plug(up, Node(l, n, k, red, t))
  }

  // One level up: the tree whose child the content of the hole is, and the other child.
  function Parent(c: Ctx, t: Tree): (r: Tree)
    requires !c.Top?
    ensures r.Node? && r.n == c.n && r.red == c.red
  {
    if c.Lft? then Node(t, c.n, c.key, c.red, c.right) else Node(c.left, c.n, c.key, c.red, t)
  }

  function Sibling(c: Ctx): Tree
    requires !c.Top?
  {
    if c.Lft? then c.right else c.left
  }

  function WithSibling(c: Ctx, s: Tree): (r: Ctx)
    requires !c.Top?
    ensures !r.Top? && r.n == c.n
  {
    if c.Lft? then c.(right := s) else c.(left := s)
  }

  function CtxPainted(c: Ctx, red: bool): Ctx
    requires !c.Top?
  {
    if c.Lft? then Lft(c.up, c.n, c.key, red, c.right) else Rgt(c.left, c.n, c.key, red, c.up)
  }

  // The place of the other child, when the hole holds t.
  function SiblingCtx(c: Ctx, t: Tree): Ctx
    requires !c.Top?
  {
    if c.Lft? then Rgt(t, c.n, c.key, c.red, c.up) else Lft(c.up, c.n, c.key, c.red, t)
  }

  function Depth(c: Ctx): nat
  {
    if c.Top? then 0 else 1 + Depth(c.up)
  }

  // ---- nodes and their order ----

  ghost function Nodes(t: Tree): (s: set<RbNode>)
    ensures t.Node? ==> t.n in s
  {
    match t
    case Nil => {}
    case Node(l, n, _, _, r) => Nodes(l) + {n} + Nodes(r)
  }

  ghost function CtxNodes(c: Ctx): set<RbNode>
  {
    match c
    case Top => {}
    case Lft(up, n, _, _, r) => CtxNodes(up) + {n} + Nodes(r)
    case Rgt(l, n, _, _, up) => CtxNodes(up) + {n} + Nodes(l)
  }

  ghost predicate Distinct(t: Tree)
  {
    match t
    case Nil => true
    case Node(l, n, _, _, r) =>
      Distinct(l) && Distinct(r) && n !in Nodes(l) && n !in Nodes(r) && Nodes(l) !! Nodes(r)
  }

  ghost predicate CtxDistinct(c: Ctx)
  {
    match c
    case Top => true
    case Lft(up, n, _, _, r) =>
      CtxDistinct(up) && Distinct(r) && n !in Nodes(r) && n !in CtxNodes(up) && Nodes(r) !! CtxNodes(up)
    case Rgt(l, n, _, _, up) =>
      CtxDistinct(up) && Distinct(l) && n !in Nodes(l) && n !in CtxNodes(up) && Nodes(l) !! CtxNodes(up)
  }

  ghost predicate ZipDistinct(c: Ctx, t: Tree)
  {
    CtxDistinct(c) && Distinct(t) && CtxNodes(c) !! Nodes(t)
  }

  function Inorder(t: Tree): seq<Item>
  {
    match t
    case Nil => []
    case Node(l, n, k, _, r) => Inorder(l) + [Item(n, k)] + Inorder(r)
  }

  function Before(c: Ctx): seq<Item>
  {
    match c
    case Top => []
    case Lft(up, _, _, _, _) => Before(up)
    case Rgt(l, n, k, _, up) => Before(up) + (Inorder(l) + [Item(n, k)])
  }

  function After(c: Ctx): seq<Item>
  {
    match c
    case Top => []
    case Lft(up, n, k, _, r) => ([Item(n, k)] + Inorder(r)) + After(up)
    case Rgt(_, _, _, _, up) => After(up)
  }

  // ---- colours and black heights ----

  predicate IsRed(t: Tree) { t.Node? && t.red }

  function Blacken(t: Tree): Tree { if t.Nil? then t else t.(red := false) }

  function BlackHeight(t: Tree): nat
  {
    if t.Nil? then 0 else BlackHeight(t.left) + if t.red then 0 else 1
  }

  predicate Balanced(t: Tree)
  {
    t.Node? ==> Balanced(t.left) && Balanced(t.right) && BlackHeight(t.left) == BlackHeight(t.right)
  }

  predicate NoRedRed(t: Tree)
  {
    t.Node? ==> NoRedRed(t.left) && NoRedRed(t.right) && (t.red ==> !IsRed(t.left) && !IsRed(t.right))
  }

  // The context can take a subtree of black height b.
  predicate CtxBalanced(c: Ctx, b: nat)
  {
    match c
    case Top => true
    case Lft(up, _, _, red, r) => Balanced(r) && BlackHeight(r) == b && CtxBalanced(up, if red then b else b + 1)
    case Rgt(l, _, _, red, up) => Balanced(l) && BlackHeight(l) == b && CtxBalanced(up, if red then b else b + 1)
  }

  // The context can take a subtree whose root has the colour holeRed.
  predicate CtxNoRedRed(c: Ctx, holeRed: bool)
  {
    match c
    case Top => true
    case Lft(up, _, _, red, r) => NoRedRed(r) && (red ==> !holeRed && !IsRed(r)) && CtxNoRedRed(up, red)
    case Rgt(l, _, _, red, up) => NoRedRed(l) && (red ==> !holeRed && !IsRed(l)) && CtxNoRedRed(up, red)
  }

  // The colour of the whole tree's root, when the hole is not the root.
  predicate CtxRootBlack(c: Ctx)
  {
    match c
    case Top => true
    case Lft(up, _, _, red, _) => if up.Top? then !red else CtxRootBlack(up)
    case Rgt(_, _, _, red, up) => if up.Top? then !red else CtxRootBlack(up)
  }

  predicate RedBlack(t: Tree)
  {
    !IsRed(t) && NoRedRed(t) && Balanced(t)
  }

  ghost predicate Sorted(s: seq<Item>)
  {
    forall i, j :: 0 <= i < j < |s| ==> s[i].key <= s[j].key
  }

  // ---- a tree is a zipper ----

  lemma {:induction false} PlugNodes(c: Ctx, t: Tree)
    ensures Nodes(Plug(c, t)) == CtxNodes(c) + Nodes(t)
    ensures Distinct(Plug(c, t)) <==> ZipDistinct(c, t)
    decreases c
  {
    match c
    case Top =>
    case Lft(up, n, k, red, r) => PlugNodes(up, Node(t, n, k, red, r));
    case Rgt(l, n, k, red, up) => PlugNodes(up, Node(l, n, k, red, t));
  }

  lemma {:induction false} PlugOrder(c: Ctx, t: Tree)
    ensures Inorder(Plug(c, t)) == Before(c) + Inorder(t) + After(c)
    decreases c
  {
    match c
    case Top =>
    case Lft(up, n, k, red, r) =>
      PlugOrder(up, Node(t, n, k, red, r));
    case Rgt(l, n, k, red, up) =>
      PlugOrder(up, Node(l, n, k, red, t));
  }

  lemma {:induction false} PlugBalanced(c: Ctx, t: Tree)
    ensures Balanced(Plug(c, t)) <==> Balanced(t) && CtxBalanced(c, BlackHeight(t))
    decreases c
  {
    match c
    case Top =>
    case Lft(up, n, k, red, r) => PlugBalanced(up, Node(t, n, k, red, r));
    case Rgt(l, n, k, red, up) => PlugBalanced(up, Node(l, n, k, red, t));
  }

  lemma {:induction false} PlugNoRedRed(c: Ctx, t: Tree)
    ensures NoRedRed(Plug(c, t)) <==> NoRedRed(t) && CtxNoRedRed(c, IsRed(t))
    decreases c
  {
    match c
    case Top =>
    case Lft(up, n, k, red, r) => PlugNoRedRed(up, Node(t, n, k, red, r));
    case Rgt(l, n, k, red, up) => PlugNoRedRed(up, Node(l, n, k, red, t));
  }

  lemma {:induction false} PlugRootRed(c: Ctx, t: Tree)
    ensures IsRed(Plug(c, t)) <==> if c.Top? then IsRed(t) else !CtxRootBlack(c)
    decreases c
  {
    match c
    case Top =>
    case Lft(up, n, k, red, r) => PlugRootRed(up, Node(t, n, k, red, r));
    case Rgt(l, n, k, red, up) => PlugRootRed(up, Node(l, n, k, red, t));
  }

  lemma {:induction false} CtxRelax(c: Ctx, holeRed: bool)
    requires CtxNoRedRed(c, holeRed)
    ensures CtxNoRedRed(c, false)
  {
  }
}
