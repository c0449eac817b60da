// How a tree value lies in the node fields.  A Mem is a picture of the fields
// of a set of nodes; reading outside the picture gives a fixed value, so that
// no lemma has to speak of domains.
module RbMemory {
  import opened RbShape

  datatype Mem = Mem(
    key: map<RbNode, nat>,
    red: map<RbNode, bool>,
    left: map<RbNode, RbNode?>,
    right: map<RbNode, RbNode?>,
    parent: map<RbNode, RbNode?>)

  function KeyOf(m: Mem, o: RbNode): nat { if o in m.key then m.key[o] else 0 }

  function RedOf(m: Mem, o: RbNode): bool { if o in m.red then m.red[o] else false }

  function LeftOf(m: Mem, o: RbNode): RbNode? { if o in m.left then m.left[o] else null }

  function RightOf(m: Mem, o: RbNode): RbNode? { if o in m.right then m.right[o] else null }

  function ParentOf(m: Mem, o: RbNode): RbNode? { if o in m.parent then m.parent[o] else null }

  function Ptr(t: Tree, nil: RbNode): RbNode
  {
    if t.Nil? then nil else t.n
  }

  ghost predicate IsChild(t: Tree, p: RbNode, m: Mem)
  {
    t.Node? ==> ParentOf(m, t.n) == p
  }

  // The tree t lies in memory; the parent link of its root is left open.
  ghost predicate Holds(t: Tree, nil: RbNode, m: Mem)
  {
    t.Node? ==>
      && KeyOf(m, t.n) == t.key && RedOf(m, t.n) == t.red
      && LeftOf(m, t.n) == Ptr(t.left, nil) && RightOf(m, t.n) == Ptr(t.right, nil)
      && IsChild(t.left, t.n, m) && IsChild(t.right, t.n, m)
      && Holds(t.left, nil, m) && Holds(t.right, nil, m)
  }

  // The context c lies in memory, its hole leads to kid.  The parent link of
  // the tree's root is never read by the program, and is left open.
  ghost predicate HoldsCtx(c: Ctx, kid: RbNode, nil: RbNode, root: RbNode, m: Mem)
  {
    match c
    case Top => kid == root
    case Lft(up, n, k, red, r) =>
      && KeyOf(m, n) == k && RedOf(m, n) == red
      && LeftOf(m, n) == kid && RightOf(m, n) == Ptr(r, nil)
      && IsChild(r, n, m) && Holds(r, nil, m)
      && (up.Top? || ParentOf(m, n) == up.n) && HoldsCtx(up, n, nil, root, m)
    case Rgt(l, n, k, red, up) =>
      && KeyOf(m, n) == k && RedOf(m, n) == red
      && LeftOf(m, n) == Ptr(l, nil) && RightOf(m, n) == kid
      && IsChild(l, n, m) && Holds(l, nil, m)
      && (up.Top? || ParentOf(m, n) == up.n) && HoldsCtx(up, n, nil, root, m)
  }

  ghost predicate HoldsZip(c: Ctx, t: Tree, nil: RbNode, root: RbNode, m: Mem)
  {
    && ZipDistinct(c, t) && nil !in CtxNodes(c) && nil !in Nodes(t)
    && HoldsCtx(c, Ptr(t, nil), nil, root, m)
    && Holds(t, nil, m)
    && (!c.Top? ==> IsChild(t, c.n, m))
  }

  // The fields of o that make up its place in a tree, its parent link apart.
  ghost predicate SameLinks(o: RbNode, m: Mem, m': Mem)
  {
    && KeyOf(m', o) == KeyOf(m, o) && RedOf(m', o) == RedOf(m, o)
    && LeftOf(m', o) == LeftOf(m, o) && RightOf(m', o) == RightOf(m, o)
  }

  ghost predicate SameAt(o: RbNode, m: Mem, m': Mem)
  {
    SameLinks(o, m, m') && ParentOf(m', o) == ParentOf(m, o)
  }

  ghost predicate Same(s: set<RbNode>, m: Mem, m': Mem)
  {
    forall o :: o in s ==> SameAt(o, m, m')
  }

  // A tree stays where it is when none of its nodes is written.
  lemma {:induction false} SameHolds(t: Tree, nil: RbNode, m: Mem, m': Mem)
    requires Holds(t, nil, m) && Same(Nodes(t), m, m')
    ensures Holds(t, nil, m')
  {
    if t.Node? {
      SameHolds(t.left, nil, m, m');
      SameHolds(t.right, nil, m, m');
    }
  }

  lemma {:induction false} SameHoldsCtx(c: Ctx, kid: RbNode, nil: RbNode, root: RbNode, m: Mem, m': Mem)
    requires HoldsCtx(c, kid, nil, root, m) && Same(CtxNodes(c), m, m')
    ensures HoldsCtx(c, kid, nil, root, m')
  {
    match c
    case Top =>
    case Lft(up, n, _, _, r) => SameHolds(r, nil, m, m'); SameHoldsCtx(up, n, nil, root, m, m');
    case Rgt(l, n, _, _, up) => SameHolds(l, nil, m, m'); SameHoldsCtx(up, n, nil, root, m, m');
  }

  // The same, when at most the parent link of its root is written.
  lemma MovedHolds(t: Tree, nil: RbNode, m: Mem, m': Mem)
    requires Holds(t, nil, m) && Distinct(t)
    requires t.Node? ==> SameLinks(t.n, m, m')
    requires forall o :: o in Nodes(t) && o != Ptr(t, nil) ==> SameAt(o, m, m')
    ensures Holds(t, nil, m')
  {
    if t.Node? {
      assert forall o :: o in Nodes(t.left) + Nodes(t.right) ==> SameAt(o, m, m');
      SameHolds(t.left, nil, m, m');
      SameHolds(t.right, nil, m, m');
    }
  }
}
