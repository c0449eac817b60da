// How deep a red-black tree can be.
module RbHeight {
  import opened RbShape
  import opened MachineWords

  function Height(t: Tree): nat
  {
    if t.Nil? then 0 else 1 + if Height(t.left) < Height(t.right) then Height(t.right) else Height(t.left)
  }

  lemma {:induction false} Pow2Add(a: nat, b: nat)
    ensures Pow2(a + b) == Pow2(a) * Pow2(b)
  {
    if a > 0 {
      Pow2Add(a - 1, b);
      assert Pow2(a + b) == 2 * (Pow2(a - 1) * Pow2(b)) == Pow2(a) * Pow2(b);
    }
  }

  lemma {:induction false} Pow2Mono(a: nat, b: nat)
    requires a <= b
    ensures Pow2(a) <= Pow2(b)
  {
    if a < b {
      Pow2Mono(a, b - 1);
    }
  }

  // Red nodes at most double the black height.
  lemma {:induction false} HeightBound(t: Tree)
    requires NoRedRed(t) && Balanced(t)
    ensures Height(t) <= 2 * BlackHeight(t) + if IsRed(t) then 1 else 0
  {
    if t.Node? {
      HeightBound(t.left);
      HeightBound(t.right);
    }
  }

  lemma {:induction false} SizeBound(t: Tree)
    requires Balanced(t)
    ensures |Inorder(t)| + 1 >= Pow2(BlackHeight(t))
  {
    if t.Node? {
      SizeBound(t.left);
      SizeBound(t.right);
      assert |Inorder(t)| == |Inorder(t.left)| + 1 + |Inorder(t.right)|;
    }
  }

  lemma Square(x: nat, y: nat)
    requires x <= y
    ensures x * x <= y * y
  {
    assert x * x <= x * y <= y * y;
  }

  // height <= 2 * log2(n + 1)
  lemma RedBlackIsShallow(t: Tree)
    requires RedBlack(t)
    ensures Pow2(Height(t)) <= (|Inorder(t)| + 1) * (|Inorder(t)| + 1)
  {
    var b, n := BlackHeight(t), |Inorder(t)| + 1;
    HeightBound(t);
    SizeBound(t);
    Pow2Mono(Height(t), b + b);
    Pow2Add(b, b);
    Square(Pow2(b), n);
  }
}
