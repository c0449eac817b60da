// Child lists: doubly linked siblings whose head keeps the tail in prev.
module JsonList {
  import opened Lists

  class Node {
    var next: Node?
    var prev: Node?
    var child: Node?

    constructor ()
      ensures next == null && prev == null && child == null
    {
      next, prev, child := null, null, null;
    }
  }

  ghost function NextOf(xs: seq<Node>, i: nat): Node?
    requires i < |xs|
  {
    if i + 1 < |xs| then xs[i + 1] else null
  }

  ghost function PrevOf(xs: seq<Node>, i: nat): Node?
    requires i < |xs|
  {
    if i > 0 then xs[i - 1] else xs[|xs| - 1]
  }

  // The children of parent are xs, in that order.
  ghost predicate Children(parent: Node, xs: seq<Node>)
    reads parent`child, xs`next, xs`prev
  {
    && parent.child == (if xs == [] then null else xs[0])
    && Distinct(xs)
    && (forall i :: 0 <= i < |xs| ==> xs[i].next == NextOf(xs, i))
    && (forall i :: 0 <= i < |xs| ==> xs[i].prev == PrevOf(xs, i))
  }

  lemma Links(xs: seq<Node>, i: nat)
    requires i < |xs|
    ensures NextOf(xs, i) == if i + 1 < |xs| then xs[i + 1] else null
    ensures PrevOf(xs, i) == if i > 0 then xs[i - 1] else xs[|xs| - 1]
  {
  }

  // The list that a parent has is the only one it can be said to have.
  lemma {:induction false} ChildrenUnique(parent: Node, xs: seq<Node>, ys: seq<Node>, k: nat)
    requires Children(parent, xs) && Children(parent, ys) && k <= |xs| && k <= |ys|
    ensures forall i :: 0 <= i < k ==> xs[i] == ys[i]
    ensures k == |xs| || k == |ys| ==> xs == ys
  {
    hide NextOf, PrevOf, Distinct;
    if k > 0 {
      ChildrenUnique(parent, xs, ys, k - 1);
      if k > 1 {
        Links(xs, k - 2);
        Links(ys, k - 2);
      }
      assert xs[k - 1] == ys[k - 1];
      Links(xs, k - 1);
      Links(ys, k - 1);
    }
  }

  method GetArrayItem(parent: Node, index: nat, ghost xs: seq<Node>) returns (r: Node?)
    requires Children(parent, xs)
    ensures r == if index < |xs| then xs[index] else null
  {
    hide PrevOf, Distinct;
    r := parent.child;
    var left: nat := index;
    ghost var i := 0;
    while r != null && left > 0
      invariant i + left == index && i <= |xs|
      invariant r == if i < |xs| then xs[i] else null
      decreases left
    {
      Links(xs, i);
      left := left - 1;
      r := r.next;
      i := i + 1;
    }
  }

  method SuffixObject(prev: Node, item: Node)
    modifies prev`next, item`prev
    ensures prev.next == item && item.prev == prev
    ensures prev != item ==> item.next == old(item.next)
  {
    prev.next := item;
    item.prev := prev;
  }

  // The links of a list once item stands behind it.
  lemma Extended(xs: seq<Node>, item: Node, i: nat)
    requires i <= |xs|
    ensures NextOf(xs + [item], i) == if i == |xs| then null else if i == |xs| - 1 then item else NextOf(xs, i)
    ensures PrevOf(xs + [item], i) ==
      if i == |xs| && i > 0 then xs[|xs| - 1] else if i == 0 then item else PrevOf(xs, i)
    ensures (xs + [item])[i] == if i < |xs| then xs[i] else item
  {
  }

  lemma ExtendedDistinct(xs: seq<Node>, item: Node)
    requires Distinct(xs) && item !in xs
    ensures Distinct(xs + [item])
  {
  }

  lemma TailIsNotBefore(xs: seq<Node>)
    requires Distinct(xs) && xs != []
    ensures forall i :: 0 <= i < |xs| - 1 ==> xs[i] != xs[|xs| - 1]
    ensures forall i :: 0 < i < |xs| ==> xs[i] != xs[0]
  {
  }

  // The item becomes the last child, provided it points nowhere; an item that
  // still has a next one breaks a list that is not empty.
  method AddItemToArray(parent: Node, item: Node, ghost xs: seq<Node>) returns (ok: bool)
    requires Children(parent, xs) && item !in xs
    modifies parent`child, xs`next, xs`prev, item`next, item`prev
    ensures ok == (parent != item)
    ensures !ok ==> Children(parent, xs) && item.next == old(item.next) && item.prev == old(item.prev)
    ensures ok ==> (Children(parent, xs + [item]) <==> xs == [] || old(item.next) == null)
  {
    hide NextOf, PrevOf, Distinct;
    if parent == item {
      return false;
    }
    ExtendedDistinct(xs, item);
    Extended(xs, item, |xs|);
    var child := parent.child;
    if child == null {
      parent.child := item;
      item.prev := item;
      item.next := null;
    } else {
      Links(xs, 0);
      Links(xs, |xs| - 1);
      TailIsNotBefore(xs);
      if child.prev != null {
        SuffixObject(child.prev, item);
        parent.child.prev := item;
      }
      forall i | 0 <= i < |xs|
        ensures (xs + [item])[i].next == NextOf(xs + [item], i) && (xs + [item])[i].prev == PrevOf(xs + [item], i)
      {
        Extended(xs, item, i);
      }
    }
    return true;
  }

  // How parse_array and parse_object link the items that they parse: each new one
  // behind the last, and at the end the head's prev leads to the tail.
  method LinkItems(item: Node, n: nat) returns (ghost xs: seq<Node>)
    modifies item`child
    ensures |xs| == n && Children(item, xs) && forall x :: x in xs ==> fresh(x) && x.child == null
  {
    hide NextOf, Distinct;
    var head: Node?, current: Node? := null, null;
    xs := [];
    var i := 0;
    NothingLinked();
    while i < n
      invariant i == |xs| <= n && Distinct(xs) && forall x :: x in xs ==> fresh(x) && x.child == null
      invariant if xs == [] then head == current == null else head == xs[0] && current == xs[|xs| - 1]
      invariant forall k :: 0 <= k < |xs| ==> xs[k].next == NextOf(xs, k)
      invariant forall k :: 0 < k < |xs| ==> xs[k].prev == xs[k - 1]
    {
      var newItem := new Node();
      ExtendedDistinct(xs, newItem);
      forall k | 0 <= k <= |xs|
        ensures NextOf(xs + [newItem], k)
          == if k == |xs| then null else if k == |xs| - 1 then newItem else NextOf(xs, k)
        ensures (xs + [newItem])[k] == if k < |xs| then xs[k] else newItem
      {
        Extended(xs, newItem, k);
      }
      if head == null {
        current, head := newItem, newItem;
      } else {
        TailIsNotBefore(xs);
        assert xs[|xs| - 1] in xs;
        current.next := newItem;
        newItem.prev := current;
        current := newItem;
      }
      xs := xs + [newItem];
      i := i + 1;
    }
    if head != null {
      TailIsNotBefore(xs);
      assert xs[0] in xs;
      head.prev := current;
    }
    item.child := head;
  }

  lemma NothingLinked()
    ensures Distinct<Node>([])
  {
  }

  // The links of a list once its element k is gone.
  lemma WithoutLinks(xs: seq<Node>, k: nat, i: nat)
    requires Distinct(xs) && k < |xs| && i < |xs| - 1
    ensures var j := if i < k then i else i + 1;
      && Without(xs, k)[i] == xs[j] && xs[j] != xs[k]
      && NextOf(Without(xs, k), i) == (if j + 1 == k then NextOf(xs, k) else NextOf(xs, j))
      && PrevOf(Without(xs, k), i) == (if j == k + 1 || (j == 0 && k == |xs| - 1) then PrevOf(xs, k) else PrevOf(xs, j))
  {
  }

  method DetachItemViaPointer(parent: Node?, item: Node?, ghost xs: seq<Node>, ghost k: nat) returns (r: Node?)
    requires parent != null && item != null ==> Children(parent, xs) && k < |xs| && item == xs[k]
    modifies if parent == null || item == null then {} else {parent}`child
    modifies if parent == null || item == null then [] else xs`next
    modifies if parent == null || item == null then [] else xs`prev
    ensures r == if parent == null then null else item
    ensures r != null ==> r.next == null && r.prev == null && Children(parent, Without(xs, k))
  {
    hide NextOf, PrevOf, Distinct, Without;
    if parent == null || item == null {
      return null;
    }
    Links(xs, k);
    Apart(xs, k);
    if k > 0 {
      Apart(xs, k - 1);
      Apart(xs, 0);
    }
    if k + 1 < |xs| {
      Apart(xs, k + 1);
    }
    if item != parent.child {
      item.prev.next := item.next;
    }
    if item.next != null {
      item.next.prev := item.prev;
    }
    if item == parent.child {
      parent.child := item.next;
    } else if item.next == null {
      parent.child.prev := item.prev;
    }
    item.prev := null;
    item.next := null;
    WithoutDistinct(xs, k);
    if |xs| > 1 {
      WithoutLinks(xs, k, 0);
    }
    forall i | 0 <= i < |xs| - 1
      ensures Without(xs, k)[i].next == NextOf(Without(xs, k), i) && Without(xs, k)[i].prev == PrevOf(Without(xs, k), i)
    {
      WithoutLinks(xs, k, i);
    }
    return item;
  }

  // cJSON_DetachItemFromArray: a negative or too large index detaches nothing.
  method DetachItemFromArray(parent: Node, which: int, ghost xs: seq<Node>) returns (r: Node?)
    requires Children(parent, xs)
    modifies parent`child, xs`next, xs`prev
    ensures r == if 0 <= which < |xs| then xs[which] else null
    ensures Children(parent, if 0 <= which < |xs| then Without(xs, which) else xs)
    ensures r != null ==> r.next == null && r.prev == null
  {
    hide NextOf, PrevOf, Distinct, Without;
    if which < 0 {
      return null;
    }
    r := GetArrayItem(parent, which, xs);
    r := DetachItemViaPointer(parent, r, xs, which);
  }

  // The links of a list once n stands before its element k.
  lemma InsertedLinks(xs: seq<Node>, k: nat, n: Node, j: nat)
    requires k < |xs| && j < |xs|
    ensures var ys, i := Inserted(xs, k, n), if j < k then j else j + 1;
      && ys[i] == xs[j] && ys[k] == n
      && NextOf(ys, i) == (if j + 1 == k then n else NextOf(xs, j))
      && PrevOf(ys, i) == (if j == k then n else PrevOf(xs, j))
      && NextOf(ys, k) == xs[k] && PrevOf(ys, k) == PrevOf(xs, k)
  {
  }

  lemma InsertedLast(xs: seq<Node>, n: Node)
    ensures Inserted(xs, |xs|, n) == xs + [n]
  {
  }

  // When every old element has the links of the longer list, so has all of it.
  lemma InsertedChildren(parent: Node, xs: seq<Node>, k: nat, n: Node)
    requires k < |xs| && Distinct(Inserted(xs, k, n))
    requires parent.child == if k == 0 then n else xs[0]
    requires forall j :: 0 <= j < |xs| ==> xs[j].next == if j + 1 == k then n else NextOf(xs, j)
    requires forall j :: 0 <= j < |xs| ==> xs[j].prev == if j == k then n else PrevOf(xs, j)
    requires n.next == xs[k] && n.prev == PrevOf(xs, k)
    ensures Children(parent, Inserted(xs, k, n))
  {
    hide NextOf, PrevOf, Distinct, Inserted;
    var ys := Inserted(xs, k, n);
    InsertedLinks(xs, k, n, 0);
    forall i | 0 <= i < |ys|
      ensures ys[i].next == NextOf(ys, i) && ys[i].prev == PrevOf(ys, i)
    {
      if i != k {
        InsertedLinks(xs, k, n, if i < k then i else i - 1);
      }
    }
  }

  // cJSON_InsertItemInArray: an index behind the end appends.
  method InsertItemInArray(parent: Node, which: int, item: Node, ghost xs: seq<Node>) returns (ok: bool)
    requires Children(parent, xs) && item !in xs && item.next == null
    modifies parent`child, xs`next, xs`prev, item`next, item`prev
    ensures ok == (0 <= which && (which < |xs| || parent != item))
    ensures Children(parent, if ok then Inserted(xs, if which < |xs| then which else |xs|, item) else xs)
  {
    hide NextOf, PrevOf, Distinct, Inserted;
    if which < 0 {
      return false;
    }
    var after := GetArrayItem(parent, which, xs);
    InsertedLast(xs, item);
    if after == null {
      ok := AddItemToArray(parent, item, xs);
      return;
    }
    Apart(xs, which);
    Apart(xs, 0);
    Links(xs, which);
    InsertedDistinct(xs, which, item);
    InsertedLinks(xs, which, item, 0);
    if which > 0 {
      Apart(xs, which - 1);
    }
    item.next := after;
    item.prev := after.prev;
    after.prev := item;
    if after == parent.child {
      parent.child := item;
    } else {
      item.prev.next := item;
    }
    InsertedChildren(parent, xs, which, item);
    return true;
  }

  // The links of a list once n stands for its element k.
  lemma ReplacedLinks(xs: seq<Node>, k: nat, n: Node, j: nat)
    requires k < |xs| && j < |xs|
    ensures var ys := xs[k := n];
      && NextOf(ys, j) == (if j + 1 == k then n else NextOf(xs, j))
      && PrevOf(ys, j) == (if j == k + 1 || (j == 0 && k == |xs| - 1) then n else PrevOf(xs, j))
  {
  }

  lemma ReplacedDistinct(xs: seq<Node>, k: nat, n: Node)
    requires Distinct(xs) && k < |xs| && n !in xs
    ensures Distinct(xs[k := n])
  {
  }

  // cJSON_ReplaceItemViaPointer, without the release of the old item.
  method ReplaceItemViaPointer(parent: Node?, item: Node?, replacement: Node?, ghost xs: seq<Node>, ghost k: nat)
    returns (ok: bool)
    requires parent != null && item != null ==> Children(parent, xs) && k < |xs| && item == xs[k]
    requires replacement == item || replacement !in xs
    modifies if parent == null then {} else {parent}`child, xs`next, xs`prev
    modifies if replacement == null then {} else {replacement}`next
    modifies if replacement == null then {} else {replacement}`prev
    ensures ok == (parent != null && item != null && replacement != null)
    ensures ok && replacement != item ==> item.next == null && item.prev == null
    ensures ok ==> Children(parent, xs[k := replacement])
  {
    hide NextOf, PrevOf, Distinct;
    if parent == null || replacement == null || item == null {
      return false;
    }
    if replacement == item {
      assert xs[k := replacement] == xs;
      return true;
    }
    Apart(xs, k);
    Apart(xs, 0);
    Links(xs, k);
    Links(xs, 0);
    if k > 0 {
      Apart(xs, k - 1);
    }
    if k + 1 < |xs| {
      Apart(xs, k + 1);
    }
    replacement.next := item.next;
    replacement.prev := item.prev;
    if replacement.next != null {
      replacement.next.prev := replacement;
    }
    if parent.child == item {
      if parent.child.prev == parent.child {
        replacement.prev := replacement;
      }
      parent.child := replacement;
    } else {
      if replacement.prev != null {
        replacement.prev.next := replacement;
      }
      if replacement.next == null {
        parent.child.prev := replacement;
      }
    }
    item.next := null;
    item.prev := null;
    ReplacedDistinct(xs, k, replacement);
    ghost var ys := xs[k := replacement];
    forall j | 0 <= j < |ys|
      ensures ys[j].next == NextOf(ys, j) && ys[j].prev == PrevOf(ys, j)
    {
      ReplacedLinks(xs, k, replacement, j);
    }
    return true;
  }
}
