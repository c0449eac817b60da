// The intrusive circular queues: links, insertion, removal, joining, splitting.
module Queue {
  import opened Lists

  class Node {
    var prev: Node?
    var next: Node?

    constructor ()
    {
      prev, next := null, null;
    }
  }

  // The ring r: its first node is the sentinel.
  ghost function NextOf(r: seq<Node>, i: nat): Node
    requires i < |r|
  {
    if i + 1 < |r| then r[i + 1] else r[0]
  }

  ghost function PrevOf(r: seq<Node>, i: nat): Node
    requires i < |r|
  {
    if i > 0 then r[i - 1] else r[|r| - 1]
  }

  ghost predicate Linked(r: seq<Node>)
    reads r
  {
    && (forall i :: 0 <= i < |r| ==> r[i].next == NextOf(r, i))
    && (forall i :: 0 <= i < |r| ==> r[i].prev == PrevOf(r, i))
  }

  // The queue of sentinel h holds xs, in that order.
  ghost predicate Ring(h: Node, xs: seq<Node>)
    reads h, xs
  {
    Distinct([h] + xs) && Linked([h] + xs)
  }

  lemma Links(r: seq<Node>, i: nat)
    requires i < |r|
    ensures NextOf(r, i) == if i + 1 < |r| then r[i + 1] else r[0]
    ensures PrevOf(r, i) == if i > 0 then r[i - 1] else r[|r| - 1]
  {
  }

  // The links of a ring once x stands before position k, which is not the
  // sentinel's.
  lemma InsertedLinks(r: seq<Node>, k: nat, x: Node, j: nat)
    requires 0 < k <= |r| && j < |r|
    ensures var t, i := Inserted(r, k, x), if j < k then j else j + 1;
      && t[i] == r[j] && t[k] == x
      && NextOf(t, i) == (if j + 1 == k then x else NextOf(r, j))
      && PrevOf(t, i) == (if j == k || (j == 0 && k == |r|) then x else PrevOf(r, j))
      && NextOf(t, k) == NextOf(r, k - 1) && PrevOf(t, k) == r[k - 1]
  {
  }

  lemma WithoutLinks(r: seq<Node>, k: nat, i: nat)
    requires 0 < k < |r| && i < |r| - 1
    ensures var t, j := Without(r, k), if i < k then i else i + 1;
      && t[i] == r[j]
      && NextOf(t, i) == (if j + 1 == k then NextOf(r, k) else NextOf(r, j))
      && PrevOf(t, i) == (if j == k + 1 || (j == 0 && k == |r| - 1) then r[k - 1] else PrevOf(r, j))
  {
  }

  method Init(q: Node)
    modifies q
    ensures Ring(q, [])
  {
    q.prev := q;
    q.next := q;
  }

  lemma InsertedLinked(r: seq<Node>, k: nat, x: Node)
    requires 0 < k <= |r|
    requires forall j :: 0 <= j < |r| ==> r[j].next == if j + 1 == k then x else NextOf(r, j)
    requires forall j :: 0 <= j < |r| ==> r[j].prev == if j == k || (j == 0 && k == |r|) then x else PrevOf(r, j)
    requires x.next == NextOf(r, k - 1) && x.prev == r[k - 1]
    ensures Linked(Inserted(r, k, x))
  {
    hide NextOf, PrevOf, Distinct, Inserted;
    var t := Inserted(r, k, x);
    InsertedLinks(r, k, x, 0);
    forall i | 0 <= i < |t|
      ensures t[i].next == NextOf(t, i) && t[i].prev == PrevOf(t, i)
    {
      if i != k {
        InsertedLinks(r, k, x, if i < k then i else i - 1);
      }
    }
  }

  // queue_insert_head, queue_insert_after: behind position k of the ring.
  method InsertAfter(p: Node, x: Node, ghost r: seq<Node>, ghost k: nat)
    requires Distinct(r) && Linked(r) && k < |r| && p == r[k] && x !in r
    modifies p`next, p.next`prev, x
    ensures Distinct(Inserted(r, k + 1, x)) && Linked(Inserted(r, k + 1, x))
  {
    hide NextOf, PrevOf, Distinct, Inserted;
    Links(r, k);
    Apart(r, k);
    Apart(r, if k + 1 < |r| then k + 1 else 0);
    InsertedDistinct(r, k + 1, x);
    InsertedLinks(r, k + 1, x, k);
    x.next := p.next;
    x.next.prev := x;
    x.prev := p;
    p.next := x;
    InsertedLinked(r, k + 1, x);
  }

  lemma InsertedLast(h: Node, xs: seq<Node>, x: Node)
    ensures Inserted([h] + xs, |xs| + 1, x) == [h] + (xs + [x])
  {
  }

  // queue_insert_tail: x comes last.
  method InsertTail(h: Node, x: Node, ghost xs: seq<Node>)
    requires Ring(h, xs) && x != h && x !in xs
    modifies h`prev, {([h] + xs)[|xs|]}`next, x
    ensures Ring(h, xs + [x])
  {
    hide NextOf, PrevOf, Distinct, Inserted;
    ghost var r := [h] + xs;
    ghost var n := |r|;
    Links(r, 0);
    Links(r, n - 1);
    Apart(r, n - 1);
    Apart(r, 0);
    InsertedDistinct(r, n, x);
    x.prev := h.prev;
    x.prev.next := x;
    x.next := h;
    h.prev := x;
    InsertedLinked(r, n, x);
    InsertedLast(h, xs, x);
  }

  // queue_remove: the neighbours meet; x keeps its own links.
  method Remove(x: Node, ghost r: seq<Node>, ghost k: nat)
    requires Distinct(r) && Linked(r) && 0 < k < |r| && x == r[k]
    modifies x.next`prev, x.prev`next
    ensures Distinct(Without(r, k)) && Linked(Without(r, k)) && x !in Without(r, k)
    ensures x.next == old(x.next) && x.prev == old(x.prev)
  {
    hide NextOf, PrevOf, Distinct, Without;
    Links(r, k);
    Apart(r, k);
    Apart(r, k - 1);
    Apart(r, if k + 1 < |r| then k + 1 else 0);
    WithoutDistinct(r, k);
    x.next.prev := x.prev;
    x.prev.next := x.next;
    ghost var t := Without(r, k);
    forall i | 0 <= i < |t|
      ensures t[i].next == NextOf(t, i) && t[i].prev == PrevOf(t, i)
    {
      WithoutLinks(r, k, i);
    }
  }

  // The links of two rings that are joined at the second's elements.
  lemma JoinedLinks(h: Node, xs: seq<Node>, n: Node, ys: seq<Node>, i: nat)
    requires ys != [] && i < 1 + |xs| + |ys|
    ensures var t, r, s, a := [h] + (xs + ys), [h] + xs, [n] + ys, |xs| + 1;
      && |t| == a + |ys|
      && t[i] == (if i < a then r[i] else s[i - a + 1])
      && NextOf(t, i) == (if i == a - 1 then s[1]
                          else if i == a + |ys| - 1 then h
                          else if i < a then NextOf(r, i)
                          else NextOf(s, i - a + 1))
      && PrevOf(t, i) == (if i == 0 then s[|ys|]
                          else if i == a then r[a - 1]
                          else if i < a then PrevOf(r, i)
                          else PrevOf(s, i - a + 1))
  {
  }

  lemma JoinedDistinct(h: Node, xs: seq<Node>, n: Node, ys: seq<Node>)
    requires Distinct([h] + xs + ([n] + ys))
    ensures Distinct([h] + (xs + ys))
  {
    var w, t, a := [h] + xs + ([n] + ys), [h] + (xs + ys), |xs| + 1;
    forall i, j | 0 <= i < j < |t|
      ensures t[i] != t[j]
    {
      assert t[i] == w[if i < a then i else i + 1] && t[j] == w[if j < a then j else j + 1];
    }
  }

  lemma JoinedApart(h: Node, xs: seq<Node>, n: Node, ys: seq<Node>)
    requires Distinct([h] + xs + ([n] + ys))
    ensures forall i, j :: 0 <= i < |xs| + 1 && 0 <= j < |ys| + 1 ==> ([h] + xs)[i] != ([n] + ys)[j]
  {
    var w, a := [h] + xs + ([n] + ys), |xs| + 1;
    forall i, j | 0 <= i < |xs| + 1 && 0 <= j < |ys| + 1
      ensures ([h] + xs)[i] != ([n] + ys)[j]
    {
      assert w[i] == ([h] + xs)[i] && w[a + j] == ([n] + ys)[j];
    }
  }

  lemma JoinedLinked(h: Node, xs: seq<Node>, n: Node, ys: seq<Node>)
    requires ys != []
    requires var r, s := [h] + xs, [n] + ys;
      && (forall i :: 0 <= i < |r| ==> r[i].next == if i == |r| - 1 then s[1] else NextOf(r, i))
      && (forall i :: 0 <= i < |r| ==> r[i].prev == if i == 0 then s[|ys|] else PrevOf(r, i))
      && (forall i :: 1 <= i < |s| ==> s[i].next == if i == |s| - 1 then h else NextOf(s, i))
      && (forall i :: 1 <= i < |s| ==> s[i].prev == if i == 1 then r[|r| - 1] else PrevOf(s, i))
    ensures Linked([h] + (xs + ys))
  {
    hide NextOf, PrevOf;
    var t := [h] + (xs + ys);
    forall i | 0 <= i < |t|
      ensures t[i].next == NextOf(t, i) && t[i].prev == PrevOf(t, i)
    {
      JoinedLinks(h, xs, n, ys, i);
    }
  }

  // queue_add: all of the second queue goes behind the first; either may be
  // empty.
  method Add(h: Node, n: Node, ghost xs: seq<Node>, ghost ys: seq<Node>)
    requires Ring(h, xs) && Ring(n, ys) && Distinct([h] + xs + ([n] + ys))
    modifies {h, n} + (set x | x in xs) + (set y | y in ys)
    ensures Ring(h, xs + ys)
  {
    hide NextOf, PrevOf, Distinct;
    ghost var r, s := [h] + xs, [n] + ys;
    Links(r, 0);
    Links(r, |xs|);
    Links(s, 0);
    Links(s, |ys|);
    Apart(r, 0);
    Apart(r, |xs|);
    Apart(s, 0);
    Apart(s, |ys|);
    if ys != [] {
      Apart(s, 1);
    }
    JoinedApart(h, xs, n, ys);
    JoinedDistinct(h, xs, n, ys);
    h.prev.next := n.next;
    n.next.prev := h.prev;
    h.prev := n.prev;
    h.prev.next := h;
    if ys == [] {
      assert xs + ys == xs;
    } else {
      JoinedLinked(h, xs, n, ys);
    }
  }

  // queue_split: what starts at q moves to the sentinel n.
  lemma SplitDistinct(h: Node, xs: seq<Node>, ys: seq<Node>, n: Node)
    requires Distinct([h] + (xs + ys)) && n !in [h] + (xs + ys)
    ensures Distinct([h] + xs) && Distinct([n] + ys)
    ensures forall i, j :: 0 <= i < |xs| + 1 && 0 <= j < |ys| + 1 ==> ([h] + xs)[i] != ([n] + ys)[j]
  {
    var t, a := [h] + (xs + ys), |xs| + 1;
    var r, s := [h] + xs, [n] + ys;
    assert forall i :: 0 <= i < a ==> r[i] == t[i];
    assert forall j :: 1 <= j < |s| ==> s[j] == t[a + j - 1];
    assert s[0] == n;
  }

  method Split(h: Node, q: Node, n: Node, ghost xs: seq<Node>, ghost ys: seq<Node>)
    requires Ring(h, xs + ys) && ys != [] && q == ys[0] && n !in [h] + (xs + ys)
    modifies {h, n} + (set x | x in xs) + (set y | y in ys)
    ensures Ring(h, xs) && Ring(n, ys)
  {
    hide NextOf, PrevOf, Distinct;
    ghost var t, r, s, a := [h] + (xs + ys), [h] + xs, [n] + ys, |xs| + 1;
    Links(t, 0);
    Links(t, a);
    Links(t, |t| - 1);
    Apart(t, 0);
    Apart(t, a);
    Apart(t, a - 1);
    Apart(t, |t| - 1);
    SplitDistinct(h, xs, ys, n);
    assert t[a] == q && t[a - 1] == r[a - 1];
    n.prev := h.prev;
    n.prev.next := n;
    n.next := q;
    h.prev := q.prev;
    h.prev.next := h;
    q.prev := n;
    forall i | 0 <= i < |r|
      ensures r[i].next == NextOf(r, i) && r[i].prev == PrevOf(r, i)
    {
      JoinedLinks(h, xs, n, ys, i);
      assert t[i] == r[i];
      Links(r, i);
    }
    forall i | 0 <= i < |s|
      ensures s[i].next == NextOf(s, i) && s[i].prev == PrevOf(s, i)
    {
      Links(s, i);
      if i > 0 {
        JoinedLinks(h, xs, n, ys, a + i - 1);
        assert t[a + i - 1] == s[i];
      }
    }
  }
}
