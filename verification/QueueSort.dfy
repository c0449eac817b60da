// The middle of a queue, and its stable insertion sort.
module QueueSort {
  import opened Lists
  import opened Queue

  type Cmp = (Node, Node) -> int

  lemma LastOnce(h: Node, xs: seq<Node>, i: nat)
    requires Distinct([h] + xs) && i < |xs|
    ensures xs[i] == xs[|xs| - 1] <==> i == |xs| - 1
  {
    var r := [h] + xs;
    assert r[i + 1] == xs[i] && r[|xs|] == xs[|xs| - 1];
  }

  lemma OneElement(h: Node, xs: seq<Node>)
    requires Ring(h, xs) && h.next == h.prev
    ensures |xs| <= 1
  {
    Links([h] + xs, 0);
  }

  lemma RingAt(h: Node, xs: seq<Node>, k: nat)
    requires Ring(h, xs) && k < |xs| + 1
    ensures var r := [h] + xs;
      && r[k].next == (if k < |xs| then r[k + 1] else h)
      && r[k].prev == (if k > 0 then r[k - 1] else r[|xs|])
      && Distinct(r) && Linked(r)
  {
    Links([h] + xs, k);
  }

  // queue_middle: the middle element, or the first of the second half.
  method QueueMiddle(h: Node, ghost xs: seq<Node>) returns (middle: Node)
    requires Ring(h, xs)
    ensures middle == if xs == [] then h else xs[|xs| / 2]
  {
    hide Linked, Distinct;
    RingAt(h, xs, 0);
    middle := h.next;
    if middle == h.prev {
      OneElement(h, xs);
      return;
    }
    var next := h.next;
    ghost var i := 0;
    while true
      invariant 2 * i < |xs| - 1 && middle == xs[i] && next == xs[2 * i]
      decreases |xs| - i
    {
      RingAt(h, xs, i + 1);
      RingAt(h, xs, 2 * i + 1);
      LastOnce(h, xs, 2 * i + 1);
      middle := middle.next;
      next := next.next;
      if next == h.prev {
        return;
      }
      RingAt(h, xs, 2 * i + 2);
      LastOnce(h, xs, 2 * i + 2);
      next := next.next;
      if next == h.prev {
        return;
      }
      i := i + 1;
    }
  }

  // ---- the sort on sequences ----

  // Where x goes in s: behind the last element that is not above it.
  function Place(s: seq<Node>, x: Node, cmp: Cmp): (k: nat)
    ensures k <= |s|
  {
    if s == [] then 0
    else if cmp(s[|s| - 1], x) <= 0 then |s|
    else Place(s[..|s| - 1], x, cmp)
  }

  ghost function SortedBy(xs: seq<Node>, cmp: Cmp): (s: seq<Node>)
    ensures |s| == |xs|
  {
    if xs == [] then []
    else
      var s, x := SortedBy(xs[..|xs| - 1], cmp), xs[|xs| - 1];
      Inserted(s, Place(s, x, cmp), x)
  }

  ghost predicate Preorder(cmp: Cmp, xs: seq<Node>)
  {
    && (forall i, j :: 0 <= i < |xs| && 0 <= j < |xs| ==> cmp(xs[i], xs[j]) <= 0 || cmp(xs[j], xs[i]) <= 0)
    && (forall i, j, k :: 0 <= i < |xs| && 0 <= j < |xs| && 0 <= k < |xs|
          && cmp(xs[i], xs[j]) <= 0 && cmp(xs[j], xs[k]) <= 0
          ==> cmp(xs[i], xs[k]) <= 0)
  }

  ghost predicate Ordered(s: seq<Node>, cmp: Cmp)
  {
    forall i, j :: 0 <= i < j < |s| ==> cmp(s[i], s[j]) <= 0
  }

  ghost predicate Before(s: seq<Node>, a: Node, b: Node)
  {
    exists i, j :: 0 <= i < j < |s| && s[i] == a && s[j] == b
  }

  lemma InsertedMultiset(s: seq<Node>, k: nat, x: Node)
    requires k <= |s|
    ensures multiset(Inserted(s, k, x)) == multiset(s) + multiset{x}
  {
    assert s == s[..k] + s[k..];
  }

  lemma {:induction false} SortedMultiset(xs: seq<Node>, cmp: Cmp)
    ensures multiset(SortedBy(xs, cmp)) == multiset(xs)
  {
    if xs != [] {
      var n := |xs| - 1;
      SortedMultiset(xs[..n], cmp);
      var s := SortedBy(xs[..n], cmp);
      InsertedMultiset(s, Place(s, xs[n], cmp), xs[n]);
      assert xs == xs[..n] + [xs[n]];
    }
  }

  lemma SameMembers(s: seq<Node>, t: seq<Node>)
    requires multiset(s) == multiset(t)
    ensures forall x :: x in s <==> x in t
  {
    forall x
      ensures x in s <==> x in t
    {
      assert x in s <==> x in multiset(s);
      assert x in t <==> x in multiset(t);
    }
  }

  // What stands at the place or behind it is above x.
  lemma {:induction false} PlaceAbove(s: seq<Node>, x: Node, cmp: Cmp)
    ensures var k := Place(s, x, cmp);
      (k > 0 ==> cmp(s[k - 1], x) <= 0) && forall i :: k <= i < |s| ==> cmp(s[i], x) > 0
  {
    if s != [] && cmp(s[|s| - 1], x) > 0 {
      PlaceAbove(s[..|s| - 1], x, cmp);
    }
  }

  lemma PreorderPrefix(cmp: Cmp, xs: seq<Node>, n: nat)
    requires Preorder(cmp, xs) && n <= |xs|
    ensures Preorder(cmp, xs[..n])
  {
  }

  lemma PreorderOf(cmp: Cmp, xs: seq<Node>, a: Node, b: Node, c: Node)
    requires Preorder(cmp, xs) && a in xs && b in xs && c in xs
    ensures cmp(a, b) <= 0 || cmp(b, a) <= 0
    ensures cmp(a, b) <= 0 && cmp(b, c) <= 0 ==> cmp(a, c) <= 0
  {
  }

  lemma OrderedInsert(s: seq<Node>, k: nat, x: Node, cmp: Cmp)
    requires Ordered(s, cmp) && k <= |s|
    requires forall i :: 0 <= i < |s| ==> if i < k then cmp(s[i], x) <= 0 else cmp(x, s[i]) <= 0
    ensures Ordered(Inserted(s, k, x), cmp)
  {
    var t := Inserted(s, k, x);
    forall i, j | 0 <= i < j < |t|
      ensures cmp(t[i], t[j]) <= 0
    {
      assert t[i] == if i < k then s[i] else if i == k then x else s[i - 1];
      assert t[j] == if j < k then s[j] else if j == k then x else s[j - 1];
    }
  }

  // A comparison that is a total preorder puts the queue in order.
  lemma {:induction false} SortedIsOrdered(xs: seq<Node>, cmp: Cmp)
    requires Preorder(cmp, xs)
    ensures Ordered(SortedBy(xs, cmp), cmp)
  {
    hide Preorder;
    if xs != [] {
      var n := |xs| - 1;
      PreorderPrefix(cmp, xs, n);
      SortedIsOrdered(xs[..n], cmp);
      var s, x := SortedBy(xs[..n], cmp), xs[n];
      SortedMultiset(xs[..n], cmp);
      SameMembers(s, xs[..n]);
      PlaceAbove(s, x, cmp);
      var k := Place(s, x, cmp);
      forall i | 0 <= i < |s|
        ensures if i < k then cmp(s[i], x) <= 0 else cmp(x, s[i]) <= 0
      {
        assert s[i] in xs[..n];
        if i < k {
          assert s[k - 1] in xs[..n];
          assert i < k - 1 ==> cmp(s[i], s[k - 1]) <= 0;
          PreorderOf(cmp, xs, s[i], s[k - 1], x);
        } else {
          PreorderOf(cmp, xs, x, s[i], x);
        }
      }
      OrderedInsert(s, k, x, cmp);
    }
  }

  // Stability: two elements that are not out of order keep their order.
  lemma {:induction false} SortedIsStable(xs: seq<Node>, cmp: Cmp, a: Node, b: Node)
    requires Before(xs, a, b) && cmp(a, b) <= 0
    ensures Before(SortedBy(xs, cmp), a, b)
  {
    hide Inserted, Place;
    var i, j :| 0 <= i < j < |xs| && xs[i] == a && xs[j] == b;
    var n := |xs| - 1;
    var s, x := SortedBy(xs[..n], cmp), xs[n];
    var k := Place(s, x, cmp);
    var t := Inserted(s, k, x);
    PlaceAbove(s, x, cmp);
    InsertedAt(s, k, x);
    if j < n {
      assert xs[..n][i] == a && xs[..n][j] == b;
      SortedIsStable(xs[..n], cmp, a, b);
      var u, v :| 0 <= u < v < |s| && s[u] == a && s[v] == b;
      assert t[if u < k then u else u + 1] == a && t[if v < k then v else v + 1] == b;
    } else {
      SortedMultiset(xs[..n], cmp);
      SameMembers(s, xs[..n]);
      assert a in xs[..n];
      var u :| 0 <= u < |s| && s[u] == a;
      assert t[u] == a && t[k] == b;
    }
  }

  // ---- the sort on the ring ----

  lemma Members(xs: seq<Node>, i: nat, cmp: Cmp)
    requires i <= |xs|
    ensures forall x :: x in SortedBy(xs[..i], cmp) ==> x in xs
    ensures forall x :: x in xs[i..] ==> x in xs
  {
    SortedMultiset(xs[..i], cmp);
    var s, p := SortedBy(xs[..i], cmp), xs[..i];
    SameMembers(s, p);
    forall x | x in s
      ensures x in xs
    {
      assert x in multiset(s);
      assert x in multiset(p);
    }
  }

  lemma SortedStep(xs: seq<Node>, i: nat, cmp: Cmp)
    requires i < |xs|
    ensures var s := SortedBy(xs[..i], cmp);
      SortedBy(xs[..i + 1], cmp) == Inserted(s, Place(s, xs[i], cmp), xs[i]) && xs[i..][1..] == xs[i + 1..]
  {
    assert xs[..i + 1][..i] == xs[..i];
  }

  lemma AllSorted(xs: seq<Node>, cmp: Cmp)
    ensures SortedBy(xs[..|xs|], cmp) + xs[|xs|..] == SortedBy(xs, cmp)
  {
    assert xs[..|xs|] == xs;
  }

  lemma SentinelApart(h: Node, ws: seq<Node>, i: nat)
    requires Ring(h, ws) && i < |ws|
    ensures ws[i] != h
  {
    assert ([h] + ws)[0] == h && ([h] + ws)[i + 1] == ws[i];
  }

  lemma SortedOne(x: Node, cmp: Cmp)
    ensures SortedBy([x], cmp) == [x]
  {
    assert [x][..0] == [];
    assert Inserted([], 0, x) == [x];
  }

  lemma SortedNone(cmp: Cmp)
    ensures SortedBy([], cmp) == []
  {
  }

  lemma FewSorted(xs: seq<Node>, cmp: Cmp)
    ensures xs != [] ==> SortedBy(xs[..1], cmp) + xs[1..] == xs
    ensures |xs| <= 1 ==> SortedBy(xs, cmp) == xs
  {
    hide SortedBy;
    if xs == [] {
      SortedNone(cmp);
    } else {
      SortedOne(xs[0], cmp);
      assert xs[..1] == [xs[0]];
      assert |xs| == 1 ==> xs == [xs[0]];
    }
  }

  lemma InRing(h: Node, s: seq<Node>, ys: seq<Node>, k: nat)
    requires ys != [] && k <= |s| + |ys| - 1
    ensures var x := ([h] + (s + ys[1..]))[k]; x == h || x in s || x in ys
  {
    if k > |s| {
      assert ([h] + (s + ys[1..]))[k] == ys[k - |s|];
    }
  }

  lemma PlaceStep(s: seq<Node>, p: nat, x: Node, cmp: Cmp)
    requires 0 < p <= |s|
    ensures Place(s[..p], x, cmp) == if cmp(s[p - 1], x) <= 0 then p else Place(s[..p - 1], x, cmp)
  {
    assert s[..p][..p - 1] == s[..p - 1];
  }

  lemma PlaceNone(s: seq<Node>, x: Node, cmp: Cmp)
    requires s == []
    ensures Place(s, x, cmp) == 0
  {
  }

  lemma InsertedBehind(h: Node, s: seq<Node>, p: nat, x: Node, rest: seq<Node>)
    requires p <= |s|
    ensures Inserted([h] + (s + rest), p + 1, x) == [h] + (Inserted(s, p, x) + rest)
  {
  }

  lemma WithoutAt(h: Node, s: seq<Node>, ys: seq<Node>)
    requires ys != []
    ensures Without([h] + (s + ys), |s| + 1) == [h] + (s + ys[1..])
  {
  }

  // One turn of the outer loop: the first of ys, which is q, goes to its place.
  method Sink(h: Node, q: Node, cmp: Cmp, ghost s: seq<Node>, ghost ys: seq<Node>) returns (next: Node)
    requires Ring(h, s + ys) && s != [] && ys != [] && q == ys[0]
    modifies h, set x | x in s, set y | y in ys
    ensures Ring(h, Inserted(s, Place(s, q, cmp), q) + ys[1..])
    ensures next == if |ys| > 1 then ys[1] else h
  {
    hide NextOf, PrevOf, Linked, Distinct, Inserted, Without, Place;
    ghost var r, at := [h] + (s + ys), |s| + 1;
    ghost var rest, t := ys[1..], [h] + (s + ys[1..]);
    RingAt(h, s + ys, at);
    var prev: Node := q.prev;
    next := q.next;
    WithoutAt(h, s, ys);
    Remove(q, r, at);
    ghost var p := |s|;
    assert s[..p] == s;
    var more := true;
    while more
      invariant 0 <= p <= |s| && prev == t[p] && (more <==> p > 0)
      invariant Place(s, q, cmp) == Place(s[..p], q, cmp)
      decreases p
      modifies {}
    {
      PlaceStep(s, p, q, cmp);
      if cmp(prev, q) <= 0 {
        break;
      }
      RingAt(h, s + rest, p);
      RingAt(h, s + rest, 0);
      Apart(t, 0);
      prev := prev.prev;
      p := p - 1;
      more := prev != h;
    }
    if p == 0 {
      PlaceNone(s[..p], q, cmp);
    }
    RingAt(h, s + rest, p);
    InRing(h, s, ys, p);
    if p + 1 < |t| {
      InRing(h, s, ys, p + 1);
    }
    InsertAfter(prev, q, t, p);
    InsertedBehind(h, s, p, q, rest);
  }

  method QueueSort(h: Node, cmp: Cmp, ghost xs: seq<Node>)
    requires Ring(h, xs)
    modifies h, set x | x in xs
    ensures Ring(h, SortedBy(xs, cmp))
  {
    hide Linked, Distinct, SortedBy, Inserted, Place;
    FewSorted(xs, cmp);
    RingAt(h, xs, 0);
    var q := h.next;
    if q == h.prev {
      OneElement(h, xs);
      return;
    }
    RingAt(h, xs, 1);
    q := q.next;
    ghost var i := 1;
    while q != h
      invariant 1 <= i <= |xs| && Ring(h, SortedBy(xs[..i], cmp) + xs[i..])
      invariant q == if i < |xs| then xs[i] else h
      decreases |xs| - i
    {
      Members(xs, i, cmp);
      SortedStep(xs, i, cmp);
      q := Sink(h, q, cmp, SortedBy(xs[..i], cmp), xs[i..]);
      i := i + 1;
    }
    if i < |xs| {
      SentinelApart(h, SortedBy(xs[..i], cmp) + xs[i..], i);
    }
    AllSorted(xs, cmp);
  }
}
