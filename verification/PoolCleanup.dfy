// The list of cleanups of a pool, whose entries lie in the memory that the pool
// hands out.
module PoolCleanup {
  import opened PoolPlace

  const CLEANUP_NODE: nat := 24

  // Where the link and the data stand in an entry, behind the handler.
  const NEXT: nat := 8
  const DATA: nat := 16

  // What stands at an address, a word of eight bytes.
  type Memory = nat -> nat

  // An entry as it was registered; own is the number of its region, -1 when that
  // is from before the last reset.
  datatype Cleanup = Cleanup(node: nat, handler: nat, data: nat, own: int)

  datatype Call = Call(handler: nat, data: nat)

  predicate Overlaps(a: nat, m: nat, b: nat, n: nat) { 0 < m && 0 < n && a < b + n && b < a + m }

  // ---- the words of the lists ----

  // words: what the pool has put into the words of its lists and nobody else has
  // been given since.  All other words may hold anything.
  predicate Agrees(m: Memory, words: map<nat, nat>) { forall a :: a in words ==> m(a) == words[a] }

  // The memory that agrees with words and holds x everywhere else.
  function Filled(words: map<nat, nat>, x: nat): (m: Memory)
    ensures Agrees(m, words) && forall a :: a !in words ==> m(a) == x
  {
    a => if a in words then words[a] else x
  }

  // Whoever is given n bytes at m may write anything there.
  function Overwritten(words: map<nat, nat>, m: nat, n: nat): map<nat, nat>
  {
    map a | a in words && !Overlaps(a, WORD, m, n) :: words[a]
  }

  // The pool writes a word.
  function Stored(words: map<nat, nat>, a: nat, x: nat): map<nat, nat>
  {
    Overwritten(words, a, WORD)[a := x]
  }

  predicate Hit(a: nat, n: nat, rs: seq<Region>)
  {
    exists r :: r in rs && Overlaps(a, n, r.at, r.size)
  }

  // Outside of the regions rs the words are as before.
  ghost predicate Spared(words: map<nat, nat>, now: map<nat, nat>, rs: seq<Region>)
  {
    forall a :: a in words && !Hit(a, WORD, rs) ==> a in now && now[a] == words[a]
  }

  lemma SparedOne(words: map<nat, nat>, r: Region)
    ensures Spared(words, Overwritten(words, r.at, r.size), [r]) && Spared(words, words, [])
  {
    assert r in [r];
  }

  lemma SparedMore(words: map<nat, nat>, now: map<nat, nat>, later: map<nat, nat>, rs: seq<Region>, qs: seq<Region>,
                   all: seq<Region>)
    requires Spared(words, now, rs) && Spared(now, later, qs)
    requires (forall r :: r in rs ==> r in all) && forall r :: r in qs ==> r in all
    ensures Spared(words, later, all)
  {
    forall a | a in words && !Hit(a, WORD, all)
      ensures !Hit(a, WORD, rs) && !Hit(a, WORD, qs)
    {
    }
  }

  // A word that the pool writes into a region that is one of rs.
  lemma SparedStored(words: map<nat, nat>, now: map<nat, nat>, rs: seq<Region>, r: Region, a: nat, x: nat)
    requires Spared(words, now, rs) && r in rs && r.at <= a && a + WORD <= r.at + r.size
    ensures Spared(words, Stored(now, a, x), rs)
  {
    forall b | b in words && !Hit(b, WORD, rs)
      ensures b in Stored(now, a, x) && Stored(now, a, x)[b] == words[b]
    {
      assert !Overlaps(b, WORD, r.at, r.size);
    }
  }

  // No word of the lists is among these bytes.
  predicate Bare(words: map<nat, nat>, m: nat, n: nat)
  {
    forall a :: a in words ==> !Overlaps(a, WORD, m, n)
  }

  lemma OverwrittenBare(words: map<nat, nat>, m: nat, n: nat)
    ensures Bare(Overwritten(words, m, n), m, n)
  {
  }

  // ---- the list ----

  function NodeAt(cs: seq<Cleanup>, k: nat): nat { if k < |cs| then cs[k].node else 0 }

  function NodesOf(cs: seq<Cleanup>): (l: seq<nat>)
    ensures |l| == |cs| && forall k :: 0 <= k < |cs| ==> l[k] == cs[k].node
  {
    if cs == [] then [] else [cs[0].node] + NodesOf(cs[1..])
  }

  function CallOf(handler: nat, data: nat): seq<Call> { if handler != 0 then [Call(handler, data)] else [] }

  // The handlers that are set, with their data.
  function CallsOf(cs: seq<Cleanup>): seq<Call>
  {
    if cs == [] then [] else CallOf(cs[0].handler, cs[0].data) + CallsOf(cs[1..])
  }

  // Following the links from p leads through l and ends.
  predicate Walk(m: Memory, p: nat, l: seq<nat>)
    decreases |l|
  {
    if l == [] then p == 0 else p != 0 && p == l[0] && Walk(m, m(p + NEXT), l[1..])
  }

  ghost predicate Ends(m: Memory, head: nat) { exists l :: Walk(m, head, l) }

  // What is called on the way.
  function CallsAlong(m: Memory, l: seq<nat>): seq<Call>
  {
    if l == [] then [] else CallOf(m(l[0]), m(l[0] + DATA)) + CallsAlong(m, l[1..])
  }

  lemma {:induction false} AlongMore(m: Memory, l: seq<nat>, k: nat)
    requires k < |l|
    ensures CallsAlong(m, l[..k + 1]) == CallsAlong(m, l[..k]) + CallOf(m(l[k]), m(l[k] + DATA))
  {
    assert l[..k + 1][1..] == l[1..][..k];
    if k > 0 {
      AlongMore(m, l[1..], k - 1);
      assert l[..k][1..] == l[1..][..k - 1];
    } else {
      assert l[..0] == [];
    }
  }

  lemma AlongNone(m: Memory, l: seq<nat>)
    ensures CallsAlong(m, l[..0]) == []
  {
  }

  lemma {:induction false} WalkUnique(m: Memory, p: nat, l: seq<nat>, l2: seq<nat>)
    requires Walk(m, p, l) && Walk(m, p, l2)
    ensures l == l2
    decreases |l|
  {
    if l != [] {
      WalkUnique(m, m(p + NEXT), l[1..], l2[1..]);
    }
  }

  // What the loop reads at entry k is what was registered.
  predicate Found(m: Memory, c: Cleanup) { m(c.node) == c.handler && m(c.node + DATA) == c.data }

  predicate Linked(m: Memory, cs: seq<Cleanup>, k: nat)
    requires k < |cs|
  {
    m(cs[k].node + NEXT) == NodeAt(cs, k + 1)
  }

  ghost predicate Positive(cs: seq<Cleanup>) { forall k :: 0 <= k < |cs| ==> cs[k].node > 0 }

  // The loop passes the entries in order and finds them as they were registered.
  ghost predicate Right(m: Memory, head: nat, cs: seq<Cleanup>)
  {
    Walk(m, head, NodesOf(cs)) && forall k :: 0 <= k < |cs| ==> Found(m, cs[k])
  }

  lemma {:induction false} RightCalls(m: Memory, cs: seq<Cleanup>)
    requires forall k :: 0 <= k < |cs| ==> Found(m, cs[k])
    ensures CallsAlong(m, NodesOf(cs)) == CallsOf(cs)
  {
    if cs != [] {
      assert forall k :: 0 <= k < |cs| - 1 ==> cs[1..][k] == cs[k + 1];
      RightCalls(m, cs[1..]);
      assert NodesOf(cs)[1..] == NodesOf(cs[1..]);
    }
  }

  lemma {:induction false} LinksWalk(m: Memory, cs: seq<Cleanup>, k: nat)
    requires Positive(cs) && k <= |cs| && forall j :: k <= j < |cs| ==> Linked(m, cs, j)
    ensures Walk(m, NodeAt(cs, k), NodesOf(cs)[k..])
    decreases |cs| - k
  {
    hide NodesOf;
    if k < |cs| {
      assert Linked(m, cs, k);
      LinksWalk(m, cs, k + 1);
      assert NodesOf(cs)[k..][1..] == NodesOf(cs)[k + 1..];
    }
  }

  lemma {:induction false} WalkLinks(m: Memory, cs: seq<Cleanup>, k: nat, j: nat)
    requires k <= j < |cs| && Walk(m, NodeAt(cs, k), NodesOf(cs)[k..])
    ensures Linked(m, cs, j)
    decreases j - k
  {
    hide NodesOf;
    var l := NodesOf(cs)[k..];
    assert l[1..] == NodesOf(cs)[k + 1..];
    if k + 1 < |cs| {
      assert l[1..][0] == cs[k + 1].node;
    }
    if k < j {
      WalkLinks(m, cs, k + 1, j);
    }
  }

  // ---- entries that stand in memory ----

  predicate Holds(words: map<nat, nat>, a: nat, x: nat) { a in words && words[a] == x }

  // The three words of entry k are the pool's and as they were registered.
  predicate Stands(words: map<nat, nat>, cs: seq<Cleanup>, k: nat)
    requires k < |cs|
  {
    && Holds(words, cs[k].node, cs[k].handler)
    && Holds(words, cs[k].node + NEXT, NodeAt(cs, k + 1))
    && Holds(words, cs[k].node + DATA, cs[k].data)
  }

  predicate AllStand(words: map<nat, nat>, cs: seq<Cleanup>)
  {
    forall k :: 0 <= k < |cs| ==> Stands(words, cs, k)
  }

  // A word is x in every memory that agrees just when it is the pool's and x.
  lemma HoldsIff(words: map<nat, nat>, a: nat, x: nat)
    ensures Holds(words, a, x) <==> forall m :: Agrees(m, words) ==> m(a) == x
  {
    var m := Filled(words, x + 1);
    assert Agrees(m, words);
  }

  // destroy calls all cleanups in order, whatever stands in the words that are
  // not the pool's, if and only if every entry stands.
  lemma RightIff(words: map<nat, nat>, head: nat, cs: seq<Cleanup>)
    requires head == NodeAt(cs, 0) && Positive(cs)
    ensures (forall m :: Agrees(m, words) ==> Right(m, head, cs)) <==> AllStand(words, cs)
  {
    hide Right, Agrees, Stands, Positive;
    if AllStand(words, cs) {
      forall m | Agrees(m, words)
        ensures Right(m, head, cs)
      {
        StandsRight(m, words, head, cs);
      }
    }
    if forall m :: Agrees(m, words) ==> Right(m, head, cs) {
      forall k | 0 <= k < |cs|
        ensures Stands(words, cs, k)
      {
        RightStands(words, head, cs, k);
      }
    }
  }

  lemma StandsRight(m: Memory, words: map<nat, nat>, head: nat, cs: seq<Cleanup>)
    requires head == NodeAt(cs, 0) && Positive(cs) && Agrees(m, words) && AllStand(words, cs)
    ensures Right(m, head, cs)
  {
    hide Walk, NodesOf, Positive;
    forall k | 0 <= k < |cs|
      ensures Linked(m, cs, k) && Found(m, cs[k])
    {
      assert Stands(words, cs, k);
    }
    LinksWalk(m, cs, 0);
    assert NodesOf(cs)[0..] == NodesOf(cs);
  }

  lemma RightStands(words: map<nat, nat>, head: nat, cs: seq<Cleanup>, k: nat)
    requires head == NodeAt(cs, 0) && k < |cs|
    requires forall m :: Agrees(m, words) ==> Right(m, head, cs)
    ensures Stands(words, cs, k)
  {
    hide Walk, NodesOf, Holds, Agrees;
    forall m | Agrees(m, words)
      ensures Linked(m, cs, k) && Found(m, cs[k])
    {
      assert NodesOf(cs)[0..] == NodesOf(cs);
      WalkLinks(m, cs, 0, k);
    }
    HoldsIff(words, cs[k].node, cs[k].handler);
    HoldsIff(words, cs[k].node + NEXT, NodeAt(cs, k + 1));
    HoldsIff(words, cs[k].node + DATA, cs[k].data);
  }

  // The links that the pool knows lead through l and end.
  predicate Firm(words: map<nat, nat>, p: nat, l: seq<nat>)
    decreases |l|
  {
    if l == [] then p == 0
    else p != 0 && p == l[0] && p + NEXT in words && Firm(words, words[p + NEXT], l[1..])
  }

  ghost predicate FirmlyEnds(words: map<nat, nat>, head: nat) { exists l :: Firm(words, head, l) }

  // The memory in which every link that is not the pool's leads back to its own
  // entry.
  function Looping(words: map<nat, nat>): (m: Memory)
    ensures Agrees(m, words) && forall a :: a !in words && a >= NEXT ==> m(a) == a - NEXT
  {
    a => if a in words then words[a] else if a >= NEXT then a - NEXT else 0
  }

  lemma {:induction false} FirmWalks(m: Memory, words: map<nat, nat>, p: nat, l: seq<nat>)
    requires Agrees(m, words) && Firm(words, p, l)
    ensures Walk(m, p, l)
    decreases |l|
  {
    if l != [] {
      FirmWalks(m, words, words[p + NEXT], l[1..]);
    }
  }

  lemma {:induction false} WalkFirm(words: map<nat, nat>, p: nat, l: seq<nat>)
    requires Walk(Looping(words), p, l)
    ensures Firm(words, p, l)
    decreases |l|
  {
    var m := Looping(words);
    if l != [] {
      if p + NEXT in words {
        WalkFirm(words, words[p + NEXT], l[1..]);
      } else {
        WalkUnique(m, p, l, l[1..]);
        assert false;
      }
    }
  }

  // The loop of destroy ends, whatever stands in the words that are not the
  // pool's, if and only if the links that are lead to an end; if they do not,
  // there is a content with which it runs for ever.
  lemma EndsIff(words: map<nat, nat>, head: nat)
    ensures (forall m :: Agrees(m, words) ==> Ends(m, head)) <==> FirmlyEnds(words, head)
    ensures !FirmlyEnds(words, head) ==> !Ends(Looping(words), head)
  {
    if FirmlyEnds(words, head) {
      var l :| Firm(words, head, l);
      forall m | Agrees(m, words)
        ensures Ends(m, head)
      {
        FirmWalks(m, words, head, l);
      }
    }
    if Ends(Looping(words), head) {
      var l :| Walk(Looping(words), head, l);
      WalkFirm(words, head, l);
    }
  }

  lemma {:induction false} StandsFirm(words: map<nat, nat>, cs: seq<Cleanup>, k: nat)
    requires AllStand(words, cs) && Positive(cs) && k <= |cs|
    ensures Firm(words, NodeAt(cs, k), NodesOf(cs)[k..])
    decreases |cs| - k
  {
    hide NodesOf;
    if k < |cs| {
      assert Stands(words, cs, k);
      StandsFirm(words, cs, k + 1);
      assert NodesOf(cs)[k..][1..] == NodesOf(cs)[k + 1..];
    }
  }

  lemma AllStandEnds(words: map<nat, nat>, cs: seq<Cleanup>)
    requires AllStand(words, cs) && Positive(cs)
    ensures FirmlyEnds(words, NodeAt(cs, 0))
  {
    StandsFirm(words, cs, 0);
    assert NodesOf(cs)[0..] == NodesOf(cs);
  }

  // ---- what the operations of the pool keep ----

  // Every entry has a region of its own that is still handed out.
  ghost predicate Owned(cs: seq<Cleanup>) { forall k :: 0 <= k < |cs| ==> cs[k].own >= 0 }

  lemma OwnedFront(c: Cleanup, cs: seq<Cleanup>)
    requires c.own >= 0
    ensures Owned([c] + cs) <==> Owned(cs)
  {
    assert forall k :: 0 <= k < |cs| ==> ([c] + cs)[k + 1] == cs[k];
  }

  // An entry that has its region stands in it.
  ghost predicate Housed(words: map<nat, nat>, cs: seq<Cleanup>, regions: seq<Region>, k: nat)
    requires k < |cs|
  {
    && -1 <= cs[k].own < |regions|
    && (cs[k].own >= 0 ==>
          && regions[cs[k].own].at == cs[k].node && regions[cs[k].own].size == CLEANUP_NODE
          && Stands(words, cs, k))
  }

  ghost predicate Remembered(head: nat, words: map<nat, nat>, cs: seq<Cleanup>, regions: seq<Region>)
  {
    && head == NodeAt(cs, 0) && Positive(cs)
    && (forall k :: 0 <= k < |cs| ==> Housed(words, cs, regions, k))
    && (forall j, k :: 0 <= j < k < |cs| && cs[j].own >= 0 ==> cs[j].own != cs[k].own)
  }

  // Region i is apart from the others.
  ghost predicate Alone(regions: seq<Region>, i: nat)
    requires i < |regions|
  {
    forall j :: 0 <= j < |regions| && j != i ==>
      Disjoint(regions[i].at, regions[i].size, regions[j].at, regions[j].size)
  }

  // Somebody is given n bytes at m: an entry stands then if and only if it did
  // and none of its bytes is among them.
  lemma OverwrittenStands(words: map<nat, nat>, cs: seq<Cleanup>, k: nat, m: nat, n: nat)
    requires k < |cs|
    ensures Stands(Overwritten(words, m, n), cs, k) <==>
      Stands(words, cs, k) && !Overlaps(cs[k].node, CLEANUP_NODE, m, n)
  {
  }

  // So does an entry that no byte of rs belongs to.
  lemma SparedStands(words: map<nat, nat>, now: map<nat, nat>, rs: seq<Region>, cs: seq<Cleanup>, k: nat)
    requires k < |cs| && Spared(words, now, rs) && Stands(words, cs, k) && !Hit(cs[k].node, CLEANUP_NODE, rs)
    ensures Stands(now, cs, k)
  {
    forall a | a in {cs[k].node, cs[k].node + NEXT, cs[k].node + DATA}
      ensures !Hit(a, WORD, rs)
    {
      forall r | r in rs
        ensures !Overlaps(a, WORD, r.at, r.size)
      {
        assert !Overlaps(cs[k].node, CLEANUP_NODE, r.at, r.size);
      }
    }
  }

  // One more region, apart from those handed out.
  lemma RegionTouches(head: nat, words: map<nat, nat>, cs: seq<Cleanup>, regions: seq<Region>, r: Region)
    requires Remembered(head, words, cs, regions)
    requires forall i :: 0 <= i < |regions| ==> Disjoint(regions[i].at, regions[i].size, r.at, r.size)
    ensures Remembered(head, Overwritten(words, r.at, r.size), cs, regions + [r])
  {
    hide Stands, Overwritten, Positive;
    forall k | 0 <= k < |cs|
      ensures Housed(Overwritten(words, r.at, r.size), cs, regions + [r], k)
    {
      assert Housed(words, cs, regions, k);
      OverwrittenStands(words, cs, k, r.at, r.size);
    }
  }

  // The pool writes a word of a region that no entry has.
  lemma StoredKeeps(head: nat, words: map<nat, nat>, cs: seq<Cleanup>, regions: seq<Region>, i: nat, a: nat, x: nat)
    requires Remembered(head, words, cs, regions) && i < |regions| && Alone(regions, i)
    requires regions[i].at <= a && a + WORD <= regions[i].at + regions[i].size
    requires forall k :: 0 <= k < |cs| ==> cs[k].own != i
    ensures Remembered(head, Stored(words, a, x), cs, regions)
  {
    hide Positive;
    forall k | 0 <= k < |cs|
      ensures Housed(Stored(words, a, x), cs, regions, k)
    {
      assert Housed(words, cs, regions, k);
    }
  }

  // The three words of an entry.
  function Put(words: map<nat, nat>, c: nat, data: nat, next: nat): map<nat, nat>
  {
    Stored(Stored(Stored(words, c + DATA, data), c, 0), c + NEXT, next)
  }

  lemma PutHolds(words: map<nat, nat>, c: nat, data: nat, next: nat)
    ensures var now := Put(words, c, data, next);
      Holds(now, c, 0) && Holds(now, c + NEXT, next) && Holds(now, c + DATA, data)
  {
  }

  lemma PutSpared(words: map<nat, nat>, now: map<nat, nat>, rs: seq<Region>, r: Region, data: nat, next: nat)
    requires Spared(words, now, rs) && r in rs && r.size == CLEANUP_NODE
    ensures Spared(words, Put(now, r.at, data, next), rs)
  {
    hide Spared, Stored;
    var c, w1 := r.at, Stored(now, r.at + DATA, data);
    SparedStored(words, now, rs, r, c + DATA, data);
    SparedStored(words, w1, rs, r, c, 0);
    SparedStored(words, Stored(w1, c, 0), rs, r, c + NEXT, next);
  }

  // An entry written into region i, which is handed out, in front of the list.
  lemma PutKeeps(head: nat, words: map<nat, nat>, cs: seq<Cleanup>, regions: seq<Region>, i: nat, data: nat)
    requires Remembered(head, words, cs, regions) && i < |regions| && Alone(regions, i)
    requires regions[i].size == CLEANUP_NODE && regions[i].at > 0 && (forall k :: 0 <= k < |cs| ==> cs[k].own != i)
    ensures var c := regions[i].at;
      Remembered(c, Put(words, c, data, head), [Cleanup(c, 0, data, i)] + cs, regions)
  {
    hide Stored, Holds, Alone;
    var c := regions[i].at;
    var now, w1 := [Cleanup(c, 0, data, i)] + cs, Stored(words, c + DATA, data);
    StoredKeeps(head, words, cs, regions, i, c + DATA, data);
    StoredKeeps(head, w1, cs, regions, i, c, 0);
    StoredKeeps(head, Stored(w1, c, 0), cs, regions, i, c + NEXT, head);
    PutHolds(words, c, data, head);
    var later := Put(words, c, data, head);
    forall k | 0 <= k < |now|
      ensures Housed(later, now, regions, k) && now[k].node > 0
    {
      if k > 0 {
        assert Housed(later, cs, regions, k - 1);
        assert now[k] == cs[k - 1] && NodeAt(now, k + 1) == NodeAt(cs, k);
      } else {
        assert NodeAt(now, 1) == head;
      }
    }
  }

  // Writing the handler of an entry that has its region.
  lemma HandlerKeeps(head: nat, words: map<nat, nat>, cs: seq<Cleanup>, regions: seq<Region>, k: nat, handler: nat)
    requires Remembered(head, words, cs, regions) && k < |cs| && 0 <= cs[k].own < |regions| && Alone(regions, cs[k].own)
    ensures Remembered(head, Stored(words, cs[k].node, handler), cs[k := cs[k].(handler := handler)], regions)
  {
    var now, later := cs[k := cs[k].(handler := handler)], Stored(words, cs[k].node, handler);
    assert Housed(words, cs, regions, k);
    forall j | 0 <= j < |cs|
      ensures Housed(later, now, regions, j) && now[j].node > 0
    {
      assert Housed(words, cs, regions, j);
      assert NodeAt(now, j + 1) == NodeAt(cs, j + 1);
    }
  }

  // After a reset no entry has a region any more.
  ghost function Released(cs: seq<Cleanup>): (r: seq<Cleanup>)
    ensures |r| == |cs| && forall k :: 0 <= k < |cs| ==> r[k] == cs[k].(own := -1)
  {
    seq(|cs|, k requires 0 <= k < |cs| => cs[k].(own := -1))
  }

  lemma ReleasedOwned(cs: seq<Cleanup>)
    ensures Owned(Released(cs)) <==> cs == []
  {
    if cs != [] {
      assert Released(cs)[0].own == -1;
    }
  }

  lemma ReleasedKeeps(head: nat, words: map<nat, nat>, cs: seq<Cleanup>, regions: seq<Region>)
    requires Remembered(head, words, cs, regions)
    ensures Remembered(head, words, Released(cs), [])
    ensures forall k :: 0 <= k < |cs| ==> (Stands(words, Released(cs), k) <==> Stands(words, cs, k))
  {
    assert forall k :: 0 <= k <= |cs| ==> NodeAt(Released(cs), k) == NodeAt(cs, k);
  }

  lemma OwnedStands(head: nat, words: map<nat, nat>, cs: seq<Cleanup>, regions: seq<Region>)
    requires Remembered(head, words, cs, regions) && Owned(cs)
    ensures AllStand(words, cs)
  {
    forall k | 0 <= k < |cs|
      ensures Stands(words, cs, k)
    {
      assert Housed(words, cs, regions, k);
    }
  }

  lemma OwnsBelow(head: nat, words: map<nat, nat>, cs: seq<Cleanup>, regions: seq<Region>)
    requires Remembered(head, words, cs, regions)
    ensures forall k :: 0 <= k < |cs| ==> cs[k].own < |regions|
  {
    forall k | 0 <= k < |cs|
      ensures cs[k].own < |regions|
    {
      assert Housed(words, cs, regions, k);
    }
  }

  // No entry has a region that is larger or smaller than an entry.
  lemma OwnsSized(head: nat, words: map<nat, nat>, cs: seq<Cleanup>, regions: seq<Region>, i: nat)
    requires Remembered(head, words, cs, regions) && i < |regions| && regions[i].size != CLEANUP_NODE
    ensures forall k :: 0 <= k < |cs| ==> cs[k].own != i
  {
    forall k | 0 <= k < |cs|
      ensures cs[k].own != i
    {
      assert Housed(words, cs, regions, k);
    }
  }
}
