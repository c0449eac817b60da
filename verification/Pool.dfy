// The arena: a chain of blocks, a list of large chunks, a list of cleanups.
module Pool {
  import opened Lists
  import opened NumberTheory
  import opened PoolCleanup
  import opened PoolPlace
  import opened MachineWords

  const LARGE_NODE: nat := 16
  const FAIL_LIMIT: nat := 4

  class Block {
    const at: nat
    const end: nat
    var last: nat
    var failed: nat
    var next: Block?

    constructor (at: nat, end: nat, last: nat)
      ensures this.at == at && this.end == end && this.last == last && failed == 0 && next == null
    {
      this.at, this.end, this.last, failed, next := at, end, last, 0, null;
    }
  }

  // An entry of the large list; alloc is 0 when the entry holds no chunk.
  datatype Large = Large(node: nat, alloc: nat, size: nat)

  // starts and lasts tell where the blocks are and how far they are used.
  ghost predicate Synced(chain: seq<Block>, starts: seq<nat>, lasts: seq<nat>)
    reads chain`last
  {
    && |starts| == |lasts| == |chain|
    && (forall i :: 0 <= i < |chain| ==> chain[i].at == starts[i] && chain[i].last == lasts[i])
  }

  lemma SyncedMore(chain: seq<Block>, starts: seq<nat>, lasts: seq<nat>, block: Block)
    requires Synced(chain, starts, lasts)
    ensures Synced(chain + [block], starts + [block.at], lasts + [block.last]) && |starts| == |lasts| == |chain|
  {
  }

  lemma SyncedStarts(chain: seq<Block>, starts: seq<nat>, lasts: seq<nat>)
    requires Synced(chain, starts, lasts)
    ensures |starts| == |lasts| == |chain| && forall i :: 0 <= i < |chain| ==> chain[i].at == starts[i]
  {
  }

  ghost function Emptied(starts: seq<nat>): (l: seq<nat>)
    ensures |l| == |starts| && forall k :: 0 <= k < |starts| ==> l[k] == starts[k] + POOL_HEADER
  {
    if starts == [] then [] else Emptied(starts[..|starts| - 1]) + [starts[|starts| - 1] + POOL_HEADER]
  }

  lemma SyncedEmpty(chain: seq<Block>, starts: seq<nat>)
    requires |starts| == |chain| && forall i :: 0 <= i < |chain| ==> chain[i].at == starts[i]
    requires forall i :: 0 <= i < |chain| ==> chain[i].last == chain[i].at + POOL_HEADER
    ensures Synced(chain, starts, Emptied(starts))
  {
  }

  ghost predicate Listed(larges: seq<Large>, a: nat)
  {
    exists k :: 0 <= k < |larges| && larges[k].alloc == a
  }

  // The places of the entries of the list.
  function ListNodes(larges: seq<Large>): (rs: seq<Region>)
    ensures |rs| == |larges| && forall k :: 0 <= k < |larges| ==> rs[k] == Region(larges[k].node, LARGE_NODE, 0)
  {
    if larges == [] then [] else [Region(larges[0].node, LARGE_NODE, 0)] + ListNodes(larges[1..])
  }

  function ListHead(larges: seq<Large>): nat { if larges == [] then 0 else larges[0].node }

  // They are in regions that are handed out.
  ghost predicate NodesIn(larges: seq<Large>, regions: seq<Region>)
  {
    forall k :: 0 <= k < |larges| ==> NodeIn(larges[k].node, regions)
  }

  ghost predicate NodeIn(node: nat, regions: seq<Region>)
  {
    exists i :: 0 <= i < |regions| && regions[i].at == node && regions[i].size == LARGE_NODE
  }

  lemma NodesMore(larges: seq<Large>, regions: seq<Region>, r: Region)
    requires NodesIn(larges, regions)
    ensures NodesIn(larges, regions + [r])
  {
    forall k | 0 <= k < |larges|
      ensures NodeIn(larges[k].node, regions + [r])
    {
      assert NodeIn(larges[k].node, regions);
      var i :| 0 <= i < |regions| && regions[i].at == larges[k].node && regions[i].size == LARGE_NODE;
      assert (regions + [r])[i] == regions[i];
    }
  }

  // The list and the chunks handed out are the same chunks, each listed once.
  ghost predicate Known(larges: seq<Large>, regions: seq<Region>)
  {
    && (forall k :: 0 <= k < |larges| && larges[k].alloc != 0 ==>
          Region(larges[k].alloc, larges[k].size, -1) in regions)
    && (forall j, k :: 0 <= j < k < |larges| && larges[j].alloc != 0 ==> larges[j].alloc != larges[k].alloc)
    && (forall r :: r in regions && r.home == -1 ==> Listed(larges, r.at))
  }

  lemma KnownMore(larges: seq<Large>, regions: seq<Region>, r: Region)
    requires Known(larges, regions) && r.home != -1
    ensures Known(larges, regions + [r])
  {
  }

  // malloc answers with an address that the alignment macro can round.
  predicate Low(a: nat, size: nat) { a + size + 7 < TWO32 }

  predicate Room(size: nat, starts: seq<nat>, lasts: seq<nat>, i: nat, n: nat)
    requires i < |starts| == |lasts|
  {
    AlignUp(lasts[i]) + n <= starts[i] + size
  }

  // The first block from i on that has room.
  function FirstFit(size: nat, starts: seq<nat>, lasts: seq<nat>, i: nat, n: nat): (k: nat)
    requires |starts| == |lasts| && i <= |starts|
    ensures i <= k <= |starts| && (k < |starts| ==> Room(size, starts, lasts, k, n))
    ensures forall j :: i <= j < k ==> !Room(size, starts, lasts, j, n)
    decreases |starts| - i
  {
    if i == |starts| || Room(size, starts, lasts, i, n) then i else FirstFit(size, starts, lasts, i + 1, n)
  }

  // Room is up to the end of the block, from the first word that is free.
  lemma FirstFitMeans(size: nat, starts: seq<nat>, lasts: seq<nat>, i: nat, n: nat)
    requires |starts| == |lasts| && i <= |starts|
    ensures var k := FirstFit(size, starts, lasts, i, n);
      && (k < |starts| ==> (lasts[k] + 7) / 8 * 8 + n <= starts[k] + size)
      && forall j :: i <= j < k ==> (lasts[j] + 7) / 8 * 8 + n > starts[j] + size
  {
    hide FirstFit;
    var k := FirstFit(size, starts, lasts, i, n);
    forall j | i <= j < k
      ensures (lasts[j] + 7) / 8 * 8 + n > starts[j] + size
    {
      assert !Room(size, starts, lasts, j, n);
    }
  }

  lemma FirstFitIs(size: nat, starts: seq<nat>, lasts: seq<nat>, i: nat, n: nat, k: nat)
    requires |starts| == |lasts| && i <= k <= |starts|
    requires k < |starts| ==> Room(size, starts, lasts, k, n)
    requires forall j :: i <= j < k ==> !Room(size, starts, lasts, j, n)
    ensures FirstFit(size, starts, lasts, i, n) == k
  {
  }

  ghost predicate ApartFrom(regions: seq<Region>, m: nat, n: nat)
  {
    forall i :: 0 <= i < |regions| ==> Disjoint(regions[i].at, regions[i].size, m, n)
  }

  lemma RegionsDisjoint(size: nat, starts: seq<nat>, lasts: seq<nat>, regions: seq<Region>, r: Region)
    requires Placed(size, starts, lasts, regions + [r])
    ensures ApartFrom(regions, r.at, r.size)
  {
    var all := regions + [r];
    assert all[|regions|] == r && forall i :: 0 <= i < |regions| ==> all[i] == regions[i];
  }

  // Some regions more, the old ones where they were.
  ghost predicate Grown(r: seq<Region>, r2: seq<Region>)
  {
    |r| < |r2| && r2[..|r|] == r
  }

  // An entry at c in front of the cleanups, in a region of its own, with n bytes
  // for its data in another; only the regions when c is 0.
  ghost predicate Entered(r: seq<Region>, cs: seq<Cleanup>, r2: seq<Region>, cs2: seq<Cleanup>, n: nat, c: nat)
  {
    && r <= r2
    && if c == 0 then cs2 == cs
    else
      && Grown(r, r2) && r2[|r|].at == c && r2[|r|].size == CLEANUP_NODE
      && cs2 != [] && cs2 == [Cleanup(c, 0, cs2[0].data, |r|)] + cs
      && (n == 0 <==> cs2[0].data == 0)
      && (n > 0 ==> r2[|r2| - 1].at == cs2[0].data && r2[|r2| - 1].size == n)
  }

  lemma EnteredIs(r: seq<Region>, cs: seq<Cleanup>, one: seq<Region>, two: seq<Region>, n: nat, c: nat, data: nat)
    requires c > 0 && Grown(r, one) && |one| == |r| + 1 && one[|r|].at == c && one[|r|].size == CLEANUP_NODE
    requires if n == 0 then two == one && data == 0
      else data > 0 && Grown(one, two) && two[|two| - 1].at == data && two[|two| - 1].size == n
    ensures Entered(r, cs, two, [Cleanup(c, 0, data, |r|)] + cs, n, c) && |r| < |two| && two[|r|] == one[|r|]
  {
    assert two[|r|] == one[|r|];
    assert ([Cleanup(c, 0, data, |r|)] + cs)[0].data == data;
  }

  lemma EnteredNot(r: seq<Region>, cs: seq<Cleanup>, r2: seq<Region>, n: nat)
    requires r <= r2
    ensures Entered(r, cs, r2, cs, n, 0)
  {
  }

  lemma NothingNew(w: map<nat, nat>, l: seq<Large>, r: seq<Region>)
    ensures Spared(w, w, ListNodes(l) + r[|r|..])
  {
  }

  lemma SparedTwice(w: map<nat, nat>, w1: map<nat, nat>, w2: map<nat, nat>, l: seq<Region>, r: seq<Region>,
                    one: seq<Region>, two: seq<Region>)
    requires |r| <= |one| <= |two| && one <= two
    requires Spared(w, w1, l + one[|r|..]) && Spared(w1, w2, l + two[|one|..])
    ensures Spared(w, w2, l + two[|r|..])
  {
    hide Spared;
    assert two[|r|..] == one[|r|..] + two[|one|..];
    SparedMore(w, w1, w2, l + one[|r|..], l + two[|one|..], l + two[|r|..]);
  }

  // An unsigned counter, one up.
  function OneMore(n: nat): nat { (n + 1) % TWO32 }

  // The chunks of the entries that hold one.
  function AllocsOf(larges: seq<Large>): seq<nat>
  {
    if larges == [] then []
    else
      var l := larges[|larges| - 1];
      AllocsOf(larges[..|larges| - 1]) + if l.alloc != 0 then [l.alloc] else []
  }

  // They are the addresses of those entries, each once.
  lemma {:induction false} AllocsKnown(larges: seq<Large>)
    requires forall j, k :: 0 <= j < k < |larges| && larges[j].alloc != 0 ==> larges[j].alloc != larges[k].alloc
    ensures forall a :: a in AllocsOf(larges) <==> a != 0 && Listed(larges, a)
    ensures Distinct(AllocsOf(larges))
  {
    if larges != [] {
      var rest, l := larges[..|larges| - 1], larges[|larges| - 1];
      assert forall k :: 0 <= k < |rest| ==> rest[k] == larges[k];
      AllocsKnown(rest);
      assert l.alloc != 0 ==> !Listed(rest, l.alloc);
      assert forall a :: Listed(larges, a) <==> Listed(rest, a) || a == l.alloc by {
        forall a | Listed(rest, a) || a == l.alloc
          ensures Listed(larges, a)
        {
          assert larges[|rest|].alloc == l.alloc;
        }
      }
    }
  }

  lemma ChunkNotBlock(size: nat, starts: seq<nat>, lasts: seq<nat>, regions: seq<Region>, r: Region, i: nat)
    requires Placed(size, starts, lasts, regions) && size > 0 && i < |starts| && r in regions && r.home == -1
    ensures r.at != starts[i]
  {
    var k :| 0 <= k < |regions| && regions[k] == r;
    assert Homes(size, starts, lasts, regions[k]);
    assert Disjoint(starts[i], size, r.at, r.size);
  }

  lemma RegionsPositive(size: nat, starts: seq<nat>, lasts: seq<nat>, regions: seq<Region>)
    requires Placed(size, starts, lasts, regions)
    ensures forall r :: r in regions ==> r.at > 0
  {
    forall r | r in regions
      ensures r.at > 0
    {
      var i :| 0 <= i < |regions| && regions[i] == r;
      assert Homes(size, starts, lasts, regions[i]);
    }
  }

  lemma FreedOnce(size: nat, starts: seq<nat>, lasts: seq<nat>, regions: seq<Region>, larges: seq<Large>)
    requires Placed(size, starts, lasts, regions) && Known(larges, regions) && size > 0
    ensures Distinct(AllocsOf(larges) + starts)
    ensures forall r :: r in regions && r.home == -1 ==> r.at in AllocsOf(larges)
  {
    AllocsKnown(larges);
    RegionsPositive(size, starts, lasts, regions);
    var c := AllocsOf(larges);
    forall j, i | 0 <= j < |c| && 0 <= i < |starts|
      ensures c[j] != starts[i]
    {
      assert c[j] in c;
      var k :| 0 <= k < |larges| && larges[k].alloc == c[j];
      ChunkNotBlock(size, starts, lasts, regions, Region(larges[k].alloc, larges[k].size, -1), i);
    }
    assert forall i, j :: 0 <= i < j < |starts| ==> Disjoint(starts[i], size, starts[j], size);
  }

  lemma PlacedEmpty(size: nat, starts: seq<nat>, lasts: seq<nat>, regions: seq<Region>, now: seq<nat>)
    requires Placed(size, starts, lasts, regions) && POOL_HEADER <= size
    requires |now| == |starts| && forall k :: 0 <= k < |starts| ==> now[k] == starts[k] + POOL_HEADER
    ensures Placed(size, starts, now, [])
  {
  }

  lemma KnownNone()
    ensures Known([], [])
  {
  }

  // What malloc promised before one allocation holds after it as well.
  lemma ClearLater(size: nat, s: seq<nat>, r: seq<Region>, block: nat, s2: seq<nat>, r2: seq<Region>, a: nat, n: nat)
    requires a > 0 ==> Clear(size, s, r, a, n) && (s2 != s ==> Disjoint(block, size, a, n))
    requires s2 == s || s2 == s + [block]
    requires |r2| == |r| + 1 && r2[..|r|] == r && r2[|r|].home != -1
    ensures a > 0 ==> Clear(size, s2, r2, a, n)
  {
    if a > 0 {
      assert forall k :: 0 <= k < |r| ==> r2[k] == r[k];
    }
  }

  lemma OldChunk(size: nat, starts: seq<nat>, lasts: seq<nat>, regions: seq<Region>, r: Region, p: nat, n: nat)
    requires Placed(size, starts, lasts, regions) && Clear(size, starts, regions, p, n) && n > 0
    requires r in regions && r.home == -1
    ensures r.at != p
  {
    var i :| 0 <= i < |regions| && regions[i] == r;
    assert Homes(size, starts, lasts, regions[i]);
  }

  // A new chunk is none of the known ones.
  lemma FreshAlloc(larges: seq<Large>, starts: seq<nat>, lasts: seq<nat>, size: nat, regions: seq<Region>, p: nat,
                   n: nat)
    requires Known(larges, regions) && Placed(size, starts, lasts, regions)
    requires Clear(size, starts, regions, p, n) && n > 0
    ensures forall k :: 0 <= k < |larges| ==> larges[k].alloc != p
  {
    forall k | 0 <= k < |larges|
      ensures larges[k].alloc != p
    {
      if larges[k].alloc != 0 {
        OldChunk(size, starts, lasts, regions, Region(larges[k].alloc, larges[k].size, -1), p, n);
      }
    }
  }

  lemma KnownSlot(larges: seq<Large>, regions: seq<Region>, k: nat, p: nat, n: nat)
    requires Known(larges, regions) && k < |larges| && larges[k].alloc == 0 && p > 0
    requires forall i :: 0 <= i < |larges| ==> larges[i].alloc != p
    requires forall r :: r in regions ==> r.at > 0
    ensures Known(larges[k := Large(larges[k].node, p, n)], regions + [Region(p, n, -1)])
  {
    var l, chunk := larges[k := Large(larges[k].node, p, n)], Region(p, n, -1);
    assert l[k].alloc == p;
    forall r | r in regions + [chunk] && r.home == -1
      ensures Listed(l, r.at)
    {
      if r != chunk {
        assert r in regions;
        var i :| 0 <= i < |larges| && larges[i].alloc == r.at;
        assert l[i].alloc == r.at;
      }
    }
  }

  lemma KnownFront(larges: seq<Large>, regions: seq<Region>, node: nat, p: nat, n: nat)
    requires Known(larges, regions)
    requires forall i :: 0 <= i < |larges| ==> larges[i].alloc != p
    ensures Known([Large(node, p, n)] + larges, regions + [Region(p, n, -1)])
  {
    var l, chunk := [Large(node, p, n)] + larges, Region(p, n, -1);
    assert l[0].alloc == p;
    forall r | r in regions + [chunk] && r.home == -1
      ensures Listed(l, r.at)
    {
      if r != chunk {
        assert r in regions;
        var i :| 0 <= i < |larges| && larges[i].alloc == r.at;
        assert l[i + 1].alloc == r.at;
      }
    }
  }

  // What the pool writes into its list for a chunk at p.
  function ListWords(words: map<nat, nat>, larges: seq<Large>, k: nat, node: nat, p: nat): map<nat, nat>
    requires k <= |larges|
  {
    if k < |larges| then Stored(words, larges[k].node + WORD, p)
    else Stored(Stored(words, node + WORD, p), node, ListHead(larges))
  }

  lemma NodesListed(larges: seq<Large>, regions: seq<Region>, k: nat, node: nat, p: nat, n: nat)
    requires NodesIn(larges, regions) && k <= |larges| && (k == |larges| ==> NodeIn(node, regions))
    ensures var l := if k < |larges| then larges[k := Large(larges[k].node, p, n)] else [Large(node, p, n)] + larges;
      NodesIn(l, regions)
  {
  }

  // Outside of the places of the list and of the new regions, words stay.
  lemma ListSpared(words: map<nat, nat>, now: map<nat, nat>, larges: seq<Large>, k: nat, node: nat, rs: seq<Region>,
                   p: nat, n: nat)
    requires k <= |larges| && Spared(words, now, rs)
    requires k == |larges| ==> exists r :: r in rs && r.at == node && r.size == LARGE_NODE
    ensures var all := ListNodes(larges) + rs + [Region(p, n, -1)];
      Spared(words, Overwritten(ListWords(now, larges, k, node, p), p, n), all)
  {
    hide Spared, Stored, Overwritten;
    var last := Region(p, n, -1);
    var all := ListNodes(larges) + rs + [last];
    SparedOne(now, last);
    SparedMore(words, now, now, rs, [], all);
    if k < |larges| {
      var r := ListNodes(larges)[k];
      assert r in all;
      SparedStored(words, now, all, r, larges[k].node + WORD, p);
    } else {
      var r :| r in rs && r.at == node && r.size == LARGE_NODE;
      SparedStored(words, now, all, r, node + WORD, p);
      SparedStored(words, Stored(now, node + WORD, p), all, r, node, ListHead(larges));
    }
    var w := ListWords(now, larges, k, node, p);
    SparedOne(w, last);
    SparedMore(words, w, Overwritten(w, p, n), all, [last], all);
  }

  // One more chunk, in a free entry of the list or in a new one.
  lemma ChunkMore(size: nat, starts: seq<nat>, lasts: seq<nat>, regions: seq<Region>, larges: seq<Large>, k: nat,
                  node: nat, p: nat, n: nat)
    requires Placed(size, starts, lasts, regions) && Known(larges, regions) && Clear(size, starts, regions, p, n)
    requires n > 0 && k <= |larges| && (k < |larges| ==> larges[k].alloc == 0)
    ensures Placed(size, starts, lasts, regions + [Region(p, n, -1)]) && ApartFrom(regions, p, n)
    ensures var l := if k < |larges| then larges[k := Large(larges[k].node, p, n)] else [Large(node, p, n)] + larges;
      Known(l, regions + [Region(p, n, -1)])
  {
    hide Placed, Known, Homes, ApartFrom;
    FreshAlloc(larges, starts, lasts, size, regions, p, n);
    Chunked(size, starts, lasts, regions, p, n);
    RegionsPositive(size, starts, lasts, regions);
    RegionsDisjoint(size, starts, lasts, regions, Region(p, n, -1));
    if k < |larges| {
      KnownSlot(larges, regions, k, p, n);
    } else {
      KnownFront(larges, regions, node, p, n);
    }
  }

  lemma Rounded(a: nat)
    requires a % 16 == 0
    ensures AlignUp(a + DATA_HEADER) == a + DATA_HEADER
  {
    var k := a / 16;
    assert a == 16 * k;
    DivUnique(a + DATA_HEADER + 7, 8, 2 * k + 4, 7);
  }

  // The first place of a new block needs no rounding.
  lemma BlockAddress(size: nat, starts: seq<nat>, regions: seq<Region>, a: nat)
    requires DATA_HEADER <= size && a + size + 7 < TWO32 && Clear(size, starts, regions, a, size)
    ensures AlignPtr(a + DATA_HEADER) == a + DATA_HEADER
  {
    hide AlignPtr, AlignUp;
    AlignPtrRounds(a + DATA_HEADER);
    Rounded(a);
  }

  lemma EndIsWord(a: nat, size: nat, last: nat)
    requires a % 16 == 0 && size % WORD == 0 && last <= a + size
    ensures AlignUp(last) <= a + size
  {
  }

  class AllocPool {
    const first: Block
    const max: nat
    const size: nat

    var current: Block
    var larges: seq<Large>
    var cleanup: nat
    var words: map<nat, nat>        // of the lists, as far as nobody else has been given them
    ghost var cleanups: seq<Cleanup>
    ghost var chain: seq<Block>
    ghost var at: nat               // where current stands in the chain
    ghost var starts: seq<nat>
    ghost var lasts: seq<nat>
    ghost var regions: seq<Region>  // handed out since the last reset

    ghost predicate Shape()
      reads this`chain
    {
      && |chain| > 0 && chain[0] == first
      && Distinct(chain)
      && (forall i :: 0 <= i < |chain| ==> chain[i].end == chain[i].at + size)
    }

    ghost predicate Linked()
      reads this`chain, chain`next
    {
      forall i :: 0 <= i < |chain| ==> chain[i].next == if i + 1 < |chain| then chain[i + 1] else null
    }

    // current is a block of the chain.
    ghost predicate Cursor()
      reads this`chain, this`at, this`current
    {
      0 <= at < |chain| && chain[at] == current
    }

    lemma NextIs(i: nat)
      requires Linked() && i < |chain|
      ensures chain[i].next == if i + 1 < |chain| then chain[i + 1] else null
    {
    }

    ghost predicate Valid()
      reads this, chain`last, chain`next
    {
      && size % WORD == 0 && POOL_HEADER <= size && max == POOL_MAX
      && Shape() && Linked() && Cursor() && Synced(chain, starts, lasts)
      && Placed(size, starts, lasts, regions) && Known(larges, regions)
      && NodesIn(larges, regions) && Remembered(cleanup, words, cleanups, regions)
    }

    // malloc's promise, for an answer that is not null.
    ghost predicate ClearOf(a: nat, n: nat)
      reads this`starts, this`regions
    {
      Clear(size, starts, regions, a, n)
    }

    // alloc_pool_create, with what malloc answered.
    constructor (size: nat, a: nat)
      requires size % WORD == 0 && POOL_HEADER <= size
      requires a > 0 && a % 16 == 0 && Low(a, size)
      ensures Valid() && regions == [] && larges == [] && cleanups == [] && chain == [first] && fresh(first)
      ensures this.size == size && starts == [a] && lasts == [a + POOL_HEADER] && at == 0 && cleanup == 0
    {
      first := new Block(a, a + size, a + POOL_HEADER);
      current := first;
      max := POOL_MAX;
      this.size := size;
      larges, cleanup, words, cleanups := [], 0, map[], [];
      chain, at, regions, starts, lasts := [first], 0, [], [a], [a + POOL_HEADER];
      new;
    }

    // The region goes to the caller, who may write there what it likes.
    method HandOut(m: nat, n: nat, ghost home: int)
      modifies this`regions, this`words
      ensures old(Remembered(cleanup, words, cleanups, regions)) && old(ApartFrom(regions, m, n)) ==>
        Remembered(cleanup, words, cleanups, regions)
      ensures old(NodesIn(larges, regions)) ==> NodesIn(larges, regions)
      ensures regions == old(regions) + [Region(m, n, home)] && words == Overwritten(old(words), m, n)
    {
      hide Remembered, NodesIn, Overwritten;
      if Remembered(cleanup, words, cleanups, regions) && ApartFrom(regions, m, n) {
        RegionTouches(cleanup, words, cleanups, regions, Region(m, n, home));
      }
      if NodesIn(larges, regions) {
        NodesMore(larges, regions, Region(m, n, home));
      }
      words := Overwritten(words, m, n);
      regions := regions + [Region(m, n, home)];
    }

    lemma BlockFacts(i: nat)
      requires Valid() && i < |chain|
      ensures var b := chain[i];
        && b.at > 0 && b.at % 16 == 0 && b.end == b.at + size && b.end + 7 < TWO32
        && b.at + DATA_HEADER <= b.last <= b.end
        && b.at == starts[i] && b.last == lasts[i]
      ensures AlignUp(chain[i].last) <= chain[i].end && size % WORD == 0
    {
      var b := chain[i];
      assert starts[i] == b.at && lasts[i] == b.last;
      EndIsWord(b.at, size, b.last);
    }

    // What a turn at block i makes of the pool.
    ghost predicate Given(r: seq<Region>, l: seq<nat>, w: map<nat, nat>, i: nat, n: nat, m: nat)
      requires i < |l| == |starts|
      reads this`starts, this`regions, this`lasts, this`words
    {
      if Room(size, starts, l, i, n) then
        && m == AlignUp(l[i]) && m > 0 && regions == r + [Region(m, n, i)]
        && lasts == l[i := m + n] && words == Overwritten(w, m, n)
      else
        m == 0 && regions == r && lasts == l && words == w
    }

    // One turn of the loop of alloc_pool_small.
    method Bump(p: Block, ghost i: nat, n: nat) returns (m: nat)
      requires Valid() && i < |chain| && p == chain[i] && n < TWO32
      modifies p`last, this`regions, this`lasts, this`words
      ensures Valid()
      ensures |old(lasts)| == |starts| && Given(old(regions), old(lasts), old(words), i, n, m)
    {
      hide Placed, Known, Remembered, Overwritten, NodesIn, AllocPool.Linked;
      BlockFacts(i);
      m := AlignPtr(p.last);
      AlignPtrRounds(p.last);
      if Gap(p.end, m) >= n {
        Bumped(size, starts, lasts, regions, i, m, n);
        p.last := m + n;
        lasts := lasts[i := m + n];
        KnownMore(larges, regions, Region(m, n, i));
        RegionsDisjoint(size, starts, lasts, regions, Region(m, n, i));
        HandOut(m, n, i);
      } else {
        m := 0;
      }
    }

    lemma Sizes()
      requires Valid()
      ensures |starts| == |lasts| == |chain| && at < |chain| && chain[at] == current
    {
    }

    lemma GivenNone(r: seq<Region>, l: seq<nat>, w: map<nat, nat>, i: nat, n: nat)
      requires i < |l| == |starts| && Given(r, l, w, i, n, 0)
      ensures !Room(size, starts, l, i, n) && regions == r && lasts == l && words == w
    {
    }

    // What the loop makes of the pool.
    ghost predicate Searched(r: seq<Region>, l: seq<nat>, w: map<nat, nat>, n: nat, m: nat)
      requires |l| == |starts| && at <= |l|
      reads this`starts, this`regions, this`lasts, this`words, this`at
    {
      var i := FirstFit(size, starts, l, at, n);
      if i < |l| then m > 0 && Given(r, l, w, i, n, m) else m == 0 && regions == r && lasts == l && words == w
    }

    lemma SearchedIs(r: seq<Region>, l: seq<nat>, w: map<nat, nat>, i: nat, n: nat, m: nat)
      requires at <= i < |l| == |starts| && Given(r, l, w, i, n, m)
      requires forall j :: at <= j < i ==> !Room(size, starts, l, j, n)
      requires m == 0 ==> i + 1 == |l|
      ensures Searched(r, l, w, n, m)
    {
      FirstFitIs(size, starts, l, at, n, if m == 0 then i + 1 else i);
    }

    // The loop of alloc_pool_small: the first block from current on that has room.
    method Search(n: nat) returns (m: nat)
      requires Valid() && n < TWO32
      modifies chain`last, this`regions, this`lasts, this`words
      ensures Valid() && |old(lasts)| == |starts| && at <= |starts|
      ensures Searched(old(regions), old(lasts), old(words), n, m)
    {
      hide Placed, Known, Remembered, Overwritten, NodesIn, AllocPool.Shape, AllocPool.Linked, Synced;
      hide AllocPool.Given, AllocPool.Searched, Room;
      ghost var r, l, w := regions, lasts, words;
      var p := current;
      ghost var i := at;
      Sizes();
      m := Bump(p, i, n);
      while m == 0 && p.next != null
        invariant Valid() && at <= i < |chain| && p == chain[i]
        invariant |l| == |starts| == |chain| && Given(r, l, w, i, n, m)
        invariant forall j :: at <= j < i ==> !Room(size, starts, l, j, n)
        decreases |chain| - i
        modifies chain`last, this`regions, this`lasts, this`words
      {
        GivenNone(r, l, w, i, n);
        NextIs(i);
        p := p.next;
        i := i + 1;
        m := Bump(p, i, n);
      }
      NextIs(i);
      SearchedIs(r, l, w, i, n, m);
    }

    // What a new block makes of the pool: all is well when the request fits it
    // and malloc's answer can be rounded.
    ghost predicate Extended(c: seq<Block>, s: seq<nat>, r: seq<Region>, w: map<nat, nat>, n: nat, answer: nat, m: nat)
      reads this, chain`last, chain`next
    {
      && m == (if answer == 0 then 0 else AlignPtr(answer + DATA_HEADER))
      && (answer == 0 ==> Valid() && chain == c && starts == s && regions == r && words == w)
      && (answer > 0 ==> |chain| == |c| + 1 && chain[..|c|] == c && chain[|c|].at == answer)
      && (answer > 0 && DATA_HEADER + n <= size && Low(answer, size) ==>
            && Valid() && starts == s + [answer] && m == answer + DATA_HEADER
            && regions == r + [Region(m, n, |c|)] && words == Overwritten(w, m, n))
    }

    // The last link of alloc_pool_block.
    method Attach(p: Block, block: Block, ghost i: nat)
      requires Shape() && Linked() && Cursor() && i + 1 == |chain| && p == chain[i]
      requires block !in chain && block.next == null && block.end == block.at + size
      modifies this`chain, p`next
      ensures Shape() && Linked() && Cursor() && chain == old(chain) + [block]
    {
      chain := chain + [block];
      p.next := block;
    }

    // The new block joins the chain with a region at its start.
    method Append(p: Block, block: Block, ghost i: nat, n: nat)
      requires Valid() && i + 1 == |chain| && p == chain[i]
      requires block !in chain && block.next == null && block.end == block.at + size && ClearOf(block.at, size)
      requires Low(block.at, size) ==> block.last == block.at + DATA_HEADER + n
      modifies this`chain, this`starts, this`lasts, this`regions, this`words, p`next
      ensures chain == old(chain) + [block]
      ensures DATA_HEADER + n <= size && Low(block.at, size) ==>
        && Valid() && starts == old(starts) + [block.at] && var m := block.at + DATA_HEADER;
        regions == old(regions) + [Region(m, n, |old(chain)|)] && words == Overwritten(old(words), m, n)
    {
      hide Placed, Known, Synced, Clear, Remembered, Overwritten, NodesIn, AllocPool.Shape, AllocPool.Linked;
      ghost var r, l := Region(block.at + DATA_HEADER, n, |chain|), lasts + [block.last];
      ghost var fits := DATA_HEADER + n <= size && Low(block.at, size);
      SyncedMore(chain, starts, lasts, block);
      if fits {
        Chained(size, starts, lasts, regions, block.at, n);
        RegionsDisjoint(size, starts + [block.at], l, regions, r);
        KnownMore(larges, regions, r);
      }
      Attach(p, block, i);
      starts, lasts := starts + [block.at], l;
      HandOut(block.at + DATA_HEADER, n, r.home);
    }

    lemma ShapeStart()
      requires Shape()
      ensures |chain| > 0 && chain[0] == first && Distinct(chain)
    {
    }

    // The loop of alloc_pool_block to the end of the chain.
    method CountFailures() returns (p: Block, ghost i: nat)
      requires Shape() && Linked() && Cursor()
      modifies this`current, this`at, chain`failed
      ensures Cursor() && i + 1 == |chain| && p == chain[i]
      ensures forall k :: 0 <= k < |chain| ==>
        chain[k].failed == if old(at) <= k < i then OneMore(old(chain[k].failed)) else old(chain[k].failed)
      ensures old(at) <= at && var a := at; (a > old(at) ==> old(chain[a - 1].failed) > FAIL_LIMIT)
      ensures forall k :: at <= k < i ==> old(chain[k].failed) <= FAIL_LIMIT
    {
      hide AllocPool.Linked, AllocPool.Shape, Distinct, OneMore;
      p := current;
      i := at;
      ShapeStart();
      while p.next != null
        invariant Cursor() && old(at) <= at <= i < |chain| && p == chain[i]
        invariant forall k :: 0 <= k < |chain| ==>
          chain[k].failed == if old(at) <= k < i then OneMore(old(chain[k].failed)) else old(chain[k].failed)
        invariant var a := at; a > old(at) ==> old(chain[a - 1].failed) > FAIL_LIMIT
        invariant forall k :: at <= k < i ==> old(chain[k].failed) <= FAIL_LIMIT
        decreases |chain| - i
        modifies this`current, this`at, chain`failed
      {
        NextIs(i);
        Apart(chain, i);
        var failed := p.failed;
        p.failed := OneMore(failed);
        if failed > FAIL_LIMIT {
          current := p.next;
          at := i + 1;
        }
        p := p.next;
        i := i + 1;
      }
      NextIs(i);
    }

    // alloc_pool_block: a block of the same size at the end of the chain; the
    // blocks on the way are counted as full, and current moves past those that
    // were full often.
    method NewBlock(n: nat, answer: nat) returns (m: nat)
      requires Valid() && (answer > 0 ==> ClearOf(answer, size))
      modifies this`current, this`chain, this`at, this`starts, this`lasts, this`regions, this`words
      modifies chain`failed, chain`next
      ensures Extended(old(chain), old(starts), old(regions), old(words), n, answer, m)
      ensures old(chain) <= chain && forall b :: b in chain ==> b in old(chain) || fresh(b)
      ensures answer > 0 ==> forall k :: 0 <= k < |old(chain)| ==>
        chain[k].failed ==
          if old(at) <= k < |old(chain)| - 1 then OneMore(old(chain[k].failed)) else old(chain[k].failed)
      ensures answer > 0 ==> old(at) <= at < |old(chain)| && var a := at;
        (a > old(at) ==> old(chain[a - 1].failed) > FAIL_LIMIT)
      ensures answer > 0 ==> forall k :: at <= k < |old(chain)| - 1 ==> old(chain[k].failed) <= FAIL_LIMIT
    {
      hide Placed, Known, Synced, Clear, AlignPtr, Remembered, Overwritten, NodesIn, AllocPool.Shape;
      hide AllocPool.Linked, OneMore;
      if answer == 0 {
        return 0;
      }
      m := AlignPtr(answer + DATA_HEADER);
      var block := new Block(answer, answer + size, m + n);
      var p;
      ghost var i;
      p, i := CountFailures();
      if Low(answer, size) {
        BlockAddress(size, starts, regions, answer);
      }
      Append(p, block, i, n);
    }

    // alloc_pool_small; answer is what malloc says when a new block is needed.
    // The region is in the first block from current on that has room, else at
    // the start of a new block, and then inside it only under two conditions.
    method Small(n: nat, answer: nat) returns (m: nat)
      requires Valid() && n < TWO32
      requires answer > 0 ==> ClearOf(answer, size)
      modifies this`current, this`chain, this`at, this`starts, this`lasts, this`regions, this`words
      modifies set b | b in chain
      ensures old(chain) <= chain && (forall b :: b in chain ==> b in old(chain) || fresh(b))
      ensures var s, l := old(starts), old(lasts);
        var i := FirstFit(size, s, l, old(at), n);
        if i < |s| then
          && Valid() && chain == old(chain) && starts == s && m == AlignUp(l[i]) && m > 0
          && at == old(at) && lasts == l[i := m + n]
          && regions == old(regions) + [Region(m, n, i)] && words == Overwritten(old(words), m, n)
        else
          Extended(old(chain), s, old(regions), old(words), n, answer, m)
    {
      hide AllocPool.Valid, Overwritten, AllocPool.Extended, FirstFit;
      Sizes();
      m := Search(n);
      if m == 0 {
        m := NewBlock(n, answer);
      }
    }

    // The chunk goes into entry k of the list, or into a new one at node.
    method List(k: nat, node: nat, p: nat, n: nat, ghost low: bool)
      requires k <= |larges| && (k < |larges| ==> larges[k].alloc == 0)
      requires low ==> Valid() && ClearOf(p, n) && n > 0 && (k == |larges| ==> NodeIn(node, regions))
      modifies this`larges, this`regions, this`words
      ensures low ==> Valid()
      ensures regions == old(regions) + [Region(p, n, -1)]
      ensures words == Overwritten(ListWords(old(words), old(larges), k, node, p), p, n)
    {
      hide Placed, Known, Clear, Remembered, Overwritten, NodesIn, AllocPool.Shape, AllocPool.Linked, Synced;
      hide Stored, NodeIn;
      if low {
        ChunkMore(size, starts, lasts, regions, larges, k, node, p, n);
        ListKeeps(k, node, p);
        NodesListed(larges, regions, k, node, p, n);
      }
      if k < |larges| {
        words := Stored(words, larges[k].node + WORD, p);
        larges := larges[k := Large(larges[k].node, p, n)];
      } else {
        words := Stored(Stored(words, node + WORD, p), node, ListHead(larges));
        larges := [Large(node, p, n)] + larges;
      }
      HandOut(p, n, -1);
    }

    lemma ListKeeps(k: nat, node: nat, p: nat)
      requires Valid() && k <= |larges| && (k == |larges| ==> NodeIn(node, regions))
      ensures Remembered(cleanup, ListWords(words, larges, k, node, p), cleanups, regions)
    {
      hide Placed, Known, Remembered, Stored, AllocPool.Shape, AllocPool.Linked, Synced;
      var a := if k < |larges| then larges[k].node else node;
      var i :| 0 <= i < |regions| && regions[i].at == a && regions[i].size == LARGE_NODE;
      PlacedApart(size, starts, lasts, regions, i);
      OwnsSized(cleanup, words, cleanups, regions, i);
      StoredKeeps(cleanup, words, cleanups, regions, i, a + WORD, p);
      if k == |larges| {
        StoredKeeps(cleanup, Stored(words, a + WORD, p), cleanups, regions, i, a, ListHead(larges));
      }
    }

    // The first of the first five entries that holds no chunk.
    method EmptyEntry() returns (k: nat)
      ensures k <= |larges| && (k < |larges| ==> k < 5 && larges[k].alloc == 0)
      ensures forall i :: 0 <= i < k && i < 5 ==> larges[i].alloc != 0
    {
      k := 0;
      while k < |larges|
        invariant k <= |larges| && k < 5
        invariant forall i :: 0 <= i < k ==> larges[i].alloc != 0
      {
        if larges[k].alloc == 0 {
          return;
        }
        if k > 3 {
          break;
        }
        k := k + 1;
      }
      k := |larges|;
    }

    // A place for an entry of the large list, for a chunk of n bytes at p.
    method ListNode(ghost n: nat, ghost p: nat, blockAnswer: nat) returns (node: nat)
      requires Valid() && p > 0 && ClearOf(p, n)
      requires blockAnswer > 0 ==> ClearOf(blockAnswer, size) && Disjoint(p, n, blockAnswer, size)
      modifies this`current, this`chain, this`at, this`starts, this`lasts, this`regions, this`words
      modifies set b | b in chain
      ensures old(chain) <= chain && (forall b :: b in chain ==> b in old(chain) || fresh(b))
      ensures (blockAnswer > 0 ==> Low(blockAnswer, size)) ==>
        && Valid() && (starts == old(starts) || (blockAnswer > 0 && starts == old(starts) + [blockAnswer]))
        && (node == 0 ==> blockAnswer == 0 && regions == old(regions) && words == old(words))
        && (node != 0 ==> Grown(old(regions), regions) && |regions| == |old(regions)| + 1 && ClearOf(p, n))
        && (node != 0 ==> NodeIn(node, regions) && Spared(old(words), words, regions[|old(regions)|..]))
        && (node != 0 ==> var r := regions[|old(regions)|]; r.at == node && r.size == LARGE_NODE)
    {
      hide Placed, Known, Clear, Remembered, Overwritten, NodesIn, Spared, AllocPool.Shape, AllocPool.Linked, Synced;
      ghost var s, r, w := starts, regions, words;
      node := Small(LARGE_NODE, blockAnswer);
      if node != 0 && (blockAnswer > 0 ==> Low(blockAnswer, size)) {
        ClearLater(size, s, r, blockAnswer, starts, regions, p, n);
        SparedOne(w, regions[|r|]);
        assert regions[|r|..] == [regions[|r|]];
      }
    }

    // alloc_pool_large; the answers are those of malloc for the chunk and for a
    // block, should the entry of the list need one.
    method LargeChunk(n: nat, answer: nat, blockAnswer: nat) returns (p: nat)
      requires Valid() && 0 < n < TWO32
      requires answer > 0 ==> ClearOf(answer, n)
      requires blockAnswer > 0 ==> ClearOf(blockAnswer, size)
      requires answer > 0 && blockAnswer > 0 ==> Disjoint(answer, n, blockAnswer, size)
      modifies this`current, this`chain, this`at, this`starts, this`lasts, this`regions, this`larges
      modifies this`words, set b | b in chain
      ensures old(chain) <= chain && (forall b :: b in chain ==> b in old(chain) || fresh(b))
      ensures p == 0 || p == answer
      ensures (blockAnswer > 0 ==> Low(blockAnswer, size)) ==>
        && Valid() && (p == 0 ==> answer == 0 || blockAnswer == 0)
        && (starts == old(starts) || (blockAnswer > 0 && starts == old(starts) + [blockAnswer]))
        && (p == 0 ==> regions == old(regions) && larges == old(larges) && words == old(words))
        && (p != 0 ==> Grown(old(regions), regions) && regions[|regions| - 1] == Region(p, n, -1))
        && (p != 0 ==> Spared(old(words), words, ListNodes(old(larges)) + regions[|old(regions)|..]))
        && (p != 0 ==> Bare(words, p, n))
    {
      hide AllocPool.Valid, Clear, Spared, ListNodes, Overwritten, ListWords, Stored;
      p := answer;
      if p == 0 {
        return;
      }
      ghost var r, w, l := regions, words, larges;
      ghost var low := blockAnswer > 0 ==> Low(blockAnswer, size);
      var k := EmptyEntry();
      var node := 0;
      SparedOne(w, Region(0, 0, 0));
      if k == |larges| {
        node := ListNode(n, p, blockAnswer);
        if node == 0 {
          return 0;
        }
      }
      ghost var rs, w2 := if low then regions[|r|..] else [], words;
      List(k, node, p, n, low);
      if low {
        ListSpared(w, w2, l, k, node, rs, p, n);
        assert ListNodes(l) + regions[|r|..] == ListNodes(l) + rs + [Region(p, n, -1)];
        OverwrittenBare(ListWords(w2, l, k, node, p), p, n);
      }
    }

    // The request fits a block if it counts as small, and malloc's answer for a
    // block can be rounded.
    predicate Sound(n: nat, blockAnswer: nat)
    {
      (n + POOL_HEADER <= max ==> DATA_HEADER + n <= size) && (blockAnswer > 0 ==> Low(blockAnswer, size))
    }

    // alloc_pool_ptr.
    method AllocPtr(n: nat, answer: nat, blockAnswer: nat) returns (m: nat)
      requires Valid() && n < TWO32
      requires answer > 0 ==> ClearOf(answer, n)
      requires blockAnswer > 0 ==> ClearOf(blockAnswer, size)
      requires answer > 0 && blockAnswer > 0 ==> Disjoint(answer, n, blockAnswer, size)
      modifies this`current, this`chain, this`at, this`starts, this`lasts, this`regions, this`larges
      modifies this`words, set b | b in chain
      ensures old(chain) <= chain && (forall b :: b in chain ==> b in old(chain) || fresh(b))
      ensures n + POOL_HEADER > max ==> m == 0 || m == answer
      ensures n + POOL_HEADER <= max ==> var s, l := old(starts), old(lasts);
        var i := FirstFit(size, s, l, old(at), n);
        if i < |s| then Valid() && starts == s && m == AlignUp(l[i]) && m > 0 && at == old(at) && lasts == l[i := m + n]
        else Extended(old(chain), s, old(regions), old(words), n, blockAnswer, m)
      ensures Sound(n, blockAnswer) ==>
        && Valid() && (starts == old(starts) || (blockAnswer > 0 && starts == old(starts) + [blockAnswer]))
        && (m == 0 ==> (answer == 0 || blockAnswer == 0) && regions == old(regions) && words == old(words))
        && (m != 0 ==> Grown(old(regions), regions) && Bare(words, m, n))
        && (m != 0 ==> Spared(old(words), words, ListNodes(old(larges)) + regions[|old(regions)|..]))
        && (m != 0 ==> var r := regions[|regions| - 1];
              r.at == m && r.size == n && (r.home == -1 <==> n + POOL_HEADER > max))
        && (n + POOL_HEADER <= max ==> larges == old(larges))
        && (m != 0 && n + POOL_HEADER <= max ==>
              |regions| == |old(regions)| + 1 && words == Overwritten(old(words), m, n))
    {
      hide Placed, Known, Remembered, NodesIn, ListNodes, Spared, Overwritten;
      hide AllocPool.Shape, AllocPool.Linked, Synced;
      ghost var r, w := regions, words;
      if n + POOL_HEADER <= max {
        m := Small(n, blockAnswer);
        if Sound(n, blockAnswer) && m != 0 {
          assert regions[|r|..] == [regions[|r|]];
          OverwrittenBare(w, m, n);
          SparedOne(w, regions[|r|]);
          SparedMore(w, words, words, [regions[|r|]], [], ListNodes(larges) + [regions[|r|]]);
          SparedOne(words, regions[|r|]);
        }
      } else {
        m := LargeChunk(n, answer, blockAnswer);
      }
    }

    // What the invariant says about any two regions, and about each of them.
    lemma RegionsApart(j: nat, k: nat)
      requires Valid() && j < k < |regions|
      ensures Disjoint(regions[j].at, regions[j].size, regions[k].at, regions[k].size)
      ensures regions[j].at % WORD == 0 && regions[j].at > 0
      ensures regions[j].home >= 0 ==> 0 <= regions[j].home < |chain| && var b := chain[regions[j].home];
        b.at + DATA_HEADER <= regions[j].at && regions[j].at + regions[j].size <= b.last <= b.end
      ensures current in chain
    {
      assert Homes(size, starts, lasts, regions[j]);
    }

    // The last lines of alloc_pool_add_cleanup.
    method Enter(c: nat, data: nat, ghost i: nat)
      requires Valid() && i < |regions| && regions[i].at == c && regions[i].size == CLEANUP_NODE
      requires forall k :: 0 <= k < |cleanups| ==> cleanups[k].own != i
      modifies this`cleanup, this`words, this`cleanups
      ensures Valid() && cleanups == [Cleanup(c, 0, data, i)] + old(cleanups) && cleanup == c
      ensures words == Put(old(words), c, data, old(cleanup))
    {
      hide Placed, Known, Remembered, Stored, AllocPool.Shape, AllocPool.Linked, Synced;
      PlacedApart(size, starts, lasts, regions, i);
      PutKeeps(cleanup, words, cleanups, regions, i, data);
      words := Stored(words, c + DATA, data);
      words := Stored(words, c, 0);
      words := Stored(words, c + NEXT, cleanup);
      cleanup := c;
      cleanups := [Cleanup(c, 0, data, i)] + cleanups;
    }

    // alloc_pool_add_cleanup: an entry in front, and n bytes for its data; the
    // address of the entry, or 0.  The answers are those of malloc, in the order
    // in which it is asked.
    method AddCleanup(n: nat, block1: nat, chunk: nat, block2: nat) returns (c: nat)
      requires Valid() && n < TWO32 && Sound(CLEANUP_NODE, block1) && Sound(n, block2)
      requires block1 > 0 ==> ClearOf(block1, size)
      requires chunk > 0 ==> ClearOf(chunk, n) && Disjoint(block1, size, chunk, n)
      requires block2 > 0 ==> ClearOf(block2, size) && Disjoint(block1, size, block2, size)
      requires chunk > 0 && block2 > 0 ==> Disjoint(chunk, n, block2, size)
      modifies this`current, this`chain, this`at, this`starts, this`lasts, this`regions, this`larges
      modifies this`cleanup, this`words, this`cleanups, set b | b in chain
      ensures Valid() && old(chain) <= chain && (forall b :: b in chain ==> b in old(chain) || fresh(b))
      ensures Entered(old(regions), old(cleanups), regions, cleanups, n, c)
      ensures Owned(cleanups) <==> old(Owned(cleanups))
      ensures Spared(old(words), words, ListNodes(old(larges)) + regions[|old(regions)|..])
      ensures n == 0 ==> var s, l := old(starts), old(lasts);
        var i := FirstFit(size, s, l, old(at), CLEANUP_NODE);
        (i < |s| ==>
           && starts == s && c == AlignUp(l[i])
           && words == Put(Overwritten(old(words), c, CLEANUP_NODE), c, 0, old(cleanup)))
    {
      hide Placed, Known, Clear, Remembered, NodesIn, Owned, Entered, AllocPool.Shape, AllocPool.Linked, Synced;
      hide AllocPool.Extended, FirstFit, Spared, ListNodes, Overwritten, Stored, Put;
      ghost var s, r, cs, w, l := starts, regions, cleanups, words, larges;
      OwnsBelow(cleanup, words, cleanups, regions);
      c := AllocPtr(CLEANUP_NODE, 0, block1);
      if c == 0 {
        NothingNew(w, l, r);
        EnteredNot(r, cs, regions, n);
        return;
      }
      ghost var one, w1 := regions, words;
      SparedOne(w1, one[|r|]);
      var data := 0;
      if n > 0 {
        ClearLater(size, s, r, block1, starts, regions, chunk, n);
        ClearLater(size, s, r, block1, starts, regions, block2, size);
        data := AllocPtr(n, chunk, block2);
        if data == 0 {
          EnteredNot(r, cs, regions, n);
          return 0;
        }
        SparedTwice(w, w1, words, ListNodes(l), r, one, regions);
      }
      EnteredIs(r, cs, one, regions, n, c, data);
      OwnedFront(Cleanup(c, 0, data, |r|), cleanups);
      PutSpared(w, words, ListNodes(l) + regions[|r|..], regions[|r|..][0], data, cleanup);
      Enter(c, data, |r|);
    }

    // The caller sets the handler of an entry it has been given.
    method SetHandler(c: nat, handler: nat, ghost k: nat)
      requires Valid() && k < |cleanups| && cleanups[k].own >= 0 && cleanups[k].node == c
      modifies this`words, this`cleanups
      ensures Valid() && cleanups == old(cleanups)[k := old(cleanups)[k].(handler := handler)]
      ensures words == Stored(old(words), c, handler)
    {
      hide Known, Placed, Remembered, Stored, AllocPool.Shape, AllocPool.Linked, Synced;
      OwnsBelow(cleanup, words, cleanups, regions);
      PlacedApart(size, starts, lasts, regions, cleanups[k].own);
      HandlerKeeps(cleanup, words, cleanups, regions, k, handler);
      words := Stored(words, c, handler);
      cleanups := cleanups[k := cleanups[k].(handler := handler)];
    }

    // The last lines of alloc_pool_reset.
    method StartOver()
      requires Shape() && Linked() && size % WORD == 0 && POOL_HEADER <= size && max == POOL_MAX
      requires Placed(size, starts, lasts, regions) && Synced(chain, starts, Emptied(starts))
      requires Remembered(cleanup, words, cleanups, regions)
      modifies this`current, this`at, this`lasts, this`regions, this`larges, this`cleanups
      ensures Valid() && current == first && at == 0 && lasts == Emptied(starts) && regions == [] && larges == []
      ensures cleanups == Released(old(cleanups)) && (Owned(cleanups) <==> cleanups == [])
    {
      hide Placed, Known, Synced, Emptied, Remembered, Owned, Released, AllocPool.Linked, AllocPool.Shape;
      PlacedEmpty(size, starts, lasts, regions, Emptied(starts));
      KnownNone();
      ShapeStart();
      ReleasedKeeps(cleanup, words, cleanups, regions);
      ReleasedOwned(cleanups);
      lasts := Emptied(starts);
      current := first;
      at := 0;
      larges, regions, cleanups := [], [], Released(cleanups);
    }

    method EmptyBlocks()
      requires Shape() && Linked()
      modifies chain`last, chain`failed
      ensures forall k :: 0 <= k < |chain| ==> chain[k].last == chain[k].at + POOL_HEADER && chain[k].failed == 0
      ensures forall b :: b in chain ==> b.last == b.at + POOL_HEADER && b.failed == 0
    {
      hide AllocPool.Linked;
      var p: Block? := first;
      ghost var i := 0;
      while p != null
        invariant 0 <= i <= |chain| && p == if i < |chain| then chain[i] else null
        invariant forall k :: 0 <= k < i ==> chain[k].last == chain[k].at + POOL_HEADER && chain[k].failed == 0
        decreases |chain| - i
        modifies chain`last, chain`failed
      {
        NextIs(i);
        p.last := p.at + POOL_HEADER;
        p.failed := 0;
        p := p.next;
        i := i + 1;
      }
    }

    // The loop over the large list in reset and destory.
    method ChunkAddresses() returns (freed: seq<nat>)
      ensures freed == AllocsOf(larges)
    {
      freed := [];
      var k := 0;
      while k < |larges|
        invariant k <= |larges| && freed == AllocsOf(larges[..k])
      {
        assert larges[..k + 1][..k] == larges[..k];
        if larges[k].alloc != 0 {
          freed := freed + [larges[k].alloc];
        }
        k := k + 1;
      }
      assert larges[..k] == larges;
    }

    // alloc_pool_reset: the chunks are freed and every block is empty again.
    // The cleanups stay, though their entries are in blocks that are empty now.
    method Reset() returns (freed: seq<nat>)
      requires Valid()
      modifies this`current, this`at, this`lasts, this`regions, this`larges, this`cleanups, chain`last, chain`failed
      ensures Valid() && freed == AllocsOf(old(larges))
      ensures current == first && at == 0 && lasts == Emptied(starts) && regions == [] && larges == []
      ensures cleanups == Released(old(cleanups)) && (Owned(cleanups) <==> cleanups == [])
      ensures forall b :: b in chain ==> b.last == b.at + POOL_HEADER && b.failed == 0
    {
      hide Placed, Known, Synced, Emptied, AllocsOf, Remembered, Owned, Released, AllocPool.Linked, AllocPool.Shape;
      freed := ChunkAddresses();
      SyncedStarts(chain, starts, lasts);
      EmptyBlocks();
      SyncedEmpty(chain, starts);
      StartOver();
    }

    // The loop over the cleanups, in the memory m; the handlers leave the list
    // alone.
    method CallCleanups(m: Memory) returns (called: seq<Call>, ghost l: seq<nat>)
      requires Agrees(m, words) && Ends(m, cleanup)
      ensures Walk(m, cleanup, l) && called == CallsAlong(m, l)
    {
      hide CallsAlong;
      called := [];
      var c: nat := cleanup;
      l :| Walk(m, c, l);
      ghost var k := 0;
      AlongNone(m, l);
      while c != 0
        invariant k <= |l| && Walk(m, c, l[k..]) && called == CallsAlong(m, l[..k])
        decreases |l| - k
      {
        AlongMore(m, l, k);
        assert l[k..][1..] == l[k + 1..] && l[k] == c;
        if m(c) != 0 {
          called := called + [Call(m(c), m(c + DATA))];
        }
        c := m(c + NEXT);
        k := k + 1;
      }
      assert l[..k] == l;
    }

    // The loops over the chunks and the blocks.
    method FreeAll() returns (freed: seq<nat>)
      requires Valid()
      ensures forall r :: r in regions && r.home == -1 ==> r.at in freed
      ensures forall b :: b in chain ==> b.at in freed
      ensures freed == AllocsOf(larges) + starts && Distinct(freed)
    {
      hide Placed, Known, Remembered, AllocPool.Linked;
      var chunks := ChunkAddresses();
      var blocks := [];
      var p: Block? := first;
      ghost var i := 0;
      while p != null
        invariant 0 <= i <= |chain| && p == if i < |chain| then chain[i] else null
        invariant blocks == starts[..i]
        decreases |chain| - i
      {
        NextIs(i);
        blocks := blocks + [p.at];
        p := p.next;
        i := i + 1;
      }
      freed := chunks + blocks;
      FreedOnce(size, starts, lasts, regions, larges);
    }

    // alloc_pool_destory: the loop over the cleanups calls what it finds; then
    // each chunk and each block is freed, none of them twice.
    method Destroy(m: Memory) returns (called: seq<Call>, freed: seq<nat>)
      requires Valid() && Agrees(m, words) && Ends(m, cleanup)
      ensures exists l :: Walk(m, cleanup, l) && called == CallsAlong(m, l)
      ensures AllStand(words, cleanups) ==> called == CallsOf(cleanups)
      ensures forall r :: r in regions && r.home == -1 ==> r.at in freed
      ensures forall b :: b in chain ==> b.at in freed
      ensures freed == AllocsOf(larges) + starts && Distinct(freed)
    {
      hide Placed, Known, NodesIn, Ends, Walk, AllocPool.Linked, AllocPool.Shape, CallsOf, CallsAlong, AllStand, Housed;
      ghost var l;
      called, l := CallCleanups(m);
      if AllStand(words, cleanups) {
        StandsRight(m, words, cleanup, cleanups);
        WalkUnique(m, cleanup, l, NodesOf(cleanups));
        RightCalls(m, cleanups);
      }
      freed := FreeAll();
    }

    lemma Memory()
      requires Valid()
      ensures cleanup == NodeAt(cleanups, 0) && max == POOL_MAX
    {
    }

    // Whatever stands in the words that are not the pool's: the loop ends if and
    // only if the links that are lead to an end, and it calls every cleanup in
    // order if and only if every entry stands.  It does both as long as every
    // entry has its region.
    lemma DestroyEnds()
      requires Valid()
      ensures (forall m :: Agrees(m, words) ==> Ends(m, cleanup)) <==> FirmlyEnds(words, cleanup)
      ensures (forall m :: Agrees(m, words) ==> Right(m, cleanup, cleanups)) <==> AllStand(words, cleanups)
      ensures AllStand(words, cleanups) ==> FirmlyEnds(words, cleanup)
      ensures Owned(cleanups) ==> AllStand(words, cleanups)
    {
      hide Placed, Known, Synced, NodesIn, AllocPool.Shape, AllocPool.Linked, Ends, Walk, Right, AllStand, Owned;
      hide Agrees, FirmlyEnds, Housed, Positive;
      EndsIff(words, cleanup);
      RightIff(words, cleanup, cleanups);
      if AllStand(words, cleanups) {
        AllStandEnds(words, cleanups);
      }
      if Owned(cleanups) {
        OwnedStands(cleanup, words, cleanups, regions);
      }
    }
  }

  // ---- when the sizes do not fit ----

  lemma AlignPtrLow(p: nat)
    ensures AlignPtr(p) < TWO32
  {
  }

  // A fresh block holds the request just when the request fits behind the data
  // header, whatever the limit of the pool says, and the macro can round.
  lemma FreshInside(a: nat, size: nat, n: nat)
    requires a % 16 == 0
    ensures var m := AlignPtr(a + DATA_HEADER);
      a + DATA_HEADER <= m && m + n <= a + size <==> DATA_HEADER + n <= size && a + DATA_HEADER + 7 < TWO32
  {
    hide AlignPtr, AlignUp;
    AlignPtrRounds(a + DATA_HEADER);
    Rounded(a);
    AlignPtrLow(a + DATA_HEADER);
  }

  // With the default size of 16 KB, a request that counts as small is larger
  // than a block.
  lemma SmallMayNotFit()
    ensures 20000 + POOL_HEADER <= POOL_MAX && DATA_HEADER + 20000 > 16 * 1024
  {
  }

  // ---- runs with a cleanup ----

  lemma FirstFits()
    ensures FirstFit(4096, [65536], [65608], 0, CLEANUP_NODE) == 0 && AlignUp(65608) == 65608
    ensures FirstFit(4096, [65536], [65608], 0, WORD) == 0
    ensures FirstFit(4096, [65536], [65616], 0, CLEANUP_NODE) == 0 && AlignUp(65616) == 65616
    ensures Emptied([65536]) == [65608]
  {
  }

  // A pool with one cleanup and its handler.
  method OneCleanup(handler: nat) returns (pool: AllocPool, c: nat)
    ensures fresh(pool) && (forall b :: b in pool.chain ==> fresh(b)) && pool.Valid()
    ensures pool.size == 4096 && pool.starts == [65536] && c == 65608 && pool.cleanup == c
    ensures pool.cleanups == [Cleanup(c, handler, 0, 0)] && AllStand(pool.words, pool.cleanups)
  {
    hide AllocPool.Valid, Placed, Known, Synced, Spared, Stored, Put, Overwritten, AllStand, ListNodes;
    pool := new AllocPool(4096, 65536);
    FirstFits();
    c := pool.AddCleanup(0, 0, 0, 0);
    pool.SetHandler(c, handler, 0);
    pool.DestroyEnds();
    pool.Memory();
  }

  // A reset: the entry stays in the list, its place is free again.
  method ThenReset(pool: AllocPool, c: nat, handler: nat)
    requires pool.Valid() && pool.size == 4096 && pool.starts == [65536] && c == 65608 && pool.cleanup == c
    requires pool.cleanups == [Cleanup(c, handler, 0, 0)]
    modifies pool, set b | b in pool.chain
    ensures pool.Valid() && pool.chain == old(pool.chain) && pool.starts == [65536] && pool.cleanup == c
    ensures pool.cleanups == [Cleanup(c, handler, 0, -1)] && pool.words == old(pool.words)
    ensures pool.regions == [] && pool.at == 0 && pool.lasts == [c]
  {
    hide AllocPool.Valid, Owned, Emptied;
    FirstFits();
    var _ := pool.Reset();
  }

  // A second cleanup then: its entry is written over the first and is linked to
  // itself, and the loop of alloc_pool_destory does not end.
  method ThenAgain(pool: AllocPool, c: nat, handler: nat)
    requires pool.Valid() && pool.size == 4096 && pool.starts == [65536] && c == 65608 && pool.cleanup == c
    requires pool.cleanups == [Cleanup(c, handler, 0, -1)] && pool.at == 0 && pool.lasts == [c]
    modifies pool, set b | b in pool.chain
    ensures pool.Valid() && pool.cleanup == c && Holds(pool.words, c + NEXT, c)
    ensures forall m :: Agrees(m, pool.words) ==> !Ends(m, c)
  {
    hide AllocPool.Valid, Owned, Entered, Clear, FirstFit, AlignUp, Spared, Put, Overwritten, ListNodes, Ends, Holds;
    FirstFits();
    ghost var w, r, cs := Overwritten(pool.words, c, CLEANUP_NODE), pool.regions, pool.cleanups;
    var c2 := pool.AddCleanup(0, 0, 0, 0);
    PutHolds(w, c, 0, c);
    SelfLinked(pool.words, c);
    pool.Memory();
    EnteredNode(r, cs, pool.regions, pool.cleanups, c);
  }

  lemma EnteredNode(r: seq<Region>, cs: seq<Cleanup>, r2: seq<Region>, cs2: seq<Cleanup>, c: nat)
    requires c > 0 && Entered(r, cs, r2, cs2, 0, c)
    ensures NodeAt(cs2, 0) == c && cs2 == [Cleanup(c, 0, 0, |r|)] + cs
  {
  }

  lemma SelfLinked(words: map<nat, nat>, c: nat)
    requires c > 0 && Holds(words, c + NEXT, c)
    ensures forall m :: Agrees(m, words) ==> !Ends(m, c)
  {
    forall m, l | Agrees(m, words) && Walk(m, c, l)
      ensures false
    {
      WalkUnique(m, c, l, l[1..]);
    }
  }

  method ResetTrap() returns (pool: AllocPool, c: nat)
    ensures pool.Valid() && pool.cleanup == c && forall m :: Agrees(m, pool.words) ==> !Ends(m, c)
  {
    hide AllocPool.Valid, Ends, Agrees, AllStand;
    pool, c := OneCleanup(1);
    ThenReset(pool, c, 1);
    ThenAgain(pool, c, 1);
  }

  // Its place is given away instead: what the loop does is up to the new owner.
  // With zeros it calls nothing, unchanged it calls the handler, and with the
  // place's own address it does not end.
  method ThenAlloc(pool: AllocPool, c: nat, handler: nat)
    requires pool.Valid() && pool.size == 4096 && pool.starts == [65536] && c == 65608 && pool.cleanup == c
    requires pool.cleanups == [Cleanup(c, handler, 0, -1)] && pool.at == 0 && pool.lasts == [c]
    modifies pool, set b | b in pool.chain
    ensures pool.Valid() && pool.cleanup == c && pool.cleanups == old(pool.cleanups)
    ensures forall m: Memory :: m(c + NEXT) == 0 ==> Ends(m, c) && Walk(m, c, [c])
    ensures forall m: Memory :: CallsAlong(m, [c]) == CallOf(m(c), m(c + DATA))
    ensures Bare(pool.words, c, CLEANUP_NODE) && !Ends(Looping(pool.words), c)
  {
    hide AllocPool.Valid, Clear, FirstFit, AlignUp, Spared, Overwritten, ListNodes, Ends, Looping, FirmlyEnds, Bare;
    FirstFits();
    pool.Memory();
    var m := pool.AllocPtr(CLEANUP_NODE, 0, 0);
    OnePlace(c);
    BareLoops(pool.words, c);
  }

  lemma OnePlace(c: nat)
    requires c > 0
    ensures forall m: Memory :: m(c + NEXT) == 0 ==> Ends(m, c) && Walk(m, c, [c])
    ensures forall m: Memory :: CallsAlong(m, [c]) == CallOf(m(c), m(c + DATA))
  {
    forall m: Memory | m(c + NEXT) == 0
      ensures Ends(m, c) && Walk(m, c, [c])
    {
      assert Walk(m, c, [c]);
    }
  }

  lemma BareLoops(words: map<nat, nat>, c: nat)
    requires c > 0 && Bare(words, c, CLEANUP_NODE)
    ensures !Ends(Looping(words), c)
  {
    assert c + NEXT !in words;
    EndsIff(words, c);
  }

  // create, cleanup, reset, alloc_pool_ptr_null, destroy: the handler that was
  // registered is not called.
  method LostCall(handler: nat) returns (called: seq<Call>, ghost registered: seq<Call>)
    requires handler != 0
    ensures registered == [Call(handler, 0)] && called == []
  {
    hide AllocPool.Valid, Ends, AllStand, Bare, Looping, Walk;
    var pool, c := OneCleanup(handler);
    ThenReset(pool, c, handler);
    ThenAlloc(pool, c, handler);
    registered := CallsOf(pool.cleanups);
    var zeros := Filled(pool.words, 0);
    ZeroPlace(pool.words, c);
    var freed;
    called, freed := pool.Destroy(zeros);
    ghost var l :| Walk(zeros, c, l) && called == CallsAlong(zeros, l);
    WalkUnique(zeros, c, l, [c]);
  }

  lemma ZeroPlace(words: map<nat, nat>, c: nat)
    requires Bare(words, c, CLEANUP_NODE)
    ensures Filled(words, 0)(c) == 0 && Filled(words, 0)(c + NEXT) == 0
  {
    assert c !in words && c + NEXT !in words;
  }

  // One word of its place is given away.
  method ThenWord(pool: AllocPool, c: nat, handler: nat)
    requires pool.Valid() && pool.size == 4096 && pool.starts == [65536] && c == 65608 && pool.cleanup == c
    requires pool.cleanups == [Cleanup(c, handler, 0, -1)] && pool.at == 0 && pool.lasts == [c]
    modifies pool, set b | b in pool.chain
    ensures pool.Valid() && pool.starts == [65536] && pool.at == 0 && pool.lasts == [c + WORD] && pool.cleanup == c
    ensures pool.cleanups == old(pool.cleanups) && pool.words == Overwritten(old(pool.words), c, WORD)
    ensures forall b :: b in pool.chain ==> b in old(pool.chain) || fresh(b)
  {
    hide AllocPool.Valid, Clear, FirstFit, AlignUp, Spared, Overwritten, ListNodes, Bare;
    FirstFits();
    pool.Memory();
    var _ := pool.AllocPtr(WORD, 0, 0);
  }

  // A second cleanup then: the loop ends, though the first entry does not stand.
  method ThenShifted(pool: AllocPool, c: nat, ghost w: map<nat, nat>)
    requires pool.Valid() && pool.size == 4096 && pool.starts == [65536] && c == 65608 && pool.cleanup == c
    requires pool.at == 0 && pool.lasts == [c + WORD] && NodesOf(pool.cleanups) == [c]
    requires pool.words == Overwritten(w, c, WORD)
    modifies pool, set b | b in pool.chain
    ensures pool.Valid() && pool.cleanup == c + WORD
    ensures FirmlyEnds(pool.words, pool.cleanup) && !AllStand(pool.words, pool.cleanups)
  {
    hide AllocPool.Valid, Owned, Entered, Clear, FirstFit, AlignUp, Spared, Put, Overwritten, ListNodes, FirmlyEnds;
    hide AllStand, NodesOf;
    FirstFits();
    ghost var cs, r := pool.cleanups, pool.regions;
    var _ := pool.AddCleanup(0, 0, 0, 0);
    EnteredNode(r, cs, pool.regions, pool.cleanups, c + WORD);
    pool.Memory();
    ShiftedEntry(w, c, cs, pool.cleanups);
  }

  method ShiftedRun() returns (pool: AllocPool)
    ensures pool.Valid() && FirmlyEnds(pool.words, pool.cleanup) && !AllStand(pool.words, pool.cleanups)
  {
    hide AllocPool.Valid, AllStand, FirmlyEnds, Overwritten;
    var c;
    pool, c := OneCleanup(1);
    ThenReset(pool, c, 1);
    ghost var w := pool.words;
    ThenWord(pool, c, 1);
    ThenShifted(pool, c, w);
  }

  lemma ShiftedEntry(w: map<nat, nat>, c: nat, cs: seq<Cleanup>, cs2: seq<Cleanup>)
    requires c > 0 && NodesOf(cs) == [c] && |cs2| == 2 && cs2[1..] == cs
    ensures var words := Put(Overwritten(Overwritten(w, c, WORD), c + WORD, CLEANUP_NODE), c + WORD, 0, c);
      FirmlyEnds(words, c + WORD) && !AllStand(words, cs2)
  {
    var w2 := Overwritten(Overwritten(w, c, WORD), c + WORD, CLEANUP_NODE);
    var words := Put(w2, c + WORD, 0, c);
    PutHolds(w2, c + WORD, 0, c);
    assert Firm(words, c, [c]);
    assert [c + WORD, c][1..] == [c];
    assert Firm(words, c + WORD, [c + WORD, c]);
    assert c !in words && cs2[1] == cs[0] && cs[0].node == NodesOf(cs)[0];
    assert !Stands(words, cs2, 1);
  }
}
