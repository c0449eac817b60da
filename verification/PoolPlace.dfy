// Where a pool puts things: addresses, alignment, and what may not overlap.
module PoolPlace {
  import opened NumberTheory
  import opened MachineWords

  const POOL_HEADER: nat := 72
  const DATA_HEADER: nat := 32
  const WORD: nat := 8
  const POOL_MAX: nat := 0x8FFF

  // ---- alignment ----

  function AlignUp(p: nat): (r: nat)
    ensures r % WORD == 0 && p <= r < p + WORD
  {
    (p + 7) / 8 * 8
  }

  // The macro: its mask has only 32 bits.
  function AlignPtr(p: nat): nat
  {
    (p + 7) % TWO32 / 8 * 8
  }

  lemma MaskParts(p: bv64)
    ensures p & 0xFFFF_FFF8 == ((p & 0xFFFF_FFFF) >> 3) << 3
    ensures p % 0x1_0000_0000 == p & 0xFFFF_FFFF
    ensures (p & 0xFFFF_FFFF) / 8 == (p & 0xFFFF_FFFF) >> 3
    ensures ((p & 0xFFFF_FFFF) >> 3) * 8 == ((p & 0xFFFF_FFFF) >> 3) << 3
  {
  }

  lemma MaskIsArithmetic(p: bv64)
    ensures p & 0xFFFF_FFF8 == p % 0x1_0000_0000 / 8 * 8
  {
    MaskParts(p);
  }

  // It rounds up just for the addresses whose rounding fits in 32 bits.
  lemma AlignPtrRounds(p: nat)
    ensures AlignPtr(p) == AlignUp(p) <==> p + 7 < TWO32
  {
    if p + 7 < TWO32 {
      DivUnique(p + 7, TWO32, 0, p + 7);
    } else {
      assert AlignPtr(p) < TWO32;
      assert AlignUp(p) >= TWO32;
    }
  }

  // An aligned address above the first 4 GB ends up below them.
  lemma HighAddress()
    ensures AlignUp(0x1_0000_0010) == 0x1_0000_0010 && AlignPtr(0x1_0000_0010) == 16
  {
  }

  // size_t arithmetic on two pointers.
  function Gap(end: nat, m: nat): nat
  {
    if end >= m then end - m else (end + TWO64 - m) % TWO64
  }

  predicate Accepted(last: nat, end: nat, size: nat)
  {
    Gap(end, AlignPtr(last)) >= size
  }

  // Whether a request that a block accepts lies inside it: just when the
  // address is one that the macro can round, and the rounding stays inside.
  lemma AcceptedInside(last: nat, end: nat, size: nat)
    requires last <= end < TWO64 - 8 && 0 < size < TWO32 && Accepted(last, end, size)
    ensures var m := AlignPtr(last);
      last <= m && m + size <= end <==> last + 7 < TWO32 && AlignUp(last) <= end
  {
    AlignPtrRounds(last);
  }

  // Without it: a block whose end is not a whole number of words hands out what
  // is not there.
  lemma UnevenEnd()
    ensures Accepted(4097, 4100, 8) && AlignPtr(4097) + 8 > 4100
  {
  }

  // ---- places ----

  // home is the number of the block that a region is in, or -1.
  datatype Region = Region(at: nat, size: nat, home: int)

  predicate Disjoint(a: nat, m: nat, b: nat, n: nat)
  {
    a + m <= b || b + n <= a
  }

  // starts, lasts: the blocks of size bytes; regions: what was handed out.
  ghost predicate Blocks(size: nat, starts: seq<nat>, lasts: seq<nat>)
  {
    && |starts| == |lasts|
    && (forall i :: 0 <= i < |starts| ==> starts[i] > 0 && starts[i] % 16 == 0 && starts[i] + size + 7 < TWO32)
    && (forall i :: 0 <= i < |starts| ==> starts[i] + DATA_HEADER <= lasts[i] <= starts[i] + size)
    && (forall i, j :: 0 <= i < j < |starts| ==> Disjoint(starts[i], size, starts[j], size))
  }

  ghost predicate Homes(size: nat, starts: seq<nat>, lasts: seq<nat>, r: Region)
    requires |starts| == |lasts|
  {
    && r.at % WORD == 0 && r.at > 0 && -1 <= r.home < |starts|
    && (r.home >= 0 ==> starts[r.home] + DATA_HEADER <= r.at && r.at + r.size <= lasts[r.home])
    && (r.home == -1 ==> r.size > 0 && forall i :: 0 <= i < |starts| ==> Disjoint(starts[i], size, r.at, r.size))
  }

  ghost predicate Placed(size: nat, starts: seq<nat>, lasts: seq<nat>, regions: seq<Region>)
  {
    && Blocks(size, starts, lasts)
    && (forall k :: 0 <= k < |regions| ==> Homes(size, starts, lasts, regions[k]))
    && (forall j, k :: 0 <= j < k < |regions| ==>
          Disjoint(regions[j].at, regions[j].size, regions[k].at, regions[k].size))
  }

  // What malloc promises about an address: aligned, and clear of all that is
  // allocated.
  ghost predicate Clear(size: nat, starts: seq<nat>, regions: seq<Region>, a: nat, n: nat)
  {
    && a > 0 && a % 16 == 0
    && (forall i :: 0 <= i < |starts| ==> Disjoint(starts[i], size, a, n))
    && (forall k :: 0 <= k < |regions| && regions[k].home == -1 ==> Disjoint(regions[k].at, regions[k].size, a, n))
  }

  // A bump of block i.
  lemma Bumped(size: nat, starts: seq<nat>, lasts: seq<nat>, regions: seq<Region>, i: nat, m: nat, n: nat)
    requires Placed(size, starts, lasts, regions) && i < |starts|
    requires m % WORD == 0 && lasts[i] <= m && m + n <= starts[i] + size
    ensures Placed(size, starts, lasts[i := m + n], regions + [Region(m, n, i)])
  {
    var now, r := lasts[i := m + n], Region(m, n, i);
    forall k | 0 <= k < |regions|
      ensures Homes(size, starts, now, regions[k])
      ensures Disjoint(regions[k].at, regions[k].size, m, n)
    {
      var o := regions[k];
      assert Homes(size, starts, lasts, o);
      if o.home >= 0 && o.home != i {
        assert Disjoint(starts[if o.home < i then o.home else i], size, starts[if o.home < i then i else o.home], size);
      }
    }
  }

  lemma PlacedSizes(size: nat, starts: seq<nat>, lasts: seq<nat>, regions: seq<Region>)
    requires Placed(size, starts, lasts, regions)
    ensures |starts| == |lasts|
  {
  }

  lemma HomeStays(size: nat, starts: seq<nat>, lasts: seq<nat>, r: Region, a: nat)
    requires |starts| == |lasts| && Homes(size, starts, lasts, r)
    requires r.home == -1 ==> Disjoint(r.at, r.size, a, size)
    ensures Homes(size, starts + [a], lasts + [a + DATA_HEADER], r)
  {
  }

  // An empty block at the end of the chain.
  lemma BlockMore(size: nat, starts: seq<nat>, lasts: seq<nat>, regions: seq<Region>, a: nat)
    requires Placed(size, starts, lasts, regions) && Clear(size, starts, regions, a, size)
    requires a + size + 7 < TWO32 && DATA_HEADER <= size
    ensures Placed(size, starts + [a], lasts + [a + DATA_HEADER], regions)
  {
    var s, l := starts + [a], lasts + [a + DATA_HEADER];
    forall k | 0 <= k < |regions|
      ensures Homes(size, s, l, regions[k])
    {
      HomeStays(size, starts, lasts, regions[k], a);
    }
  }

  // A block of its own for a region.
  lemma Chained(size: nat, starts: seq<nat>, lasts: seq<nat>, regions: seq<Region>, a: nat, n: nat)
    requires Placed(size, starts, lasts, regions) && Clear(size, starts, regions, a, size)
    requires a + size + 7 < TWO32 && DATA_HEADER + n <= size
    ensures Placed(size, starts + [a], lasts + [a + DATA_HEADER + n], regions + [Region(a + DATA_HEADER, n, |starts|)])
  {
    hide Placed;
    var s, l := starts + [a], lasts + [a + DATA_HEADER];
    BlockMore(size, starts, lasts, regions, a);
    PlacedSizes(size, starts, lasts, regions);
    Bumped(size, s, l, regions, |starts|, a + DATA_HEADER, n);
    assert l[|starts| := a + DATA_HEADER + n] == lasts + [a + DATA_HEADER + n];
  }

  lemma Chunked(size: nat, starts: seq<nat>, lasts: seq<nat>, regions: seq<Region>, a: nat, n: nat)
    requires Placed(size, starts, lasts, regions) && Clear(size, starts, regions, a, n) && n > 0
    ensures Placed(size, starts, lasts, regions + [Region(a, n, -1)])
  {
    forall k | 0 <= k < |regions|
      ensures Disjoint(regions[k].at, regions[k].size, a, n)
    {
      var o := regions[k];
      assert Homes(size, starts, lasts, o);
      if o.home >= 0 {
        assert Disjoint(starts[o.home], size, a, n);
      }
    }
  }

  lemma PlacedApart(size: nat, starts: seq<nat>, lasts: seq<nat>, regions: seq<Region>, i: nat)
    requires Placed(size, starts, lasts, regions) && i < |regions|
    ensures regions[i].at > 0
    ensures forall j :: 0 <= j < |regions| && j != i ==>
      Disjoint(regions[i].at, regions[i].size, regions[j].at, regions[j].size)
  {
    assert Homes(size, starts, lasts, regions[i]);
  }
}
