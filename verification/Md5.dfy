// MD5 of a message that arrives in pieces.
module Md5 {
  import opened Lists
  import opened Md5Block
  import opened NumberTheory
  import opened MachineWords

  const START := Regs(0x6745_2301, 0xefcd_ab89, 0x98ba_dcfe, 0x1032_5476)

  // A word from four bytes, the low one first.
  function WordAt(p: seq<byte>, n: nat): word
    requires 4 * n + 4 <= |p|
  {
    var b0: int, b1: int, b2: int, b3: int := p[4 * n], p[4 * n + 1], p[4 * n + 2], p[4 * n + 3];
    b0 + 256 * b1 + 65536 * b2 + 16777216 * b3
  }

  // The or of the shifted bytes is that sum.
  lemma SetIsSum(b0: bv32, b1: bv32, b2: bv32, b3: bv32)
    requires b0 < 256 && b1 < 256 && b2 < 256 && b3 < 256
    ensures b0 | (b1 << 8) | (b2 << 16) | (b3 << 24) == b0 + 256 * b1 + 65536 * b2 + 16777216 * b3
  {
  }

  function Words(p: seq<byte>): (x: seq<word>)
    requires |p| == 64
    ensures |x| == 16
  {
    seq(16, n requires 0 <= n < 16 => WordAt(p, n))
  }

  function Block(r: Regs, p: seq<byte>): Regs
  {
    if |p| == 64 then Compressed(r, Words(p)) else r
  }

  type Compressor = (Regs, seq<byte>) -> Regs

  // The whole blocks of m, one after the other, through g.
  function Fold(g: Compressor, r: Regs, m: seq<byte>): Regs
    decreases |m|
  {
    if |m| < 64 then r else Fold(g, g(r, m[..64]), m[64..])
  }

  lemma {:induction false} FoldAppend(g: Compressor, r: Regs, m: seq<byte>, d: seq<byte>)
    requires |m| % 64 == 0
    ensures Fold(g, r, m + d) == Fold(g, Fold(g, r, m), d)
    decreases |m|
  {
    if m == [] {
      assert m + d == d;
    } else {
      assert (m + d)[..64] == m[..64] && (m + d)[64..] == m[64..] + d;
      FoldAppend(g, g(r, m[..64]), m[64..], d);
    }
  }

  lemma FoldOne(g: Compressor, r: Regs, p: seq<byte>)
    requires |p| == 64
    ensures Fold(g, r, p) == g(r, p)
  {
    assert p[..64] == p && |p[64..]| == 0;
  }

  function LowBytes(v: nat, n: nat): (b: seq<byte>)
    ensures |b| == n
  {
    if n == 0 then [] else [v % 256] + LowBytes(v / 256, n - 1)
  }

  function Zeros(n: nat): (z: seq<byte>)
    ensures |z| == n && forall i :: 0 <= i < n ==> z[i] == 0
  {
    seq(n, _ => 0)
  }

  // Sections 3.1 and 3.2 of RFC 1321: a 1 bit, as few 0 bits as leave room for
  // the length in bits, and that length modulo 2^64.
  predicate Room(n: nat, k: nat) { (n + 1 + k) % 64 == 56 }

  function PadZeros(n: nat): (k: nat)
    ensures Room(n, k) && forall j :: 0 <= j < k ==> !Room(n, j)
  {
    if n % 64 <= 55 then 55 - n % 64 else 119 - n % 64
  }

  function Padded(m: seq<byte>): seq<byte>
  {
    m + [0x80] + Zeros(PadZeros(|m|)) + LowBytes((8 * |m|) % TWO64, 8)
  }

  function Digest(m: seq<byte>): seq<byte>
  {
    var o := Fold(Block, START, Padded(m));
    LowBytes(o.a, 4) + LowBytes(o.b, 4) + LowBytes(o.c, 4) + LowBytes(o.d, 4)
  }

  // ---- how the message so far meets the buffer ----

  function Whole(m: seq<byte>): nat { |m| - |m| % 64 }

  lemma Mods(n: nat, k: nat)
    ensures n >= n % 64 && (n - n % 64) % 64 == 0
    ensures n % 64 + k < 64 ==> (n + k) % 64 == n % 64 + k
    ensures n % 64 + k == 64 ==> (n + k) % 64 == 0
  {
  }

  lemma ShortPiece(m: seq<byte>, d: seq<byte>)
    requires |m| % 64 + |d| < 64
    ensures Whole(m + d) == Whole(m) && (m + d)[..Whole(m)] == m[..Whole(m)]
    ensures (m + d)[Whole(m)..] == m[Whole(m)..] + d && |m + d| % 64 == |m| % 64 + |d|
  {
    Mods(|m|, |d|);
  }

  lemma Regroup(m: seq<byte>, w: nat, d: seq<byte>)
    requires w <= |m|
    ensures m + d == m[..w] + (m[w..] + d)
  {
  }

  lemma FullPiece(g: Compressor, m: seq<byte>, d: seq<byte>)
    requires |m| % 64 + |d| == 64
    ensures |m + d| % 64 == 0 && |m[Whole(m)..] + d| == 64
    ensures Fold(g, START, m + d) == Fold(g, Fold(g, START, m[..Whole(m)]), m[Whole(m)..] + d)
  {
    Mods(|m|, |d|);
    Regroup(m, Whole(m), d);
    FoldAppend(g, START, m[..Whole(m)], m[Whole(m)..] + d);
  }

  lemma NoRest(m: seq<byte>)
    requires |m| % 64 == 0
    ensures Whole(m) == |m| && m[..Whole(m)] == m && m[Whole(m)..] == []
  {
  }

  lemma Halves(m: seq<byte>, d: seq<byte>, k: nat)
    requires k <= |d|
    ensures m + d[..k] + d[k..] == m + d
  {
    assert d == d[..k] + d[k..];
  }

  lemma RunNone(r: Regs, x: seq<word>)
    requires |x| == 16
    ensures RunSteps(r, x, 0) == r
  {
  }

  lemma BytesAdd(m: nat, d: nat)
    ensures (m % TWO64 + d) % TWO64 == (m + d) % TWO64
  {
  }

  lemma LengthBits(n: nat)
    ensures (n % TWO64 * 8) % TWO64 == (8 * n) % TWO64
  {
    assert n == n / TWO64 * TWO64 + n % TWO64;
    assert 8 * n == 8 * (n / TWO64) * TWO64 + n % TWO64 * 8;
  }

  // The two ways of writing the zeros give the padding.
  lemma PaddedIs(m: seq<byte>, z1: seq<byte>, k: nat, bits: nat, all: seq<byte>)
    requires bits == (8 * |m|) % TWO64
    requires var w, u := Whole(m), |m| % 64;
      if 63 - u < 8 then
        z1 == Zeros(63 - u) && k == 56 && all == m[..w] + (m[w..] + [0x80] + z1) + ([] + Zeros(k) + LowBytes(bits, 8))
      else
        z1 == [] && k == 55 - u && all == m[..w] + (m[w..] + [0x80] + Zeros(k) + LowBytes(bits, 8))
    ensures all == Padded(m)
  {
    hide LowBytes;
    var w := Whole(m);
    Mods(|m|, 0);
    assert m == m[..w] + m[w..];
    assert Zeros(PadZeros(|m|)) == z1 + Zeros(k);
  }

  lemma Between(a: int, b: int, t: int, r: int)
    requires 0 <= t < b && 0 <= r < a
    ensures 0 <= a * t + r < a * b
  {
    Distribute(a, b, t);
    MulBound(a, b - t);
    if t > 0 {
      MulBound(a, t);
    }
  }

  lemma DivDiv(v: nat, a: nat, b: nat)
    requires a > 0 && b > 0
    ensures a * b > 0 && v / a / b == v / (a * b)
  {
    MulBound(a, b);
    var r, q := v % a, v / a;
    var t, s := q % b, q / b;
    assert v == a * q + r && q == b * s + t;
    Assoc(a, b, s);
    Distribute(a, b * s, t);
    Between(a, b, t, r);
    DivUnique(v, a * b, s, a * t + r);
  }

  lemma LowStep(v: nat, n: nat)
    ensures LowBytes(v, n + 1) == [v % 256] + LowBytes(v / 256, n) && LowBytes(v, 0) == []
  {
  }

  lemma FourBytes(v: nat)
    ensures LowBytes(v, 4) == [v % 256, v / 0x100 % 256, v / 0x1_0000 % 256, v / 0x100_0000 % 256]
  {
    hide LowBytes;
    DivDiv(v, 0x100, 0x100);
    DivDiv(v, 0x1_0000, 0x100);
    LowStep(v, 3);
    LowStep(v / 0x100, 2);
    LowStep(v / 0x1_0000, 1);
    LowStep(v / 0x100_0000, 0);
  }

  // The words of a block, written out as the words of the digest are, give its
  // bytes: both are taken low byte first.
  lemma WordsAreBytes(p: seq<byte>, n: nat)
    requires |p| == 64 && n < 16
    ensures LowBytes(Words(p)[n], 4) == p[4 * n..4 * n + 4]
  {
    hide LowBytes;
    var b0: nat, b1: nat, b2: nat, b3: nat := p[4 * n], p[4 * n + 1], p[4 * n + 2], p[4 * n + 3];
    var v := Words(p)[n];
    FourBytes(v);
    DivUnique(v, 0x100, b1 + 0x100 * b2 + 0x1_0000 * b3, b0);
    DivUnique(v / 0x100, 0x100, b2 + 0x100 * b3, b1);
    DivUnique(v / 0x100 / 0x100, 0x100, b3, b2);
    DivDiv(v, 0x100, 0x100);
    DivDiv(v, 0x1_0000, 0x100);
    DivUnique(b3, 0x100, 0, b3);
  }

  lemma LowSplit(v: nat)
    ensures LowBytes(v, 8) == LowBytes(v, 4) + LowBytes(v / 0x1_0000_0000, 4)
  {
    hide LowBytes;
    DivDiv(v, 0x100, 0x100);
    DivDiv(v, 0x1_0000, 0x100);
    DivDiv(v, 0x100_0000, 0x100);
    LowStep(v, 7);
    LowStep(v / 0x100, 6);
    LowStep(v / 0x1_0000, 5);
    LowStep(v / 0x100_0000, 4);
    FourBytes(v);
  }

  lemma EightBytes(v: nat)
    ensures LowBytes(v, 8) == [v % 256, v / 0x100 % 256, v / 0x1_0000 % 256, v / 0x100_0000 % 256,
                               v / 0x1_0000_0000 % 256,
      v / 0x100_0000_0000 % 256, v / 0x1_0000_0000_0000 % 256, v / 0x100_0000_0000_0000 % 256]
  {
    hide LowBytes;
    DivDiv(v, 0x1_0000_0000, 0x100);
    DivDiv(v, 0x1_0000_0000, 0x1_0000);
    DivDiv(v, 0x1_0000_0000, 0x100_0000);
    FourBytes(v);
    FourBytes(v / 0x1_0000_0000);
    LowSplit(v);
  }

  // The padding of sections 3.1 and 3.2 of RFC 1321: a 1 bit, 0 bits, as few as
  // make whole blocks, and the length in bits, its low byte first.
  lemma PaddingIsRfc(m: seq<byte>)
    ensures var p := Padded(m);
      && |p| % 64 == 0 && |m| + 9 <= |p| <= |m| + 72 && p[..|m|] == m && p[|m|] == 0x80
      && (forall i :: |m| < i < |p| - 8 ==> p[i] == 0)
      && var n := (8 * |m|) % 0x1_0000_0000_0000_0000;
      p[|p| - 8..] == [n % 256, n / 0x100 % 256, n / 0x1_0000 % 256, n / 0x100_0000 % 256, n / 0x1_0000_0000 % 256,
        n / 0x100_0000_0000 % 256, n / 0x1_0000_0000_0000 % 256, n / 0x100_0000_0000_0000 % 256]
  {
    hide LowBytes;
    EightBytes((8 * |m|) % TWO64);
  }

  // The registers start as in section 3.3, with the low byte first.
  lemma StartIsRfc()
    ensures LowBytes(START.a, 4) == [0x01, 0x23, 0x45, 0x67] && LowBytes(START.b, 4) == [0x89, 0xab, 0xcd, 0xef]
    ensures LowBytes(START.c, 4) == [0xfe, 0xdc, 0xba, 0x98] && LowBytes(START.d, 4) == [0x76, 0x54, 0x32, 0x10]
  {
    hide LowBytes;
    FourBytes(START.a);
    FourBytes(START.b);
    FourBytes(START.c);
    FourBytes(START.d);
  }

  // Section 3.5: the digest is the registers in turn, each with its low byte first.
  lemma DigestIsRfc(m: seq<byte>, i: nat)
    requires i < 4
    ensures var o, e := Fold(Block, START, Padded(m)), [1, 0x100, 0x1_0000, 0x100_0000][i];
      && |Digest(m)| == 16 && Digest(m)[i] == o.a / e % 256 && Digest(m)[4 + i] == o.b / e % 256
      && Digest(m)[8 + i] == o.c / e % 256 && Digest(m)[12 + i] == o.d / e % 256
  {
    hide LowBytes, Fold, Padded, Block;
    var o := Fold(Block, START, Padded(m));
    FourBytes(o.a);
    FourBytes(o.b);
    FourBytes(o.c);
    FourBytes(o.d);
  }

  class ConvMd5 {
    var bytes: nat
    var a: word
    var b: word
    var c: word
    var d: word

    const buffer: array<byte>

    ghost predicate Mostly(m: seq<byte>)
      reads this`a, this`b, this`c, this`d, buffer
    {
      && buffer.Length == 64
      && Regs(a, b, c, d) == Fold(Block, START, m[..Whole(m)])
      && buffer[..|m| % 64] == m[Whole(m)..]
    }

    // m has gone in: its whole blocks into the registers, the rest into the
    // buffer.
    ghost predicate Holds(m: seq<byte>)
      reads this, buffer
    {
      bytes == |m| % TWO64 && Mostly(m)
    }

    // conv_md5_init on a new context.
    constructor ()
      ensures fresh(buffer) && Holds([])
    {
      bytes := 0;
      a, b, c, d := 0x6745_2301, 0xefcd_ab89, 0x98ba_dcfe, 0x1032_5476;
      buffer := new byte[64](_ => 0);
    }

    // The 64 steps on one block.
    method OneBlock(r: Regs, p: seq<byte>) returns (o: Regs)
      requires |p| == 64
      ensures o == Block(r, p)
    {
      hide RunSteps;
      var x := Words(p);
      RunNone(r, x);
      o := Round1A(r, r, x);
      o := Round1B(r, o, x);
      o := Round2A(r, o, x);
      o := Round2B(r, o, x);
      o := Round3A(r, o, x);
      o := Round3B(r, o, x);
      o := Round4A(r, o, x);
      o := Round4B(r, o, x);
      o := Regs(Plus(o.a, r.a), Plus(o.b, r.b), Plus(o.c, r.c), Plus(o.d, r.d));
    }

    // conv_md5_body: blocks into the registers.
    method Body(data: seq<byte>)
      requires |data| > 0 && |data| % 64 == 0
      modifies this`a, this`b, this`c, this`d
      ensures Regs(a, b, c, d) == Fold(Block, old(Regs(a, b, c, d)), data)
    {
      hide Block;
      var r := Regs(a, b, c, d);
      ghost var r0 := r;
      var i := 0;
      assert data[..0] == [];
      while i < |data|
        invariant 0 <= i <= |data| && i % 64 == 0 && r == Fold(Block, r0, data[..i])
      {
        var p := data[i..i + 64];
        assert data[..i] + p == data[..i + 64];
        FoldAppend(Block, r0, data[..i], p);
        FoldOne(Block, r, p);
        r := OneBlock(r, p);
        i := i + 64;
      }
      assert data[..i] == data;
      a, b, c, d := r.a, r.b, r.c, r.d;
    }

    // memcpy into the buffer.
    method Store(at: nat, data: seq<byte>)
      requires buffer.Length == 64 && at + |data| <= 64
      modifies buffer
      ensures buffer[..] == old(buffer[..at]) + data + old(buffer[at + |data|..])
    {
      var i := 0;
      while i < |data|
        invariant 0 <= i <= |data|
        invariant forall k :: 0 <= k < 64 ==> buffer[k] == if at <= k < at + i then data[k - at] else old(buffer[k])
      {
        buffer[at + i] := data[i];
        i := i + 1;
      }
    }

    lemma Stored(was: seq<byte>, at: nat, data: seq<byte>)
      requires buffer.Length == 64 && |was| == 64 && at + |data| <= 64
      requires buffer[..] == was[..at] + data + was[at + |data|..]
      ensures buffer[..at + |data|] == was[..at] + data
    {
      assert buffer[..at + |data|] == buffer[..][..at + |data|];
    }

    // The three ways a piece goes in: behind what the buffer holds, up to its
    // end, and past it.
    method Keep(used: nat, data: seq<byte>, ghost m: seq<byte>)
      requires Mostly(m) && used == |m| % 64 && used + |data| < 64
      modifies buffer
      ensures Mostly(m + data)
    {
      hide Fold, Block, Whole;
      ghost var was := buffer[..];
      ShortPiece(m, data);
      Store(used, data);
      Stored(was, used, data);
    }

    method Fill(used: nat, data: seq<byte>, ghost m: seq<byte>)
      requires Mostly(m) && used == |m| % 64 && used + |data| == 64
      modifies this`a, this`b, this`c, this`d, buffer
      ensures Mostly(m + data)
    {
      hide Fold, Block, Whole;
      ghost var was := buffer[..];
      FullPiece(Block, m, data);
      Store(used, data);
      Stored(was, used, data);
      assert buffer[..64] == buffer[..];
      Body(buffer[..]);
      NoRest(m + data);
    }

    method PassBy(data: seq<byte>, ghost m: seq<byte>)
      requires Mostly(m) && |m| % 64 == 0 && |data| > 0 && |data| % 64 == 0
      modifies this`a, this`b, this`c, this`d
      ensures Mostly(m + data) && |m + data| % 64 == 0
    {
      hide Fold, Block, Whole;
      NoRest(m);
      FoldAppend(Block, START, m, data);
      Body(data);
      NoRest(m + data);
    }

    lemma UsedIs(m: seq<byte>)
      requires bytes == |m| % TWO64
      ensures bytes % 64 == |m| % 64
    {
    }

    // conv_md5_update.
    method Update(data0: seq<byte>, ghost m: seq<byte>)
      requires Holds(m) && |data0| < 0x1_0000_0000
      modifies this, buffer
      ensures Holds(m + data0)
    {
      hide ConvMd5.Mostly, Fold, Block, Whole;
      var data := data0;
      var used := bytes % 64;
      UsedIs(m);
      BytesAdd(|m|, |data|);
      bytes := (bytes + |data|) % TWO64;
      ghost var t := m;
      if used != 0 {
        var free := 64 - used;
        if |data| < free {
          Keep(used, data, m);
          return;
        }
        Fill(used, data[..free], m);
        t := m + data[..free];
        Mods(|m|, free);
        Halves(m, data, free);
        data := data[free..];
      }
      if |data| >= 64 {
        var big := |data| - |data| % 64;
        Mods(|data|, 0);
        PassBy(data[..big], t);
        Halves(t, data, big);
        t := t + data[..big];
        data := data[big..];
      }
      Keep(0, data, t);
    }

    // The eight bytes of the length, the low one first.
    method StoreLength()
      requires buffer.Length == 64 && bytes < TWO64
      modifies buffer
      ensures buffer[..] == old(buffer[..56]) + LowBytes(bytes, 8)
    {
      EightBytes(bytes);
      buffer[56] := bytes % 256;
      buffer[57] := bytes / 0x100 % 256;
      buffer[58] := bytes / 0x1_0000 % 256;
      buffer[59] := bytes / 0x100_0000 % 256;
      buffer[60] := bytes / 0x1_0000_0000 % 256;
      buffer[61] := bytes / 0x100_0000_0000 % 256;
      buffer[62] := bytes / 0x1_0000_0000_0000 % 256;
      buffer[63] := bytes / 0x100_0000_0000_0000 % 256;
    }

    method StoreWord(v: word, result: array<byte>, at: nat)
      requires at + 4 <= result.Length
      modifies result
      ensures result[..] == old(result[..at]) + LowBytes(v, 4) + old(result[at + 4..])
    {
      FourBytes(v);
      result[at] := v % 256;
      result[at + 1] := v / 0x100 % 256;
      result[at + 2] := v / 0x1_0000 % 256;
      result[at + 3] := v / 0x100_0000 % 256;
    }

    // done is in the registers, and tail waits in the buffer.
    ghost predicate Pending(done: seq<byte>, tail: seq<byte>)
      reads this`a, this`b, this`c, this`d, buffer
    {
      && buffer.Length == 64 && |tail| <= 64 && |done| % 64 == 0
      && Regs(a, b, c, d) == Fold(Block, START, done) && buffer[..|tail|] == tail
    }

    method PutIn(at: nat, data: seq<byte>, ghost done: seq<byte>, ghost tail: seq<byte>)
      requires Pending(done, tail) && at == |tail| && at + |data| <= 64
      modifies buffer
      ensures Pending(done, tail + data)
    {
      hide Fold, Block;
      ghost var was := buffer[..];
      Store(at, data);
      Stored(was, at, data);
    }

    method Flush(ghost done: seq<byte>, ghost tail: seq<byte>)
      requires Pending(done, tail) && |tail| == 64
      modifies this`a, this`b, this`c, this`d
      ensures Pending(done + tail, [])
    {
      hide Fold, Block;
      assert buffer[..64] == buffer[..];
      FoldAppend(Block, START, done, tail);
      Body(buffer[..]);
    }

    lemma StartPad(m: seq<byte>)
      requires Mostly(m)
      ensures Pending(m[..Whole(m)], m[Whole(m)..])
    {
      Mods(|m|, 0);
    }

    lemma PendingRegs(done: seq<byte>)
      requires Pending(done, [])
      ensures Regs(a, b, c, d) == Fold(Block, START, done)
    {
    }

    method PutLength(ghost done: seq<byte>, ghost tail: seq<byte>)
      requires Pending(done, tail) && |tail| == 56 && bytes < TWO64
      modifies buffer
      ensures Pending(done, tail + LowBytes(bytes, 8))
    {
      hide Fold, Block, LowBytes;
      StoreLength();
      assert buffer[..64] == buffer[..];
    }

    // conv_md5_final up to the last block: the padding goes through.
    method Pad(ghost m: seq<byte>)
      requires Holds(m)
      modifies this, buffer
      ensures Regs(a, b, c, d) == Fold(Block, START, Padded(m))
    {
      hide ConvMd5.Pending, Fold, Block, Padded, LowBytes;
      var used := bytes % 64;
      UsedIs(m);
      ghost var done, tail := m[..Whole(m)], m[Whole(m)..];
      StartPad(m);
      PutIn(used, [0x80], done, tail);
      tail := tail + [0x80];
      used := used + 1;
      var free := 64 - used;
      ghost var z1: seq<byte> := [];
      if free < 8 {
        z1 := Zeros(free);
        PutIn(used, Zeros(free), done, tail);
        tail := tail + Zeros(free);
        Flush(done, tail);
        done, tail := done + tail, [];
        used, free := 0, 64;
      }
      PutIn(used, Zeros(free - 8), done, tail);
      tail := tail + Zeros(free - 8);
      bytes := (bytes * 8) % TWO64;
      LengthBits(|m|);
      PutLength(done, tail);
      tail := tail + LowBytes(bytes, 8);
      Flush(done, tail);
      PaddedIs(m, z1, free - 8, bytes, done + tail);
      PendingRegs(done + tail);
    }

    lemma BufferLength(m: seq<byte>)
      requires Mostly(m)
      ensures buffer.Length == 64
    {
    }

    // conv_md5_final: the digest of all that went in, and a context of zeros.
    method Final(result: array<byte>, ghost m: seq<byte>)
      requires Holds(m) && result.Length == 16 && result != buffer
      modifies this, buffer, result
      ensures result[..] == Digest(m)
      ensures bytes == a == b == c == d == 0 && forall i :: 0 <= i < buffer.Length ==> buffer[i] == 0
    {
      hide ConvMd5.Mostly, Fold, Block, Padded, LowBytes;
      assert buffer.Length == 64 by { BufferLength(m); }
      Pad(m);
      ghost var la, lb, lc, ld := LowBytes(a, 4), LowBytes(b, 4), LowBytes(c, 4), LowBytes(d, 4);
      StoreWord(a, result, 0);
      StoreWord(b, result, 4);
      StoreWord(c, result, 8);
      StoreWord(d, result, 12);
      assert result[..] == la + lb + lc + ld;
      bytes, a, b, c, d := 0, 0, 0, 0, 0;
      forall i | 0 <= i < buffer.Length {
        buffer[i] := 0;
      }
    }
  }

  function Joined(pieces: seq<seq<byte>>): seq<byte>
  {
    if pieces == [] then [] else Joined(pieces[..|pieces| - 1]) + pieces[|pieces| - 1]
  }

  // However a message is cut, its digest is the digest of the whole.
  method DigestOf(pieces: seq<seq<byte>>) returns (result: array<byte>)
    requires forall p :: p in pieces ==> |p| < 0x1_0000_0000
    ensures result[..] == Digest(Joined(pieces))
  {
    hide ConvMd5.Mostly, Digest;
    var ctx := new ConvMd5();
    var i := 0;
    while i < |pieces|
      invariant 0 <= i <= |pieces| && fresh(ctx) && fresh(ctx.buffer) && ctx.Holds(Joined(pieces[..i]))
    {
      assert pieces[..i + 1][..i] == pieces[..i];
      ctx.Update(pieces[i], Joined(pieces[..i]));
      i := i + 1;
    }
    assert pieces[..i] == pieces;
    result := new byte[16];
    ctx.Final(result, Joined(pieces));
  }
}
