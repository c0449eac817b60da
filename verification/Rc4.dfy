// RC4 with a hex rendering of the cipher text.
module Rc4 {
  import opened Lists
  import opened Options
  import opened MachineWords

  // Exclusive or, bit by bit from the low end; XorIs ties it to the machine's.
  function XorBits(a: nat, b: nat, n: nat): nat
  {
    if n == 0 then 0 else (a + b) % 2 + 2 * XorBits(a / 2, b / 2, n - 1)
  }

  lemma LowBit(a: nat, b: nat, x: nat)
    ensures var y := (a + b) % 2 + 2 * x;
      y / 2 == x && (y + b) % 2 == a % 2
  {
  }

  lemma {:induction false} XorBitsBack(a: nat, b: nat, n: nat)
    requires a < Pow2(n)
    ensures XorBits(a, b, n) < Pow2(n) && XorBits(XorBits(a, b, n), b, n) == a
  {
    if n > 0 {
      XorBitsBack(a / 2, b / 2, n - 1);
      var x := XorBits(a / 2, b / 2, n - 1);
      LowBit(a, b, x);
    }
  }

  function Xor(a: byte, b: byte): byte
  {
    assert Pow2(8) == 256;
    XorBitsBack(a, b, 8);
    XorBits(a, b, 8)
  }

  function Value(x: bv8): nat { x as int }

  lemma HalfIs(x: bv8)
    ensures Value(x / 2) == Value(x) / 2 && Value(x % 2) == Value(x) % 2
  {
  }

  lemma XorParts(x: bv8, y: bv8)
    ensures (x ^ y) % 2 == (x % 2) ^ (y % 2) && (x ^ y) / 2 == (x / 2) ^ (y / 2) && x % 2 < 2 && y % 2 < 2
  {
  }

  lemma XorOfBits(x: bv8, y: bv8)
    requires x < 2 && y < 2
    ensures Value(x ^ y) == (Value(x) + Value(y)) % 2
  {
    if x == 0 {
      assert y == 0 || y == 1;
    } else {
      assert x == 1 && x ^ y == 1 - y;
    }
  }

  lemma ValueZero(x: bv8, y: bv8)
    requires Value(x) == 0 && Value(y) == 0
    ensures Value(x ^ y) == 0
  {
    assert x == 0 && y == 0;
  }

  lemma Mods2(v: nat, w: nat)
    ensures (v % 2 + w % 2) % 2 == (v + w) % 2
  {
  }

  lemma ValueHalf(x: bv8, y: bv8)
    ensures Value(x ^ y) == (Value(x) + Value(y)) % 2 + 2 * Value((x / 2) ^ (y / 2))
  {
    hide Value;
    HalfIs(x);
    HalfIs(y);
    HalfIs(x ^ y);
    XorParts(x, y);
    XorOfBits(x % 2, y % 2);
    Mods2(Value(x), Value(y));
  }

  lemma {:induction false} XorBitsAre(x: bv8, y: bv8, n: nat)
    requires Value(x) < Pow2(n) && Value(y) < Pow2(n)
    ensures Value(x ^ y) == XorBits(Value(x), Value(y), n)
  {
    hide Value;
    if n == 0 {
      ValueZero(x, y);
    } else {
      HalfIs(x);
      HalfIs(y);
      ValueHalf(x, y);
      XorBitsAre(x / 2, y / 2, n - 1);
    }
  }

  // The exclusive or of the model is that of the machine.
  lemma XorIs(x: bv8, y: bv8)
    ensures Xor(x as int, y as int) == (x ^ y) as int
  {
    assert Pow2(8) == 256;
    XorBitsAre(x, y, 8);
  }

  lemma XorTwice(a: byte, b: byte)
    ensures Xor(Xor(a, b), b) == a
  {
    assert Pow2(8) == 256;
    XorBitsBack(a, b, 8);
  }

  // ---- the state ----

  // A rearrangement of 0..255.
  predicate Permutation(s: seq<int>)
  {
    && |s| == 256 && (forall i :: 0 <= i < 256 ==> 0 <= s[i] < 256)
    && (forall i, j :: 0 <= i < j < 256 ==> s[i] != s[j])
  }

  function Swapped(s: seq<int>, i: nat, j: nat): (t: seq<int>)
    requires i < |s| && j < |s|
    ensures |t| == |s|
  {
    s[j := s[i]][i := s[j]]
  }

  lemma SwapKeeps(s: seq<int>, i: nat, j: nat)
    requires Permutation(s) && i < 256 && j < 256
    ensures Permutation(Swapped(s, i, j))
  {
    var t := Swapped(s, i, j);
    forall a, b | 0 <= a < b < 256
      ensures t[a] != t[b]
    {
      assert t[a] == s[if a == i then j else if a == j then i else a];
      assert t[b] == s[if b == i then j else if b == j then i else b];
    }
  }

  function Identity(): (s: seq<int>)
    ensures Permutation(s) && forall i :: 0 <= i < 256 ==> s[i] == i
  {
    seq(256, i => i)
  }

  datatype State = State(s: seq<int>, i: nat, j: nat)

  predicate Good(t: State) { Permutation(t.s) && t.i < 256 && t.j < 256 }

  // The first n turns of the key schedule of RC4.
  function Scheduled(key: seq<byte>, n: nat): (t: State)
    requires key != [] && n <= 256
    ensures Good(t)
  {
    if n == 0 then State(Identity(), 0, 0)
    else
      var p, i := Scheduled(key, n - 1), n - 1;
      var j := (p.j + p.s[i] + key[i % |key|]) % 256;
      SwapKeeps(p.s, i, j);
      State(Swapped(p.s, i, j), 0, j)
  }

  // A byte read as a char.
  function Signed(b: byte): int { if b < 128 then b else b - 256 }

  // The same turns as the program takes them: with signed key bytes and the
  // remainder of C++; none for a division by zero or an index below zero.
  function Taken(key: seq<byte>, n: nat): (o: Option<State>)
    requires n <= 256
    ensures o.Some? ==> Good(o.value)
  {
    if key == [] then None
    else if n == 0 then Some(State(Identity(), 0, 0))
    else
      var o, i := Taken(key, n - 1), n - 1;
      if o.None? then None
      else
        var p := o.value;
        var j := Rem(p.j + p.s[i] + Signed(key[i % |key|]), 256);
        if j < 0 then None
        else
          SwapKeeps(p.s, i, j);
          Some(State(Swapped(p.s, i, j), 0, j))
  }

  // Turn i stays inside the table.
  predicate InTable(key: seq<byte>, i: nat)
    requires key != [] && i < 256
  {
    var p := Scheduled(key, i);
    p.j + p.s[i] + Signed(key[i % |key|]) >= 0
  }

  predicate Usable(key: seq<byte>)
  {
    key != [] && forall i :: 0 <= i < 256 ==> InTable(key, i)
  }

  lemma {:induction false} TakenEmpty(n: nat)
    requires n <= 256
    ensures Taken([], n).None?
  {
  }

  lemma TakenFirst(key: seq<byte>)
    requires key != []
    ensures Taken(key, 0) == Some(Scheduled(key, 0)) && Scheduled(key, 0) == State(Identity(), 0, 0)
  {
  }

  lemma {:induction false} TakenStays(key: seq<byte>, i: nat, n: nat)
    requires i <= n <= 256 && Taken(key, i).None?
    ensures Taken(key, n).None?
    decreases n
  {
    if i < n {
      TakenStays(key, i, n - 1);
    }
  }

  lemma SignedIndex(x: nat, b: byte)
    requires x <= 510
    ensures Rem(x + Signed(b), 256) >= 0 <==> x + Signed(b) >= 0
    ensures x + Signed(b) >= 0 ==> Rem(x + Signed(b), 256) == (x + b) % 256
  {
  }

  lemma TakenTurn(key: seq<byte>, i: nat)
    requires key != [] && i < 256 && Taken(key, i) == Some(Scheduled(key, i))
    ensures Taken(key, i + 1).Some? <==> InTable(key, i)
    ensures Taken(key, i + 1).Some? ==> Taken(key, i + 1).value == Scheduled(key, i + 1)
  {
    hide Rem, Signed, Swapped;
    var p := Scheduled(key, i);
    SignedIndex(p.j + p.s[i], key[i % |key|]);
  }

  // The program computes the schedule of RC4 if and only if every turn stays
  // inside the table; else an index is negative.
  lemma {:induction false} TakenIs(key: seq<byte>, n: nat)
    requires n <= 256
    ensures Taken(key, n).Some? <==> key != [] && forall i :: 0 <= i < n ==> InTable(key, i)
    ensures Taken(key, n).Some? ==> Taken(key, n).value == Scheduled(key, n)
  {
    hide InTable, Scheduled, Taken;
    if key == [] {
      TakenEmpty(n);
    } else if n == 0 {
      TakenFirst(key);
    } else {
      TakenIs(key, n - 1);
      if Taken(key, n - 1).Some? {
        TakenTurn(key, n - 1);
      } else {
        TakenStays(key, n - 1, n);
      }
    }
  }

  // The whole schedule: which keys the program can use.
  lemma UsableIs(key: seq<byte>)
    ensures Usable(key) <==> Taken(key, 256).Some?
    ensures Usable(key) ==> Taken(key, 256).value == Scheduled(key, 256)
  {
    TakenIs(key, 256);
  }

  lemma WithinKey(i: nat, n: nat)
    requires n > 0
    ensures i % n <= i && i % n < n
  {
  }

  // Only the first 256 bytes of a key are read, and bytes below 128 are safe; a
  // first byte that is not makes the first index negative.
  lemma UsableKeys(key: seq<byte>)
    requires key != []
    ensures (forall k :: 0 <= k < |key| && k < 256 ==> key[k] < 128) ==> Usable(key)
    ensures key[0] >= 128 ==> !Usable(key)
  {
    if forall k :: 0 <= k < |key| && k < 256 ==> key[k] < 128 {
      forall i | 0 <= i < 256
        ensures InTable(key, i)
      {
        WithinKey(i, |key|);
      }
    }
    assert Scheduled(key, 0) == State(Identity(), 0, 0);
    assert InTable(key, 0) <==> Signed(key[0]) >= 0;
  }

  // The 0 of the table stands in front of place n.
  predicate ZeroPassed(s: seq<int>, n: nat) { exists p :: 0 <= p < n && p < |s| && s[p] == 0 }

  lemma ZeroStays(s: seq<int>, i: nat, j: nat)
    requires |s| == 256 && i < 256 && j < 256 && ZeroPassed(s, i)
    ensures ZeroPassed(Swapped(s, i, j), i + 1)
  {
    var p :| 0 <= p < i && s[p] == 0;
    assert Swapped(s, i, j)[if p == j then i else p] == 0;
  }

  // In the schedule of this key it has been passed after two turns.
  lemma {:induction false} ZeroBehind(n: nat)
    requires 2 <= n <= 256
    ensures ZeroPassed(Scheduled([1, 255], n).s, n)
  {
    var key: seq<byte> := [1, 255];
    if n == 2 {
      TakenFirst(key);
      assert Scheduled(key, 1) == State(Swapped(Identity(), 0, 1), 0, 1);
      assert Scheduled(key, 2).s == Swapped(Swapped(Identity(), 0, 1), 1, 0);
      assert Scheduled(key, 2).s[0] == 0;
    } else {
      ZeroBehind(n - 1);
      var p := Scheduled(key, n - 1);
      ZeroStays(p.s, n - 1, Scheduled(key, n).j);
    }
  }

  lemma LargeTurn(i: nat)
    requires i < 256
    ensures InTable([1, 255], i)
  {
    var key: seq<byte> := [1, 255];
    if i < 2 {
      TakenFirst(key);
      assert Scheduled(key, 1) == State(Swapped(Identity(), 0, 1), 0, 1);
    } else {
      hide Scheduled;
      ZeroBehind(i);
      var s := Scheduled(key, i).s;
      var p :| 0 <= p < i && p < |s| && s[p] == 0;
      assert s[p] != s[i];
    }
  }

  // A large byte does no harm where the index before it is large enough: the
  // second byte of the first key counts as -1.  In front it is fatal.
  lemma LargeByte()
    ensures Usable([1, 255]) && !Usable([255, 1])
  {
    forall i | 0 <= i < 256
      ensures InTable([1, 255], i)
    {
      LargeTurn(i);
    }
    UsableKeys([255, 1]);
  }

  // The state after n bytes have been produced.
  function Generated(key: seq<byte>, n: nat): (t: State)
    requires key != []
    ensures Good(t)
  {
    if n == 0 then State(Scheduled(key, 256).s, 0, 0)
    else
      var p := Generated(key, n - 1);
      var i := (p.i + 1) % 256;
      var j := (p.j + p.s[i]) % 256;
      SwapKeeps(p.s, i, j);
      State(Swapped(p.s, i, j), i, j)
  }

  // The n-th byte that is mixed in, n from 0.
  function KeyByte(key: seq<byte>, n: nat): byte
    requires key != []
  {
    var t := Generated(key, n + 1);
    t.s[(t.s[t.i] + t.s[t.j]) % 256]
  }

  function Mixed(key: seq<byte>, m: seq<byte>): (c: seq<byte>)
    requires key != []
    ensures |c| == |m|
  {
    seq(|m|, p requires 0 <= p < |m| => Xor(m[p], KeyByte(key, p)))
  }

  // Mixing twice is mixing not at all.
  lemma MixedTwice(key: seq<byte>, m: seq<byte>)
    requires key != []
    ensures Mixed(key, Mixed(key, m)) == m
  {
    forall p | 0 <= p < |m|
      ensures Mixed(key, Mixed(key, m))[p] == m[p]
    {
      XorTwice(m[p], KeyByte(key, p));
    }
  }

  // ---- hex ----

  function HexDigit(d: int): byte
    requires 0 <= d < 16
  {
    if d > 9 then d - 10 + 65 else d + 48
  }

  function Hex(m: seq<byte>): (h: seq<byte>)
    ensures |h| == 2 * |m|
  {
    seq(2 * |m|, k requires 0 <= k < 2 * |m| => HexDigit(if k % 2 == 0 then m[k / 2] / 16 else m[k / 2] % 16))
  }

  function Digit(c: byte): int { if c >= 65 then c - 65 + 10 else c - 48 }

  function Unhex(h: seq<byte>): (m: seq<byte>)
    ensures |m| == |h| / 2
  {
    seq(|h| / 2, k requires 0 <= k < |h| / 2 => (Digit(h[2 * k]) * 16 + Digit(h[2 * k + 1])) % 256)
  }

  lemma HexAt(m: seq<byte>, k: nat)
    requires k < |m|
    ensures Hex(m)[2 * k] == HexDigit(m[k] / 16) && Hex(m)[2 * k + 1] == HexDigit(m[k] % 16)
    ensures Hex(m)[2 * k] == "0123456789ABCDEF"[m[k] / 16] as int
    ensures Hex(m)[2 * k + 1] == "0123456789ABCDEF"[m[k] % 16] as int
  {
    assert (2 * k) % 2 == 0 && (2 * k) / 2 == k && (2 * k + 1) % 2 == 1 && (2 * k + 1) / 2 == k;
  }

  lemma DigitBack(d: int)
    requires 0 <= d < 16
    ensures Digit(HexDigit(d)) == d
  {
  }

  lemma UnhexAt(m: seq<byte>, k: nat)
    requires k < |m|
    ensures Unhex(Hex(m))[k] == m[k]
  {
    hide Hex, HexDigit, Digit;
    HexAt(m, k);
    DigitBack(m[k] / 16);
    DigitBack(m[k] % 16);
    assert m[k] == m[k] / 16 * 16 + m[k] % 16;
  }

  lemma UnhexHex(m: seq<byte>)
    ensures Unhex(Hex(m)) == m
  {
    hide Hex, Unhex;
    forall k | 0 <= k < |m|
      ensures Unhex(Hex(m))[k] == m[k]
    {
      UnhexAt(m, k);
    }
  }

  // ---- the program ----

  lemma InRange(s: seq<int>, i: nat)
    requires Permutation(s) && i < 256
    ensures |s| == 256 && 0 <= s[i] < 256
  {
  }

  lemma TakenNone(key: seq<byte>, s: seq<int>)
    requires |s| == 256 && forall i :: 0 <= i < 256 ==> s[i] == i
    ensures key != [] ==> Taken(key, 0) == Some(State(s, 0, 0))
  {
    assert s == Identity();
  }

  lemma TakenStep(key: seq<byte>, i: nat)
    requires i < 256 && Taken(key, i).Some?
    ensures var p := Taken(key, i).value;
      && key != [] && Good(p) && 0 <= p.s[i] < 256 && var j := Rem(p.j + p.s[i] + Signed(key[i % |key|]), 256);
      Taken(key, i + 1) == (if j < 0 then None else Some(State(Swapped(p.s, i, j), 0, j))) && j < 256
  {
  }

  lemma GeneratedNone(key: seq<byte>)
    requires key != []
    ensures Generated(key, 0) == State(Scheduled(key, 256).s, 0, 0)
  {
  }

  lemma GeneratedStep(key: seq<byte>, n: nat)
    requires key != []
    ensures var p := Generated(key, n);
      var i := (p.i + 1) % 256;
      && Good(p) && p.s[i] >= 0 && Good(Generated(key, n + 1))
      && Generated(key, n + 1) == State(Swapped(p.s, i, (p.j + p.s[i]) % 256), i, (p.j + p.s[i]) % 256)
  {
  }

  lemma KeyByteIs(key: seq<byte>, n: nat)
    requires key != []
    ensures var t := Generated(key, n + 1);
      Good(t) && 0 <= (t.s[t.i] + t.s[t.j]) % 256 && KeyByte(key, n) == t.s[(t.s[t.i] + t.s[t.j]) % 256]
  {
  }

  lemma Exchanged(s: seq<int>, i: nat, j: nat)
    requires Permutation(s) && i < 256 && j < 256
    ensures var t := Swapped(s, i, j);
      && |t| == |s| == 256 && t[i] == s[j] && t[j] == s[i]
      && forall k :: 0 <= k < 256 && k != i && k != j ==> t[k] == s[k]
  {
  }

  // The key schedule as RC4 is described: the index and the exchange.
  lemma ScheduleIsRc4(key: seq<byte>, i: nat)
    requires key != [] && i < 256
    ensures var s, t := Scheduled(key, i), Scheduled(key, i + 1);
      && (i == 0 ==> s.j == 0 && forall k :: 0 <= k < 256 ==> s.s[k] == k)
      && t.j == (s.j + s.s[i] + key[i % |key|]) % 256 && t.s[i] == s.s[t.j] && t.s[t.j] == s.s[i]
      && forall k :: 0 <= k < 256 && k != i && k != t.j ==> t.s[k] == s.s[k]
  {
    hide Permutation, Swapped;
    var s := Scheduled(key, i);
    InRange(s.s, i);
    Exchanged(s.s, i, Scheduled(key, i + 1).j);
  }

  lemma {:induction false} IndexIs(key: seq<byte>, n: nat)
    requires key != []
    ensures Generated(key, n).i == n % 256
  {
    hide Generated, Scheduled, Permutation, Swapped;
    if n == 0 {
      GeneratedNone(key);
    } else {
      IndexIs(key, n - 1);
      GeneratedStep(key, n - 1);
    }
  }

  // The stream: its index, its exchange, and the byte that goes with n.
  lemma StreamIsRc4(key: seq<byte>, n: nat)
    requires key != []
    ensures Generated(key, 0) == State(Scheduled(key, 256).s, 0, 0)
    ensures var s, t := Generated(key, n), Generated(key, n + 1);
      && t.i == (n + 1) % 256 && t.j == (s.j + s.s[t.i]) % 256 && t.s[t.i] == s.s[t.j] && t.s[t.j] == s.s[t.i]
      && (forall k :: 0 <= k < 256 && k != t.i && k != t.j ==> t.s[k] == s.s[k])
      && 0 <= t.s[t.i] + t.s[t.j] && KeyByte(key, n) == t.s[(t.s[t.i] + t.s[t.j]) % 256]
  {
    hide Generated, Scheduled, Permutation, Swapped, KeyByte;
    var s, t := Generated(key, n), Generated(key, n + 1);
    GeneratedNone(key);
    GeneratedStep(key, n);
    IndexIs(key, n + 1);
    InRange(t.s, t.i);
    InRange(t.s, t.j);
    Exchanged(s.s, t.i, t.j);
    KeyByteIs(key, n);
  }

  // Each byte is mixed with its byte of the stream by the machine's exclusive or.
  lemma MixedIs(key: seq<byte>, m: seq<byte>, n: nat, x: bv8, y: bv8)
    requires key != [] && n < |m| && m[n] == x as int && KeyByte(key, n) == y as int
    ensures Mixed(key, m)[n] == (x ^ y) as int
  {
    hide KeyByte, Xor;
    XorIs(x, y);
  }

  method SwapIn(s: array<int>, i: nat, j: nat)
    requires i < s.Length && j < s.Length
    modifies s
    ensures s[..] == Swapped(old(s[..]), i, j)
  {
    var tmp := s[j];
    s[j] := s[i];
    s[i] := tmp;
  }

  // The first loops of conv_rc4_to_rc4; ok is false for a division by zero or an
  // index below zero.
  method Schedule(key: seq<byte>) returns (ok: bool, s: array<int>)
    ensures fresh(s) && s.Length == 256 && (ok <==> Taken(key, 256).Some?)
    ensures ok ==> s[..] == Taken(key, 256).value.s
  {
    hide Taken, Permutation, Signed, Rem;
    s := new int[256](i => i);
    TakenNone(key, s[..]);
    if key == [] {
      TakenEmpty(256);
      return false, s;
    }
    var t := new int[256](i requires 0 <= i < 256 => Signed(key[i % |key|]));
    var i, j := 0, 0;
    while i < 256
      invariant 0 <= i <= 256 && 0 <= j < 256
      invariant Taken(key, i) == Some(State(s[..], 0, j))
      modifies s
    {
      TakenStep(key, i);
      j := Rem(j + s[i] + t[i], 256);
      if j < 0 {
        TakenStays(key, i + 1, 256);
        return false, s;
      }
      SwapIn(s, i, j);
      i := i + 1;
    }
    ok := true;
  }

  lemma KeyThere(key: seq<byte>)
    requires Usable(key)
    ensures key != []
  {
  }

  // conv_rc4_to_rc4.
  method ToRc4(key: seq<byte>, chs: array<byte>) returns (ok: bool)
    modifies chs
    ensures ok <==> Usable(key)
    ensures ok ==> chs[..] == Mixed(key, old(chs[..]))
  {
    hide Scheduled, Taken, Generated, Permutation, Usable, KeyByte, Swapped, Signed, XorBits;
    ghost var m := chs[..];
    UsableIs(key);
    var s;
    ok, s := Schedule(key);
    if !ok {
      return;
    }
    KeyThere(key);
    var i, j := 0, 0;
    GeneratedNone(key);
    var p := 0;
    while p < chs.Length
      invariant 0 <= p <= chs.Length && fresh(s) && s.Length == 256
      invariant Generated(key, p) == State(s[..], i, j)
      invariant forall k :: 0 <= k < p ==> chs[k] == Mixed(key, m)[k]
      invariant forall k :: p <= k < chs.Length ==> chs[k] == m[k]
    {
      GeneratedStep(key, p);
      InRange(s[..], (i + 1) % 256);
      i := (i + 1) % 256;
      j := (j + s[i]) % 256;
      SwapIn(s, i, j);
      KeyByteIs(key, p);
      InRange(s[..], i);
      InRange(s[..], j);
      InRange(s[..], (s[i] + s[j]) % 256);
      var k := s[(s[i] + s[j]) % 256];
      chs[p] := Xor(chs[p], k);
      p := p + 1;
    }
    assert chs[..] == Mixed(key, m);
  }

  // conv_rc4_encode and conv_rc4_decode.
  method Encode(key: seq<byte>, chs: array<byte>, hex: array<byte>) returns (ok: bool)
    requires hex.Length >= 2 * chs.Length && hex != chs
    modifies chs, hex
    ensures ok <==> Usable(key)
    ensures ok ==> hex[..2 * chs.Length] == Hex(Mixed(key, old(chs[..])))
  {
    hide Mixed, Usable;
    ok := ToRc4(key, chs);
    if !ok {
      return;
    }
    KeyThere(key);
    var i := 0;
    while i < chs.Length
      invariant 0 <= i <= chs.Length
      invariant forall k :: 0 <= k < 2 * i ==> hex[k] == Hex(chs[..])[k]
      modifies hex
    {
      hex[2 * i] := HexDigit(chs[i] / 16);
      hex[2 * i + 1] := HexDigit(chs[i] % 16);
      i := i + 1;
    }
  }

  method Decode(key: seq<byte>, chs: array<byte>, hex: array<byte>) returns (ok: bool)
    requires chs.Length == hex.Length / 2 && hex != chs
    modifies chs
    ensures ok <==> Usable(key)
    ensures ok ==> chs[..] == Mixed(key, Unhex(hex[..]))
  {
    hide Mixed, Usable;
    var i := 0;
    while i < hex.Length / 2
      invariant 0 <= i <= hex.Length / 2
      invariant forall k :: 0 <= k < i ==> chs[k] == Unhex(hex[..])[k]
      modifies chs
    {
      chs[i] := (Digit(hex[2 * i]) * 16 + Digit(hex[2 * i + 1])) % 256;
      i := i + 1;
    }
    assert chs[..] == Unhex(hex[..]);
    ok := ToRc4(key, chs);
    if ok {
      KeyThere(key);
    }
  }

  // With every key that keeps the schedule inside its table, decoding what was
  // encoded gives the message; no other key gets that far.
  method EncodeDecode(key: seq<byte>, m: seq<byte>) returns (ok: bool, back: array<byte>)
    ensures ok <==> Usable(key)
    ensures ok ==> back[..] == m
  {
    hide Mixed, Usable, Hex, Unhex;
    var chs := new byte[|m|](i requires 0 <= i < |m| => m[i]);
    assert chs[..] == m;
    var hex := new byte[2 * |m|];
    back := new byte[|m|];
    ok := Encode(key, chs, hex);
    if !ok {
      return;
    }
    KeyThere(key);
    assert hex[..] == hex[..2 * chs.Length];
    UnhexHex(Mixed(key, m));
    MixedTwice(key, m);
    ok := Decode(key, back, hex);
  }
}
