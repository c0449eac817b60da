// MD5: the unrolled rounds of the program against the steps of RFC 1321.
module Md5Block {
  import opened Lists
  import opened MachineWords

  type word = x: int | 0 <= x < 0x1_0000_0000

  // ---- section 3.4 of RFC 1321 ----

  function RfcF(x: bv32, y: bv32, z: bv32): bv32 { (x & y) | (!x & z) }

  function RfcG(x: bv32, y: bv32, z: bv32): bv32 { (x & z) | (y & !z) }

  function RfcH(x: bv32, y: bv32, z: bv32): bv32 { x ^ y ^ z }

  function RfcI(x: bv32, y: bv32, z: bv32): bv32 { y ^ (x | !z) }

  // The rewritten forms of the program.
  function CodeF(x: bv32, y: bv32, z: bv32): bv32 { z ^ (x & (y ^ z)) }

  function CodeG(x: bv32, y: bv32, z: bv32): bv32 { y ^ (z & (x ^ y)) }

  lemma FAgrees(x: bv32, y: bv32, z: bv32)
    ensures z ^ (x & (y ^ z)) == (x & y) | (!x & z)
  {
  }

  lemma GAgrees(x: bv32, y: bv32, z: bv32)
    ensures y ^ (z & (x ^ y)) == (x & z) | (y & !z)
  {
  }

  lemma RewrittenAgree(x: bv32, y: bv32, z: bv32)
    ensures CodeF(x, y, z) == RfcF(x, y, z)
    ensures CodeG(x, y, z) == RfcG(x, y, z)
  {
    FAgrees(x, y, z);
    GAgrees(x, y, z);
  }

  // The four functions as the RFC writes them.
  lemma FIs(x: bv32, y: bv32, z: bv32)
    ensures RfcF(x, y, z) == (x & y) | (!x & z)
  {
  }

  lemma GIs(x: bv32, y: bv32, z: bv32)
    ensures RfcG(x, y, z) == (x & z) | (y & !z)
  {
  }

  lemma HIs(x: bv32, y: bv32, z: bv32)
    ensures RfcH(x, y, z) == x ^ y ^ z
  {
  }

  lemma IIs(x: bv32, y: bv32, z: bv32)
    ensures RfcI(x, y, z) == y ^ (x | !z)
  {
  }

  function RfcMix(round: nat, x: word, y: word, z: word): word
  {
    var u, v, w := x as bv32, y as bv32, z as bv32;
    (match round case 0 => RfcF(u, v, w) case 1 => RfcG(u, v, w) case 2 => RfcH(u, v, w) case _ => RfcI(u, v, w)) as int
  }

  // They belong to the rounds in this order.
  lemma MixesInOrder(x: word, y: word, z: word)
    ensures RfcMix(0, x, y, z) == RfcF(x as bv32, y as bv32, z as bv32) as int
    ensures RfcMix(1, x, y, z) == RfcG(x as bv32, y as bv32, z as bv32) as int
    ensures RfcMix(2, x, y, z) == RfcH(x as bv32, y as bv32, z as bv32) as int
    ensures RfcMix(3, x, y, z) == RfcI(x as bv32, y as bv32, z as bv32) as int
  {
    hide RfcF, RfcG, RfcH, RfcI;
  }

  function CodeMix(round: nat, x: word, y: word, z: word): word
  {
    var u, v, w := x as bv32, y as bv32, z as bv32;
    (match round
     case 0 => CodeF(u, v, w)
     case 1 => CodeG(u, v, w)
     case 2 => RfcH(u, v, w)
     case _ => RfcI(u, v, w)) as int
  }

  function Plus(x: word, y: word): word { (x + y) % 0x1_0000_0000 }

  lemma PlusAssoc(x: word, y: word, z: word)
    ensures Plus(Plus(x, y), z) == Plus(x, Plus(y, z)) && Plus(x, y) == Plus(y, x)
  {
  }

  // Rotation to the left; the shifts of 32-bit words as arithmetic.
  function Rotl(x: word, s: nat): word
    requires 0 < s < 32
  {
    (x * Pow2(s) + x / Pow2(32 - s)) % 0x1_0000_0000
  }

  lemma Powers()
    ensures Pow2(4) == 0x10
    ensures Pow2(5) == 0x20
    ensures Pow2(6) == 0x40
    ensures Pow2(7) == 0x80
    ensures Pow2(9) == 0x200
    ensures Pow2(10) == 0x400
    ensures Pow2(11) == 0x800
    ensures Pow2(12) == 0x1000
    ensures Pow2(14) == 0x4000
    ensures Pow2(15) == 0x8000
    ensures Pow2(16) == 0x1_0000
    ensures Pow2(17) == 0x2_0000
    ensures Pow2(18) == 0x4_0000
    ensures Pow2(20) == 0x10_0000
    ensures Pow2(21) == 0x20_0000
    ensures Pow2(22) == 0x40_0000
    ensures Pow2(23) == 0x80_0000
    ensures Pow2(25) == 0x200_0000
    ensures Pow2(26) == 0x400_0000
    ensures Pow2(27) == 0x800_0000
    ensures Pow2(28) == 0x1000_0000
  {
    assert Pow2(0) == 1;
    assert Pow2(1) == 2 * Pow2(0);
    assert Pow2(2) == 2 * Pow2(1);
    assert Pow2(3) == 2 * Pow2(2);
    assert Pow2(4) == 2 * Pow2(3);
    assert Pow2(5) == 2 * Pow2(4);
    assert Pow2(6) == 2 * Pow2(5);
    assert Pow2(7) == 2 * Pow2(6);
    assert Pow2(8) == 2 * Pow2(7);
    assert Pow2(9) == 2 * Pow2(8);
    assert Pow2(10) == 2 * Pow2(9);
    assert Pow2(11) == 2 * Pow2(10);
    assert Pow2(12) == 2 * Pow2(11);
    assert Pow2(13) == 2 * Pow2(12);
    assert Pow2(14) == 2 * Pow2(13);
    assert Pow2(15) == 2 * Pow2(14);
    assert Pow2(16) == 2 * Pow2(15);
    assert Pow2(17) == 2 * Pow2(16);
    assert Pow2(18) == 2 * Pow2(17);
    assert Pow2(19) == 2 * Pow2(18);
    assert Pow2(20) == 2 * Pow2(19);
    assert Pow2(21) == 2 * Pow2(20);
    assert Pow2(22) == 2 * Pow2(21);
    assert Pow2(23) == 2 * Pow2(22);
    assert Pow2(24) == 2 * Pow2(23);
    assert Pow2(25) == 2 * Pow2(24);
    assert Pow2(26) == 2 * Pow2(25);
    assert Pow2(27) == 2 * Pow2(26);
    assert Pow2(28) == 2 * Pow2(27);
  }

  // The rotation line of the program for the amounts of each round: the or is a
  // sum, and each shift a product or a quotient, as in RotlPowers.
  lemma RotlIsShifts1(a: bv32)
    ensures (a << 7) | (a >> 25) == (a << 7) + (a >> 25)
    ensures (a << 12) | (a >> 20) == (a << 12) + (a >> 20)
    ensures (a << 17) | (a >> 15) == (a << 17) + (a >> 15)
    ensures (a << 22) | (a >> 10) == (a << 22) + (a >> 10)
    ensures a << 7 == a * 0x80 && a >> 25 == a / 0x200_0000
    ensures a << 12 == a * 0x1000 && a >> 20 == a / 0x10_0000
    ensures a << 17 == a * 0x2_0000 && a >> 15 == a / 0x8000
    ensures a << 22 == a * 0x40_0000 && a >> 10 == a / 0x400
  {
  }

  lemma RotlIsShifts2(a: bv32)
    ensures (a << 5) | (a >> 27) == (a << 5) + (a >> 27)
    ensures (a << 9) | (a >> 23) == (a << 9) + (a >> 23)
    ensures (a << 14) | (a >> 18) == (a << 14) + (a >> 18)
    ensures (a << 20) | (a >> 12) == (a << 20) + (a >> 12)
    ensures a << 5 == a * 0x20 && a >> 27 == a / 0x800_0000
    ensures a << 9 == a * 0x200 && a >> 23 == a / 0x80_0000
    ensures a << 14 == a * 0x4000 && a >> 18 == a / 0x4_0000
    ensures a << 20 == a * 0x10_0000 && a >> 12 == a / 0x1000
  {
  }

  lemma RotlIsShifts3(a: bv32)
    ensures (a << 4) | (a >> 28) == (a << 4) + (a >> 28)
    ensures (a << 11) | (a >> 21) == (a << 11) + (a >> 21)
    ensures (a << 16) | (a >> 16) == (a << 16) + (a >> 16)
    ensures (a << 23) | (a >> 9) == (a << 23) + (a >> 9)
    ensures a << 4 == a * 0x10 && a >> 28 == a / 0x1000_0000
    ensures a << 11 == a * 0x800 && a >> 21 == a / 0x20_0000
    ensures a << 16 == a * 0x1_0000 && a >> 16 == a / 0x1_0000
    ensures a << 23 == a * 0x80_0000 && a >> 9 == a / 0x200
  {
  }

  lemma RotlIsShifts4(a: bv32)
    ensures (a << 6) | (a >> 26) == (a << 6) + (a >> 26)
    ensures (a << 10) | (a >> 22) == (a << 10) + (a >> 22)
    ensures (a << 15) | (a >> 17) == (a << 15) + (a >> 17)
    ensures (a << 21) | (a >> 11) == (a << 21) + (a >> 11)
    ensures a << 6 == a * 0x40 && a >> 26 == a / 0x400_0000
    ensures a << 10 == a * 0x400 && a >> 22 == a / 0x40_0000
    ensures a << 15 == a * 0x8000 && a >> 17 == a / 0x2_0000
    ensures a << 21 == a * 0x20_0000 && a >> 11 == a / 0x800
  {
  }

  lemma RotlPowers(x: word)
    ensures Rotl(x, 7) == (x * 0x80 + x / 0x200_0000) % 0x1_0000_0000
    ensures Rotl(x, 12) == (x * 0x1000 + x / 0x10_0000) % 0x1_0000_0000
    ensures Rotl(x, 17) == (x * 0x2_0000 + x / 0x8000) % 0x1_0000_0000
    ensures Rotl(x, 22) == (x * 0x40_0000 + x / 0x400) % 0x1_0000_0000
    ensures Rotl(x, 5) == (x * 0x20 + x / 0x800_0000) % 0x1_0000_0000
    ensures Rotl(x, 9) == (x * 0x200 + x / 0x80_0000) % 0x1_0000_0000
    ensures Rotl(x, 14) == (x * 0x4000 + x / 0x4_0000) % 0x1_0000_0000
    ensures Rotl(x, 20) == (x * 0x10_0000 + x / 0x1000) % 0x1_0000_0000
    ensures Rotl(x, 4) == (x * 0x10 + x / 0x1000_0000) % 0x1_0000_0000
    ensures Rotl(x, 11) == (x * 0x800 + x / 0x20_0000) % 0x1_0000_0000
    ensures Rotl(x, 16) == (x * 0x1_0000 + x / 0x1_0000) % 0x1_0000_0000
    ensures Rotl(x, 23) == (x * 0x80_0000 + x / 0x200) % 0x1_0000_0000
    ensures Rotl(x, 6) == (x * 0x40 + x / 0x400_0000) % 0x1_0000_0000
    ensures Rotl(x, 10) == (x * 0x400 + x / 0x40_0000) % 0x1_0000_0000
    ensures Rotl(x, 15) == (x * 0x8000 + x / 0x2_0000) % 0x1_0000_0000
    ensures Rotl(x, 21) == (x * 0x20_0000 + x / 0x800) % 0x1_0000_0000
  {
    Powers();
  }

  function RfcStep(round: nat, a: word, b: word, c: word, d: word, x: word, t: word, s: nat): word
    requires 0 < s < 32
  {
    Plus(b, Rotl(Plus(Plus(Plus(a, RfcMix(round, b, c, d)), x), t), s))
  }

  // The macro of the program: the sum, the rotation, and the sum with b.
  function Step(round: nat, a: word, b: word, c: word, d: word, x: word, t: word, s: nat): word
    requires 0 < s < 32
  {
    Plus(Rotl(Plus(a, Plus(Plus(CodeMix(round, b, c, d), x), t)), s), b)
  }

  lemma MixAgree(round: nat, x: word, y: word, z: word)
    ensures CodeMix(round, x, y, z) == RfcMix(round, x, y, z)
  {
    RewrittenAgree(x as bv32, y as bv32, z as bv32);
  }

  lemma StepIsRfc(round: nat, a: word, b: word, c: word, d: word, x: word, t: word, s: nat)
    requires 0 < s < 32
    ensures Step(round, a, b, c, d, x, t, s) == RfcStep(round, a, b, c, d, x, t, s)
  {
    hide CodeMix, RfcMix, Rotl, Plus;
    MixAgree(round, b, c, d);
    var m := RfcMix(round, b, c, d);
    PlusAssoc(a, m, x);
    PlusAssoc(a, Plus(m, x), t);
    PlusAssoc(b, Rotl(Plus(Plus(Plus(a, m), x), t), s), 0);
  }

  datatype Regs = Regs(a: word, b: word, c: word, d: word)

  const T1: seq<word> := [
    0xd76a_a478, 0xe8c7_b756, 0x2420_70db, 0xc1bd_ceee,
    0xf57c_0faf, 0x4787_c62a, 0xa830_4613, 0xfd46_9501]
  const T2: seq<word> := [
    0x6980_98d8, 0x8b44_f7af, 0xffff_5bb1, 0x895c_d7be,
    0x6b90_1122, 0xfd98_7193, 0xa679_438e, 0x49b4_0821]
  const T3: seq<word> := [
    0xf61e_2562, 0xc040_b340, 0x265e_5a51, 0xe9b6_c7aa,
    0xd62f_105d, 0x0244_1453, 0xd8a1_e681, 0xe7d3_fbc8]
  const T4: seq<word> := [
    0x21e1_cde6, 0xc337_07d6, 0xf4d5_0d87, 0x455a_14ed,
    0xa9e3_e905, 0xfcef_a3f8, 0x676f_02d9, 0x8d2a_4c8a]
  const T5: seq<word> := [
    0xfffa_3942, 0x8771_f681, 0x6d9d_6122, 0xfde5_380c,
    0xa4be_ea44, 0x4bde_cfa9, 0xf6bb_4b60, 0xbebf_bc70]
  const T6: seq<word> := [
    0x289b_7ec6, 0xeaa1_27fa, 0xd4ef_3085, 0x0488_1d05,
    0xd9d4_d039, 0xe6db_99e5, 0x1fa2_7cf8, 0xc4ac_5665]
  const T7: seq<word> := [
    0xf429_2244, 0x432a_ff97, 0xab94_23a7, 0xfc93_a039,
    0x655b_59c3, 0x8f0c_cc92, 0xffef_f47d, 0x8584_5dd1]
  const T8: seq<word> := [
    0x6fa8_7e4f, 0xfe2c_e6e0, 0xa301_4314, 0x4e08_11a1,
    0xf753_7e82, 0xbd3a_f235, 0x2ad7_d2bb, 0xeb86_d391]

  // The table of 64 constants, the word that step i takes, and its rotation.
  function T(i: nat): word
    requires i < 64
  {
    if i < 32 then
      if i < 8 then T1[i] else if i < 16 then T2[i - 8] else if i < 24 then T3[i - 16] else T4[i - 24]
    else
      if i < 40 then T5[i - 32] else if i < 48 then T6[i - 40] else if i < 56 then T7[i - 48] else T8[i - 56]
  }

  function K(i: nat): (k: nat)
    ensures k < 16
  {
    if i < 16 then i else if i < 32 then (5 * i + 1) % 16 else if i < 48 then (3 * i + 5) % 16 else (7 * i) % 16
  }

  function Amount(i: nat): (s: nat)
    ensures 0 < s < 32
  {
    var m := i % 4;
    if i < 16 then (if m == 0 then 7 else if m == 1 then 12 else if m == 2 then 17 else 22)
    else if i < 32 then (if m == 0 then 5 else if m == 1 then 9 else if m == 2 then 14 else 20)
    else if i < 48 then (if m == 0 then 4 else if m == 1 then 11 else if m == 2 then 16 else 23)
    else (if m == 0 then 6 else if m == 1 then 10 else if m == 2 then 15 else 21)
  }

  // The words in the order of section 3.4, round by round.
  lemma WordsInOrder(i: nat)
    requires i < 16
    ensures K(i) == i
    ensures K(16 + i) == [1, 6, 11, 0, 5, 10, 15, 4, 9, 14, 3, 8, 13, 2, 7, 12][i]
    ensures K(32 + i) == [5, 8, 11, 14, 1, 4, 7, 10, 13, 0, 3, 6, 9, 12, 15, 2][i]
    ensures K(48 + i) == [0, 7, 14, 5, 12, 3, 10, 1, 8, 15, 6, 13, 4, 11, 2, 9][i]
  {
  }

  // And the amounts.
  lemma AmountsInOrder(n: nat, i: nat)
    requires n < 4 && i < 4
    ensures Amount(4 * n + i) == [7, 12, 17, 22][i] && Amount(16 + 4 * n + i) == [5, 9, 14, 20][i]
    ensures Amount(32 + 4 * n + i) == [4, 11, 16, 23][i] && Amount(48 + 4 * n + i) == [6, 10, 15, 21][i]
  {
    assert (4 * n + i) % 4 == i && (16 + 4 * n + i) % 4 == i && (32 + 4 * n + i) % 4 == i && (48 + 4 * n + i) % 4 == i;
  }

  // The first k of the 64 steps on a block x; the registers change roles in turn.
  function RunSteps(r: Regs, x: seq<word>, k: nat): Regs
    requires |x| == 16 && k <= 64
  {
    if k == 0 then r
    else
      var p, i := RunSteps(r, x, k - 1), k - 1;
      Regs(p.d, RfcStep(i / 16, p.a, p.b, p.c, p.d, x[K(i)], T(i), Amount(i)), p.b, p.c)
  }

  lemma SumOfFour(a: word, m: word, x: word, t: word)
    ensures Plus(Plus(Plus(a, m), x), t) == (a + m + x + t) % 0x1_0000_0000
  {
  }

  lemma NextStep(r: Regs, x: seq<word>, k: nat)
    requires |x| == 16 && k < 64
    ensures var p := RunSteps(r, x, k);
      RunSteps(r, x, k + 1)
      == Regs(p.d, RfcStep(k / 16, p.a, p.b, p.c, p.d, x[K(k)], T(k), Amount(k)), p.b, p.c)
    ensures RunSteps(r, x, 0) == r
  {
    hide RfcStep, K, T, Amount;
  }

  // One operation with its exchange of roles, as section 3.4 has it:
  // a = b + ((a + mix(b, c, d) + X[k] + T[i]) <<< s).
  lemma OperationIsRfc(r: Regs, x: seq<word>, k: nat)
    requires |x| == 16 && k < 64
    ensures var p, o := RunSteps(r, x, k), RunSteps(r, x, k + 1);
      var sum := (p.a + RfcMix(k / 16, p.b, p.c, p.d) + x[K(k)] + T(k)) % 0x1_0000_0000;
      && o.a == p.d && o.b == (p.b + Rotl(sum, Amount(k))) % 0x1_0000_0000 && o.c == p.b && o.d == p.c
    ensures RunSteps(r, x, 0) == r
  {
    hide RfcMix, Rotl, K, T, Amount, RunSteps;
    NextStep(r, x, k);
    var p := RunSteps(r, x, k);
    SumOfFour(p.a, RfcMix(k / 16, p.b, p.c, p.d), x[K(k)], T(k));
  }

  function Compressed(r: Regs, x: seq<word>): Regs
    requires |x| == 16
  {
    var o := RunSteps(r, x, 64);
    Regs(Plus(o.a, r.a), Plus(o.b, r.b), Plus(o.c, r.c), Plus(o.d, r.d))
  }

  // ---- the rounds as the program writes them ----

  lemma Turn(g: Regs, x: seq<word>, k: nat, a: word, b: word, c: word, d: word)
    requires |x| == 16 && k < 64 && RunSteps(g, x, k) == Regs(a, b, c, d)
    ensures RunSteps(g, x, k + 1) == Regs(d, Step(k / 16, a, b, c, d, x[K(k)], T(k), Amount(k)), b, c)
  {
    hide Step, RfcStep;
    StepIsRfc(k / 16, a, b, c, d, x[K(k)], T(k), Amount(k));
  }

  method Round1A(ghost g: Regs, r: Regs, x: seq<word>) returns (o: Regs)
    requires |x| == 16 && r == RunSteps(g, x, 0)
    ensures o == RunSteps(g, x, 8)
  {
    hide Step, RfcStep, RunSteps, RfcMix, CodeMix, Rotl, Plus, Pow2;
    var a, b, c, d := r.a, r.b, r.c, r.d;
    Turn(g, x, 0, a, b, c, d);
    a := Step(0, a, b, c, d, x[0], 0xd76a_a478, 7);
    Turn(g, x, 1, d, a, b, c);
    d := Step(0, d, a, b, c, x[1], 0xe8c7_b756, 12);
    Turn(g, x, 2, c, d, a, b);
    c := Step(0, c, d, a, b, x[2], 0x2420_70db, 17);
    Turn(g, x, 3, b, c, d, a);
    b := Step(0, b, c, d, a, x[3], 0xc1bd_ceee, 22);
    Turn(g, x, 4, a, b, c, d);
    a := Step(0, a, b, c, d, x[4], 0xf57c_0faf, 7);
    Turn(g, x, 5, d, a, b, c);
    d := Step(0, d, a, b, c, x[5], 0x4787_c62a, 12);
    Turn(g, x, 6, c, d, a, b);
    c := Step(0, c, d, a, b, x[6], 0xa830_4613, 17);
    Turn(g, x, 7, b, c, d, a);
    b := Step(0, b, c, d, a, x[7], 0xfd46_9501, 22);
    o := Regs(a, b, c, d);
  }

  method Round1B(ghost g: Regs, r: Regs, x: seq<word>) returns (o: Regs)
    requires |x| == 16 && r == RunSteps(g, x, 8)
    ensures o == RunSteps(g, x, 16)
  {
    hide Step, RfcStep, RunSteps, RfcMix, CodeMix, Rotl, Plus, Pow2;
    var a, b, c, d := r.a, r.b, r.c, r.d;
    Turn(g, x, 8, a, b, c, d);
    a := Step(0, a, b, c, d, x[8], 0x6980_98d8, 7);
    Turn(g, x, 9, d, a, b, c);
    d := Step(0, d, a, b, c, x[9], 0x8b44_f7af, 12);
    Turn(g, x, 10, c, d, a, b);
    c := Step(0, c, d, a, b, x[10], 0xffff_5bb1, 17);
    Turn(g, x, 11, b, c, d, a);
    b := Step(0, b, c, d, a, x[11], 0x895c_d7be, 22);
    Turn(g, x, 12, a, b, c, d);
    a := Step(0, a, b, c, d, x[12], 0x6b90_1122, 7);
    Turn(g, x, 13, d, a, b, c);
    d := Step(0, d, a, b, c, x[13], 0xfd98_7193, 12);
    Turn(g, x, 14, c, d, a, b);
    c := Step(0, c, d, a, b, x[14], 0xa679_438e, 17);
    Turn(g, x, 15, b, c, d, a);
    b := Step(0, b, c, d, a, x[15], 0x49b4_0821, 22);
    o := Regs(a, b, c, d);
  }

  method Round2A(ghost g: Regs, r: Regs, x: seq<word>) returns (o: Regs)
    requires |x| == 16 && r == RunSteps(g, x, 16)
    ensures o == RunSteps(g, x, 24)
  {
    hide Step, RfcStep, RunSteps, RfcMix, CodeMix, Rotl, Plus, Pow2;
    var a, b, c, d := r.a, r.b, r.c, r.d;
    Turn(g, x, 16, a, b, c, d);
    a := Step(1, a, b, c, d, x[1], 0xf61e_2562, 5);
    Turn(g, x, 17, d, a, b, c);
    d := Step(1, d, a, b, c, x[6], 0xc040_b340, 9);
    Turn(g, x, 18, c, d, a, b);
    c := Step(1, c, d, a, b, x[11], 0x265e_5a51, 14);
    Turn(g, x, 19, b, c, d, a);
    b := Step(1, b, c, d, a, x[0], 0xe9b6_c7aa, 20);
    Turn(g, x, 20, a, b, c, d);
    a := Step(1, a, b, c, d, x[5], 0xd62f_105d, 5);
    Turn(g, x, 21, d, a, b, c);
    d := Step(1, d, a, b, c, x[10], 0x0244_1453, 9);
    Turn(g, x, 22, c, d, a, b);
    c := Step(1, c, d, a, b, x[15], 0xd8a1_e681, 14);
    Turn(g, x, 23, b, c, d, a);
    b := Step(1, b, c, d, a, x[4], 0xe7d3_fbc8, 20);
    o := Regs(a, b, c, d);
  }

  method Round2B(ghost g: Regs, r: Regs, x: seq<word>) returns (o: Regs)
    requires |x| == 16 && r == RunSteps(g, x, 24)
    ensures o == RunSteps(g, x, 32)
  {
    hide Step, RfcStep, RunSteps, RfcMix, CodeMix, Rotl, Plus, Pow2;
    var a, b, c, d := r.a, r.b, r.c, r.d;
    Turn(g, x, 24, a, b, c, d);
    a := Step(1, a, b, c, d, x[9], 0x21e1_cde6, 5);
    Turn(g, x, 25, d, a, b, c);
    d := Step(1, d, a, b, c, x[14], 0xc337_07d6, 9);
    Turn(g, x, 26, c, d, a, b);
    c := Step(1, c, d, a, b, x[3], 0xf4d5_0d87, 14);
    Turn(g, x, 27, b, c, d, a);
    b := Step(1, b, c, d, a, x[8], 0x455a_14ed, 20);
    Turn(g, x, 28, a, b, c, d);
    a := Step(1, a, b, c, d, x[13], 0xa9e3_e905, 5);
    Turn(g, x, 29, d, a, b, c);
    d := Step(1, d, a, b, c, x[2], 0xfcef_a3f8, 9);
    Turn(g, x, 30, c, d, a, b);
    c := Step(1, c, d, a, b, x[7], 0x676f_02d9, 14);
    Turn(g, x, 31, b, c, d, a);
    b := Step(1, b, c, d, a, x[12], 0x8d2a_4c8a, 20);
    o := Regs(a, b, c, d);
  }

  method Round3A(ghost g: Regs, r: Regs, x: seq<word>) returns (o: Regs)
    requires |x| == 16 && r == RunSteps(g, x, 32)
    ensures o == RunSteps(g, x, 40)
  {
    hide Step, RfcStep, RunSteps, RfcMix, CodeMix, Rotl, Plus, Pow2;
    var a, b, c, d := r.a, r.b, r.c, r.d;
    Turn(g, x, 32, a, b, c, d);
    a := Step(2, a, b, c, d, x[5], 0xfffa_3942, 4);
    Turn(g, x, 33, d, a, b, c);
    d := Step(2, d, a, b, c, x[8], 0x8771_f681, 11);
    Turn(g, x, 34, c, d, a, b);
    c := Step(2, c, d, a, b, x[11], 0x6d9d_6122, 16);
    Turn(g, x, 35, b, c, d, a);
    b := Step(2, b, c, d, a, x[14], 0xfde5_380c, 23);
    Turn(g, x, 36, a, b, c, d);
    a := Step(2, a, b, c, d, x[1], 0xa4be_ea44, 4);
    Turn(g, x, 37, d, a, b, c);
    d := Step(2, d, a, b, c, x[4], 0x4bde_cfa9, 11);
    Turn(g, x, 38, c, d, a, b);
    c := Step(2, c, d, a, b, x[7], 0xf6bb_4b60, 16);
    Turn(g, x, 39, b, c, d, a);
    b := Step(2, b, c, d, a, x[10], 0xbebf_bc70, 23);
    o := Regs(a, b, c, d);
  }

  method Round3B(ghost g: Regs, r: Regs, x: seq<word>) returns (o: Regs)
    requires |x| == 16 && r == RunSteps(g, x, 40)
    ensures o == RunSteps(g, x, 48)
  {
    hide Step, RfcStep, RunSteps, RfcMix, CodeMix, Rotl, Plus, Pow2;
    var a, b, c, d := r.a, r.b, r.c, r.d;
    Turn(g, x, 40, a, b, c, d);
    a := Step(2, a, b, c, d, x[13], 0x289b_7ec6, 4);
    Turn(g, x, 41, d, a, b, c);
    d := Step(2, d, a, b, c, x[0], 0xeaa1_27fa, 11);
    Turn(g, x, 42, c, d, a, b);
    c := Step(2, c, d, a, b, x[3], 0xd4ef_3085, 16);
    Turn(g, x, 43, b, c, d, a);
    b := Step(2, b, c, d, a, x[6], 0x0488_1d05, 23);
    Turn(g, x, 44, a, b, c, d);
    a := Step(2, a, b, c, d, x[9], 0xd9d4_d039, 4);
    Turn(g, x, 45, d, a, b, c);
    d := Step(2, d, a, b, c, x[12], 0xe6db_99e5, 11);
    Turn(g, x, 46, c, d, a, b);
    c := Step(2, c, d, a, b, x[15], 0x1fa2_7cf8, 16);
    Turn(g, x, 47, b, c, d, a);
    b := Step(2, b, c, d, a, x[2], 0xc4ac_5665, 23);
    o := Regs(a, b, c, d);
  }

  method Round4A(ghost g: Regs, r: Regs, x: seq<word>) returns (o: Regs)
    requires |x| == 16 && r == RunSteps(g, x, 48)
    ensures o == RunSteps(g, x, 56)
  {
    hide Step, RfcStep, RunSteps, RfcMix, CodeMix, Rotl, Plus, Pow2;
    var a, b, c, d := r.a, r.b, r.c, r.d;
    Turn(g, x, 48, a, b, c, d);
    a := Step(3, a, b, c, d, x[0], 0xf429_2244, 6);
    Turn(g, x, 49, d, a, b, c);
    d := Step(3, d, a, b, c, x[7], 0x432a_ff97, 10);
    Turn(g, x, 50, c, d, a, b);
    c := Step(3, c, d, a, b, x[14], 0xab94_23a7, 15);
    Turn(g, x, 51, b, c, d, a);
    b := Step(3, b, c, d, a, x[5], 0xfc93_a039, 21);
    Turn(g, x, 52, a, b, c, d);
    a := Step(3, a, b, c, d, x[12], 0x655b_59c3, 6);
    Turn(g, x, 53, d, a, b, c);
    d := Step(3, d, a, b, c, x[3], 0x8f0c_cc92, 10);
    Turn(g, x, 54, c, d, a, b);
    c := Step(3, c, d, a, b, x[10], 0xffef_f47d, 15);
    Turn(g, x, 55, b, c, d, a);
    b := Step(3, b, c, d, a, x[1], 0x8584_5dd1, 21);
    o := Regs(a, b, c, d);
  }

  method Round4B(ghost g: Regs, r: Regs, x: seq<word>) returns (o: Regs)
    requires |x| == 16 && r == RunSteps(g, x, 56)
    ensures o == RunSteps(g, x, 64)
  {
    hide Step, RfcStep, RunSteps, RfcMix, CodeMix, Rotl, Plus, Pow2;
    var a, b, c, d := r.a, r.b, r.c, r.d;
    Turn(g, x, 56, a, b, c, d);
    a := Step(3, a, b, c, d, x[8], 0x6fa8_7e4f, 6);
    Turn(g, x, 57, d, a, b, c);
    d := Step(3, d, a, b, c, x[15], 0xfe2c_e6e0, 10);
    Turn(g, x, 58, c, d, a, b);
    c := Step(3, c, d, a, b, x[6], 0xa301_4314, 15);
    Turn(g, x, 59, b, c, d, a);
    b := Step(3, b, c, d, a, x[13], 0x4e08_11a1, 21);
    Turn(g, x, 60, a, b, c, d);
    a := Step(3, a, b, c, d, x[4], 0xf753_7e82, 6);
    Turn(g, x, 61, d, a, b, c);
    d := Step(3, d, a, b, c, x[11], 0xbd3a_f235, 10);
    Turn(g, x, 62, c, d, a, b);
    c := Step(3, c, d, a, b, x[2], 0x2ad7_d2bb, 15);
    Turn(g, x, 63, b, c, d, a);
    b := Step(3, b, c, d, a, x[9], 0xeb86_d391, 21);
    o := Regs(a, b, c, d);
  }
}
