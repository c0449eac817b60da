// RSA on machine integers: the loops of the program and the round trip.
module Rsa {
  import opened NumberTheory
  import opened Fermat
  import opened MachineWords

  const INT_MAX: int := 0x7FFF_FFFF

  // A signed 32-bit result; the value where C++ defines none is the wrapped one.
  function Wrap(x: int): int { (x + 0x8000_0000) % 0x1_0000_0000 - 0x8000_0000 }

  predicate InInt(x: int) { -0x8000_0000 <= x <= INT_MAX }

  // (x * y) % n as the program computes it.
  function Times(x: int, y: int, n: int): int
    requires n != 0
  {
    Rem(Wrap(x * y), n)
  }

  lemma NotNegative(x: int, y: int)
    requires x >= 0 && y >= 0
    ensures x * y >= 0
  {
  }

  lemma TimesFits(x: int, y: int, n: int)
    requires n > 0 && InInt(x * y) && x >= 0 && y >= 0
    ensures x * y >= 0 && Times(x, y, n) == (x * y) % n
  {
    NotNegative(x, y);
    assert Wrap(x * y) == x * y;
  }

  lemma SmallProduct(x: int, y: int)
    requires 0 <= x <= 46340 && 0 <= y <= 46340
    ensures 0 <= x * y <= INT_MAX
  {
    assert x * y <= 46340 * y && 46340 * y <= 46340 * 46340;
  }

  predicate NoDivisor(a: int, i: int)
    requires a > 0
  {
    forall k :: a <= k < i ==> i % k != 0
  }

  datatype Outcome = Again | DivisionByZero | Made

  predicate OddPrimeOrOne(p: int)
  {
    p % 2 == 1 && (p == 1 || Prime(p))
  }

  lemma PhiAtLeast(p: int, q: int)
    requires p >= 3 && q >= 3
    ensures (p - 1) * (q - 1) >= 4
  {
    assert (p - 1) * (q - 1) >= 2 * (q - 1);
  }

  lemma PhiBound(p: int, q: int)
    requires p >= 1 && q >= 1 && p % 2 == 1 && q % 2 == 1
    ensures if p == 1 || q == 1 then (p - 1) * (q - 1) == 0 else (p - 1) * (q - 1) >= 4
  {
    if p != 1 && q != 1 {
      PhiAtLeast(p, q);
    }
  }

  lemma InverseWraps(a: int, b: int, x: int, y: int)
    requires b > 0 && -b <= x && a * x + b * y == 1
    ensures Rem(x + b, b) == (x + b) % b && (a * ((x + b) % b)) % b == 1 % b
  {
    ModMod(x + b, b);
    ModShift(x, 1, b);
    MulModBoth(a, a, (x + b) % b, x, b);
    ModShift(a * x, y, b);
  }

  // d undoes e in the exponent.
  predicate IsKey(p: int, q: int, e: int, d: int)
  {
    (p - 1) * (q - 1) > 0 && e > 0 && d >= 0 && (e * d) % ((p - 1) * (q - 1)) == 1 % ((p - 1) * (q - 1))
  }

  function Decoded(m: int, e: int, d: int, n: int): int
    requires e > 0 && d >= 0 && n > 0
  {
    if d == 0 then 1 else Pow(Pow(m, e) % n, d) % n
  }

  lemma PhiAtLeastTwo(p: int, q: int)
    requires p >= 2 && q >= 2 && p != q
    ensures (p - 1) * (q - 1) >= 2
  {
    if p > 2 {
      assert (p - 1) * (q - 1) >= 2 * (q - 1);
    } else {
      assert (p - 1) * (q - 1) == q - 1;
    }
  }

  lemma RoundTrip(p: int, q: int, e: int, d: int, m: int)
    requires Prime(p) && Prime(q) && p != q && e > 0 && IsKey(p, q, e, d)
    requires p * q > 0 && 0 <= m < p * q
    ensures Decoded(m, e, d, p * q) == m
  {
    var n, phi := p * q, (p - 1) * (q - 1);
    PhiAtLeastTwo(p, q);
    DivUnique(1, phi, 0, 1);
    var k := (e * d) / phi;
    assert e * d == phi * k + 1;
    NotNegative(e, d);
    assert k >= 0;
    assert d > 0;
    Assoc(p - 1, q - 1, k);
    NotNegative(q - 1, k);
    NotNegative(p - 1, k);
    PowerBack(m, p, e * d, (q - 1) * k);
    assert (p - 1) * (q - 1) * k == (q - 1) * ((p - 1) * k);
    PowerBack(m, q, e * d, (p - 1) * k);
    TwoPrimes(Pow(m, e * d), m, p, q);
    PowMul(m, e, d);
    ModMod(Pow(m, e), n);
    PowMod(Pow(m, e) % n, Pow(m, e), d, n);
    DivUnique(m, n, 0, m);
  }

  // With the same prime twice, the message p is lost.
  lemma SquareFails(p: int, e: int, d: int)
    requires Prime(p) && e >= 2 && d >= 0
    ensures p * p > p && Decoded(p, e, d, p * p) != p
  {
    MulBound(p, p - 1);
    Distribute(p, p, 1);
    assert Pow(p, e) == p * (p * Pow(p, e - 2));
    Assoc(p, p, Pow(p, e - 2));
    ModZero(Pow(p, e - 2), p * p);
    PowZero(d);
    DivUnique(0, p * p, 0, 0);
  }

  // Every message comes back if and only if the two primes differ.
  lemma RoundTrips(p: int, q: int, e: int, d: int)
    requires Prime(p) && Prime(q) && e >= 2 && IsKey(p, q, e, d)
    ensures p * q > 0
    ensures (forall m :: 0 <= m < p * q ==> Decoded(m, e, d, p * q) == m) <==> p != q
    ensures p == q ==> Decoded(p, e, d, p * q) != p && p < p * q
  {
    MulBound(p, q);
    if p != q {
      forall m | 0 <= m < p * q
        ensures Decoded(m, e, d, p * q) == m
      {
        RoundTrip(p, q, e, d, m);
      }
    } else {
      SquareFails(p, e, d);
    }
  }

  ghost predicate Running(a0: int, b0: nat, a: int, b: nat, n: int, y: int)
    requires n > 0
  {
    && 0 <= a && 0 <= y && b <= b0 && (if b == b0 then y == 1 && a == a0 else a < n && (y < n || (y == 1 && b > 0)))
    && (y * Pow(a, b)) % n == Pow(a0, b0) % n
  }

  lemma RunningStart(a0: int, b0: nat, n: int)
    ensures a0 >= 0 && n > 0 ==> Running(a0, b0, a0, b0, n, 1)
  {
  }

  lemma RunningEnd(a0: int, b0: nat, a: int, n: int, y: int)
    requires n > 0 && Running(a0, b0, a, 0, n, y)
    ensures y == if b0 == 0 then 1 else Pow(a0, b0) % n
  {
    assert Pow(a, 0) == 1;
    if b0 > 0 {
      DivUnique(y, n, 0, y);
    }
  }

  lemma Halves(a: int, b: nat, y: int)
    requires b > 0
    ensures y * Pow(a, b) == (if b % 2 == 1 then y * a else y) * Pow(a * a, b / 2)
  {
    var h := b / 2;
    PowMul(a, 2, h);
    assert Pow(a, 2) == a * Pow(a, 1) && Pow(a, 1) == a * 1;
    if b % 2 == 1 {
      assert Pow(a, b) == a * Pow(a, 2 * h);
      Assoc(y, a, Pow(a, 2 * h));
    }
  }

  lemma SquareStep(a0: int, b0: nat, a: int, b: nat, n: int, y: int)
    requires n > 0 && b > 0 && Running(a0, b0, a, b, n, y)
    ensures y * a >= 0 && a * a >= 0 && a >= 0 && y >= 0
    ensures Running(a0, b0, (a * a) % n, b / 2, n, if b % 2 == 1 then (y * a) % n else y)
    ensures 0 <= a0 < n <= 46341 ==> InInt(y * a) && InInt(a * a)
  {
    hide Pow;
    NotNegative(y, a);
    NotNegative(a, a);
    Halves(a, b, y);
    var w := if b % 2 == 1 then y * a else y;
    var z := if b % 2 == 1 then w % n else w;
    ModMod(a * a, n);
    ModMod(w, n);
    PowMod((a * a) % n, a * a, b / 2, n);
    MulModBoth(z, w, Pow((a * a) % n, b / 2), Pow(a * a, b / 2), n);
    if 0 <= a0 < n <= 46341 {
      SmallProduct(y, a);
      SmallProduct(a, a);
    }
  }

  class ConvRsa {
    var e: int
    var d: int
    var n: int

    // ok is false when a remainder by 0 is asked for.
    method Gcd(a0: int, b0: int) returns (ok: bool, b: int)
      requires a0 >= 0 && b0 >= 0
      ensures ok <==> a0 != 0 && b0 != 0
      ensures ok ==> IsGcd(b, a0, b0)
    {
      var a := a0;
      b := b0;
      if a < b {
        a, b := b, a;
        assert forall g :: IsGcd(g, a, b) <==> IsGcd(g, a0, b0);
      }
      var c := b;
      var again := true;
      while again
        invariant a >= 0 && c >= 0 && (again ==> c > 0 || (c == 0 && (a0 == 0 || b0 == 0)))
        invariant a0 != 0 && b0 != 0 ==> a > 0
        invariant forall g :: IsGcd(g, a, c) <==> IsGcd(g, a0, b0)
        invariant !again ==> c == 0 && b == a && a0 != 0 && b0 != 0
        decreases again, c
      {
        b := c;
        if b == 0 {
          return false, b;
        }
        c := a % b;
        forall g
          ensures IsGcd(g, b, c) <==> IsGcd(g, a, b)
        {
          GcdStep(g, a, b);
        }
        a := b;
        again := c != 0;
      }
      GcdZero(a);
      ok := true;
    }

    // 1 is answered prime, since nothing is tried for it.
    method Primarity(a0: int, i: int) returns (r: int)
      requires a0 > 0
      ensures r == if NoDivisor(a0, i) then 1 else 0
      ensures a0 == 2 ==> (r == 1 <==> Prime(i) || i < 2)
    {
      var a := a0;
      var flag := 0;
      while a < i
        invariant a0 <= a && (a <= i || a == a0)
        invariant forall k :: a0 <= k < a ==> i % k != 0
        invariant flag == 0
      {
        if i % a == 0 {
          flag := 1;
          break;
        }
        a := a + 1;
      }
      return if flag != 0 then 0 else 1;
    }

    // fits tells whether every product stayed within an int.
    method ModularExponention(a0: int, b0: int, n: int) returns (y: int, fits: bool)
      requires b0 >= 0 && n != 0
      ensures fits && a0 >= 0 && n > 0 ==> y == if b0 == 0 then 1 else Pow(a0, b0) % n
      ensures 0 <= a0 < n <= 46341 ==> fits
      ensures b0 > 0 && a0 * a0 > INT_MAX ==> !fits
    {
      hide Times, Running, Pow;
      var a, b := a0, b0;
      RunningStart(a0, b0, n);
      y, fits := 1, true;
      while b != 0
        invariant b >= 0
        invariant b0 > b && a0 * a0 > INT_MAX ==> !fits
        invariant b0 == b ==> a == a0 && y == 1
        invariant 0 <= a0 < n <= 46341 ==> fits
        invariant fits && a0 >= 0 && n > 0 ==> Running(a0, b0, a, b, n, y)
      {
        if fits && a0 >= 0 && n > 0 {
          SquareStep(a0, b0, a, b, n, y);
          if InInt(a * a) {
            TimesFits(a, a, n);
          }
          if InInt(y * a) {
            TimesFits(y, a, n);
          }
        }
        if b % 2 == 1 {
          fits := fits && InInt(y * a);
          y := Times(y, a, n);
        }
        fits := fits && InInt(a * a);
        a := Times(a, a, n);
        b := b / 2;
      }
      if fits && a0 >= 0 && n > 0 {
        RunningEnd(a0, b0, a, n, y);
      }
    }

    // The inverse of a modulo b when there is one, and -1 when there is none.
    method ModularInverse(a: int, b: int) returns (r: int)
      requires a > 0 && b > 0
      ensures IsGcd(1, a, b) <==> r != -1
      ensures r != -1 ==> 0 <= r < b && (a * r) % b == 1 % b
    {
      var (d, x, y) := GcdExt(a, b);
      GcdExtIsGcd(a, b);
      GcdExtSmall(a, b);
      Bezout(a, b);
      if d == 1 {
        r := Rem(x + b, b);
        InverseWraps(a, b, x, y);
      } else {
        r := -1;
        if IsGcd(1, a, b) {
          GcdUnique(d, 1, a, b);
        }
      }
    }

    // One round of the draws p, q and r; a draw that a loop rejects is drawn
    // again.
    method KeyGeneration(p: int, q: int, r: int) returns (o: Outcome)
      requires p >= 0 && q >= 0 && r >= 0 && p * q <= INT_MAX
      modifies this
      ensures o != Again ==> OddPrimeOrOne(p) && OddPrimeOrOne(q)
      ensures OddPrimeOrOne(p) && OddPrimeOrOne(q) ==> (o == DivisionByZero <==> p == 1 || q == 1)
      ensures o == Made ==> n == p * q && 2 <= e && e < (p - 1) * (q - 1)
      ensures o == Made ==> IsKey(p, q, e, d) && d < (p - 1) * (q - 1)
      ensures OddPrimeOrOne(p) && OddPrimeOrOne(q) && p != 1 && q != 1 ==> var phi := (p - 1) * (q - 1);
        && phi >= 4 && e == r % (phi - 2) + 2 && (o == Made <==> IsGcd(1, e, phi))
      ensures OddPrimeOrOne(p) && OddPrimeOrOne(q) && p != 1 && q != 1 ==> var phi := (p - 1) * (q - 1);
        forall e0 :: 2 <= e0 < phi && IsGcd(1, e0, phi) && r == e0 - 2 ==> o == Made && e == e0
      ensures o == Again && OddPrimeOrOne(p) && OddPrimeOrOne(q) ==> !IsGcd(1, e, (p - 1) * (q - 1))
    {
      if p % 2 == 0 {
        return Again;
      }
      var prime := Primarity(2, p);
      if prime == 0 || q % 2 == 0 {
        return Again;
      }
      prime := Primarity(2, q);
      if prime == 0 {
        return Again;
      }
      n := p * q;
      var phi := (p - 1) * (q - 1);
      PhiBound(p, q);
      e := Rem(r, phi - 2) + 2;
      if p != 1 && q != 1 && r < phi - 2 {
        DivUnique(r, phi - 2, 0, r);
      }
      var ok, g := Gcd(e, phi);
      if !ok {
        return DivisionByZero;
      }
      if g != 1 {
        if IsGcd(1, e, phi) {
          GcdUnique(g, 1, e, phi);
        }
        return Again;
      }
      d := ModularInverse(e, phi);
      return Made;
    }

    // conv_rsa_encode and conv_rsa_decode, had they returned what they compute.
    method EncodeDecode(m: int, p: int, q: int) returns (c: int, back: int)
      requires Prime(p) && Prime(q) && n == p * q <= 46341 && e >= 2 && IsKey(p, q, e, d)
      requires 0 <= m < n
      ensures c == Pow(m, e) % n && (d > 0 ==> back == Pow(c, d) % n)
      ensures p != q ==> back == m
      ensures p == q == m ==> back != m
    {
      RoundTrips(p, q, e, d);
      var fits;
      c, fits := ModularExponention(m, e, n);
      back, fits := ModularExponention(c, d, n);
      assert back == Decoded(m, e, d, n);
    }
  }
}
