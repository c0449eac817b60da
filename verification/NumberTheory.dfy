// Remainders, powers, divisors, primes, and the extended Euclidean algorithm.
module NumberTheory {
  // ---- remainders ----

  lemma MulBound(p: int, k: int)
    requires p > 0
    ensures k >= 1 ==> p * k >= p
    ensures k <= 0 ==> p * k <= 0
  {
  }

  lemma Distribute(p: int, x: int, y: int)
    ensures p * (x - y) == p * x - p * y && p * (x + y) == p * x + p * y
  {
  }

  lemma DivUnique(x: int, p: int, q: int, r: int)
    requires p > 0 && x == p * q + r && 0 <= r < p
    ensures x % p == r && x / p == q
  {
    var k := x / p;
    assert x == p * k + x % p;
    Distribute(p, q, k);
    Distribute(p, k, q);
    MulBound(p, q - k);
    MulBound(p, k - q);
  }

  lemma ModShift(x: int, k: int, p: int)
    requires p > 0
    ensures (x + p * k) % p == x % p
  {
    assert p * (x / p + k) == p * (x / p) + p * k;
    DivUnique(x + p * k, p, x / p + k, x % p);
  }

  lemma ModZero(k: int, p: int)
    requires p > 0
    ensures (p * k) % p == 0
  {
    DivUnique(p * k, p, k, 0);
  }

  lemma MultipleApart(x: int, y: int, p: int)
    requires p > 0 && (x - y) % p == 0
    ensures x % p == y % p
  {
    var k := (x - y) / p;
    assert x == y + p * k;
    ModShift(y, k, p);
  }

  // Congruent numbers differ by a multiple.
  lemma Difference(x: int, y: int, p: int)
    requires p > 0
    ensures x % p == y % p ==> x - y == p * (x / p - y / p)
    ensures x % p == y % p <==> (x - y) % p == 0
  {
    assert x == p * (x / p) + x % p && y == p * (y / p) + y % p;
    Distribute(p, x / p, y / p);
    if x % p == y % p {
      ModZero(x / p - y / p, p);
    }
    if (x - y) % p == 0 {
      MultipleApart(x, y, p);
    }
  }

  lemma MulMod(x: int, y: int, z: int, p: int)
    requires p > 0 && x % p == y % p
    ensures (x * z) % p == (y * z) % p
  {
    Difference(x, y, p);
    var k := x / p - y / p;
    assert x * z == y * z + p * (k * z) by {
      assert (y + p * k) * z == y * z + p * k * z;
      assert p * k * z == p * (k * z);
    }
    ModShift(y * z, k * z, p);
  }

  lemma MulModBoth(x: int, y: int, u: int, v: int, p: int)
    requires p > 0 && x % p == y % p && u % p == v % p
    ensures (x * u) % p == (y * v) % p
  {
    MulMod(x, y, u, p);
    MulMod(u, v, y, p);
    assert u * y == y * u && v * y == y * v;
  }

  lemma ModMod(x: int, p: int)
    requires p > 0
    ensures (x % p) % p == x % p
  {
    DivUnique(x % p, p, 0, x % p);
  }

  // ---- powers ----

  function Pow(a: int, k: nat): int
  {
    if k == 0 then 1 else a * Pow(a, k - 1)
  }

  lemma Assoc(x: int, y: int, z: int)
    ensures x * (y * z) == x * y * z && (x * y) * z == y * (x * z)
  {
  }

  lemma {:induction false} PowAdd(a: int, i: nat, j: nat)
    ensures Pow(a, i + j) == Pow(a, i) * Pow(a, j)
  {
    if i > 0 {
      PowAdd(a, i - 1, j);
      Assoc(a, Pow(a, i - 1), Pow(a, j));
    }
  }

  lemma {:induction false} PowMul(a: int, i: nat, j: nat)
    ensures i * j >= 0 && Pow(a, i * j) == Pow(Pow(a, i), j)
  {
    if j > 0 {
      PowMul(a, i, j - 1);
      assert i * j == i + i * (j - 1);
      PowAdd(a, i, i * (j - 1));
    }
  }

  lemma {:induction false} PowMod(a: int, b: int, k: nat, p: int)
    requires p > 0 && a % p == b % p
    ensures Pow(a, k) % p == Pow(b, k) % p
  {
    if k > 0 {
      PowMod(a, b, k - 1, p);
      MulModBoth(a, b, Pow(a, k - 1), Pow(b, k - 1), p);
    }
  }

  lemma {:induction false} PowOne(k: nat)
    ensures Pow(1, k) == 1
  {
    if k > 0 {
      PowOne(k - 1);
    }
  }

  lemma {:induction false} PowZero(k: nat)
    ensures k > 0 ==> Pow(0, k) == 0
  {
  }

  // ---- divisors ----

  predicate Divides(d: int, x: int)
    requires d > 0
  {
    x % d == 0
  }

  lemma DividesSum(d: int, x: int, y: int, u: int, v: int)
    requires d > 0 && Divides(d, x) && Divides(d, y)
    ensures Divides(d, x * u + y * v)
  {
    assert x == d * (x / d) && y == d * (y / d);
    assert x * u == d * ((x / d) * u) && y * v == d * ((y / d) * v);
    assert x * u + y * v == d * ((x / d) * u + (y / d) * v);
    ModZero((x / d) * u + (y / d) * v, d);
  }

  // The greatest common divisor, by what it is.
  ghost predicate IsGcd(g: int, a: int, b: int)
  {
    && g > 0 && Divides(g, a) && Divides(g, b)
    && forall d :: d > 0 && Divides(d, a) && Divides(d, b) ==> d <= g
  }

  lemma GcdUnique(g: int, h: int, a: int, b: int)
    requires IsGcd(g, a, b) && IsGcd(h, a, b)
    ensures g == h
  {
  }

  lemma DivisorStep(d: int, a: int, b: int)
    requires d > 0 && a >= 0 && b > 0
    ensures Divides(d, a) && Divides(d, b) <==> Divides(d, b) && Divides(d, a % b)
  {
    hide Divides;
    var q, r := a / b, a % b;
    assert a == b * q + r * 1 && r == a * 1 + b * (-q);
    if Divides(d, b) && Divides(d, r) {
      DividesSum(d, b, r, q, 1);
    }
    if Divides(d, a) && Divides(d, b) {
      DividesSum(d, a, b, 1, -q);
    }
  }

  // One step of the algorithm keeps the common divisors.
  lemma GcdStep(g: int, a: int, b: int)
    requires a >= 0 && b > 0
    ensures IsGcd(g, b, a % b) <==> IsGcd(g, a, b)
  {
    forall d | d > 0
      ensures Divides(d, a) && Divides(d, b) <==> Divides(d, b) && Divides(d, a % b)
    {
      DivisorStep(d, a, b);
    }
  }

  lemma DivisorAtMost(d: int, x: int)
    requires d > 0 && x > 0 && Divides(d, x)
    ensures d <= x
  {
    assert x == d * (x / d);
    MulBound(d, x / d);
  }

  lemma GcdZero(a: int)
    requires a > 0
    ensures IsGcd(a, a, 0)
  {
    ModZero(1, a);
    forall d | d > 0 && Divides(d, a)
      ensures d <= a
    {
      DivisorAtMost(d, a);
    }
  }

  // ---- primes ----

  predicate Prime(p: int)
  {
    p >= 2 && forall k :: 2 <= k < p ==> p % k != 0
  }

  // A prime has no common divisor with what it does not divide.
  lemma PrimeGcd(p: int, a: int)
    requires Prime(p) && !Divides(p, a)
    ensures IsGcd(1, a, p)
  {
    forall d | d > 0 && Divides(d, a) && Divides(d, p)
      ensures d <= 1
    {
      DivisorAtMost(d, p);
    }
    assert a % 1 == 0 && p % 1 == 0;
  }

  // ---- Bezout ----

  // gcdext: a common divisor and two factors.
  function GcdExt(a: int, b: int): (r: (int, int, int))
    requires a >= 0 && b >= 0
    decreases b
  {
    if b == 0 then (a, 1, 0)
    else
      var (d, y, x) := GcdExt(b, a % b);
      (d, x, y - x * (a / b))
  }

  lemma {:induction false} GcdExtIsGcd(a: int, b: int)
    requires a >= 0 && b >= 0 && a + b > 0
    ensures IsGcd(GcdExt(a, b).0, a, b)
    decreases b
  {
    if b == 0 {
      GcdZero(a);
    } else {
      GcdExtIsGcd(b, a % b);
      GcdStep(GcdExt(a, b).0, a, b);
    }
  }

  lemma BezoutStep(a: int, b: int, q: int, r: int, x: int, y: int)
    requires a == b * q + r
    ensures a * x + b * (y - x * q) == b * y + r * x
  {
    assert a * x == b * q * x + r * x;
    assert b * (y - x * q) == b * y - b * (x * q);
    assert b * (x * q) == b * q * x;
  }

  lemma {:induction false} Bezout(a: int, b: int)
    requires a >= 0 && b >= 0
    ensures var (d, x, y) := GcdExt(a, b); a * x + b * y == d
    decreases b
  {
    if b != 0 {
      Bezout(b, a % b);
      var (d, y, x) := GcdExt(b, a % b);
      var q, r := a / b, a % b;
      assert b * y + r * x == d;
      BezoutStep(a, b, q, r, x, y);
    }
  }

  function Abs(x: int): nat { if x < 0 then -x else x }

  function AtLeastOne(x: int): int { if x < 1 then 1 else x }

  lemma Monotone(x: int, b: int, q: int)
    requires 0 <= x <= b && q >= 0
    ensures 0 <= x * q <= b * q
  {
    if q > 0 {
      MulBound(q, x);
      MulBound(q, b - x);
      Distribute(q, b, x);
    }
  }

  lemma SmallStep(a: int, b: int, x: int, y: int)
    requires a >= 0 && b > 0 && a % b > 0 && Abs(y) <= a % b && Abs(x) <= b
    ensures Abs(y - x * (a / b)) <= a
  {
    var q := a / b;
    assert a == b * q + a % b && q >= 0;
    if x >= 0 {
      Monotone(x, b, q);
    } else {
      Monotone(-x, b, q);
      assert (-x) * q == -(x * q);
    }
  }

  // The factors stay within the arguments.
  lemma {:induction false} GcdExtSmall(a: int, b: int)
    requires a >= 0 && b >= 0
    ensures var (d, x, y) := GcdExt(a, b); Abs(x) <= AtLeastOne(b) && Abs(y) <= AtLeastOne(a)
    decreases b
  {
    if b != 0 {
      GcdExtSmall(b, a % b);
      var (d, y, x) := GcdExt(b, a % b);
      if a % b != 0 {
        SmallStep(a, b, x, y);
      }
    }
  }

  lemma Combine(a: int, b: int, c: int, x: int, y: int)
    requires a * x + b * y == 1
    ensures a * c * x + b * (y * c) == c
  {
    assert (a * x + b * y) * c == a * x * c + b * y * c;
    assert a * x * c == a * c * x && b * y * c == b * (y * c);
  }

  // When a and b have no common divisor, a number that a factor of them makes
  // divisible by b is divisible itself.
  lemma Coprime(a: int, b: int, c: int)
    requires a >= 0 && b > 0 && IsGcd(1, a, b) && Divides(b, a * c)
    ensures Divides(b, c)
  {
    GcdExtIsGcd(a, b);
    Bezout(a, b);
    var (d, x, y) := GcdExt(a, b);
    GcdUnique(d, 1, a, b);
    ModZero(1, b);
    DividesSum(b, a * c, b, x, y * c);
    Combine(a, b, c, x, y);
  }

  lemma Euclid(p: int, a: int, b: int)
    requires Prime(p) && a >= 0 && Divides(p, a * b)
    ensures Divides(p, a) || Divides(p, b)
  {
    if !Divides(p, a) {
      PrimeGcd(p, a);
      Coprime(a, p, b);
    }
  }
}
