// Fermat's theorem by the product of a permuted set, and two primes at once.
module Fermat {
  import opened Lists
  import opened NumberTheory

  // The product of the members of s among 1..n.
  function Product(s: set<int>, n: nat): int
  {
    if n == 0 then 1 else (if n in s then n else 1) * Product(s, n - 1)
  }

  lemma {:induction false} ProductSame(s: set<int>, t: set<int>, n: nat)
    requires forall k :: 1 <= k <= n ==> (k in s <==> k in t)
    ensures Product(s, n) == Product(t, n)
  {
    if n > 0 {
      ProductSame(s, t, n - 1);
    }
  }

  lemma {:induction false} ProductAdd(s: set<int>, x: int, n: nat)
    requires x !in s && 1 <= x <= n
    ensures Product(s + {x}, n) == x * Product(s, n)
  {
    if x == n {
      ProductSame(s + {x}, s, n - 1);
    } else {
      ProductAdd(s, x, n - 1);
      Assoc(x, if n in s then n else 1, Product(s, n - 1));
      Assoc(if n in s then n else 1, x, Product(s, n - 1));
    }
  }

  lemma {:induction false} ProductEmpty(n: nat)
    ensures Product({}, n) == 1
  {
    if n > 0 {
      ProductEmpty(n - 1);
    }
  }

  function Factorial(n: nat): int { if n == 0 then 1 else n * Factorial(n - 1) }

  lemma {:induction false} ProductFull(s: set<int>, n: nat)
    requires forall k :: 1 <= k <= n ==> k in s
    ensures Product(s, n) == Factorial(n)
  {
    if n > 0 {
      ProductFull(s, n - 1);
    }
  }

  // The remainders of a, 2a, .., ka.
  function Multiples(a: int, k: nat, p: int): set<int>
    requires p > 0
  {
    if k == 0 then {} else Multiples(a, k - 1, p) + {(a * k) % p}
  }

  lemma MultipleNotZero(a: int, k: int, p: int)
    requires Prime(p) && a >= 0 && !Divides(p, a) && 0 < k < p
    ensures (a * k) % p != 0
  {
    if (a * k) % p == 0 {
      Euclid(p, a, k);
      DivisorAtMost(p, k);
    }
  }

  lemma {:induction false} NewMultiple(a: int, k: nat, j: nat, p: int)
    requires Prime(p) && a >= 0 && !Divides(p, a) && j < k < p
    ensures (a * k) % p !in Multiples(a, j, p)
  {
    if j > 0 {
      NewMultiple(a, k, j - 1, p);
      if (a * k) % p == (a * j) % p {
        Difference(a * k, a * j, p);
        Distribute(a, k, j);
        MultipleNotZero(a, k - j, p);
      }
    }
  }

  // They are k different ones, none of them 0.
  lemma {:induction false} MultiplesDiffer(a: int, k: nat, p: int)
    requires Prime(p) && a >= 0 && !Divides(p, a) && k < p
    ensures |Multiples(a, k, p)| == k
    ensures forall x :: x in Multiples(a, k, p) ==> 1 <= x < p
  {
    if k > 0 {
      MultiplesDiffer(a, k - 1, p);
      NewMultiple(a, k, k - 1, p);
      MultipleNotZero(a, k, p);
    }
  }

  lemma Shuffle(a: int, k: int, x: int, y: int)
    ensures (a * k) * (x * y) == (a * x) * (k * y)
  {
    assert (a * k) * (x * y) == a * (k * (x * y));
    assert k * (x * y) == x * (k * y);
    assert (a * x) * (k * y) == a * (x * (k * y));
  }

  // Their product is the product of 1..k times the k-th power of a.
  lemma {:induction false} MultiplesProduct(a: int, k: nat, p: int)
    requires Prime(p) && a >= 0 && !Divides(p, a) && k < p
    ensures Product(Multiples(a, k, p), p - 1) % p == (Pow(a, k) * Factorial(k)) % p
  {
    if k == 0 {
      ProductEmpty(p - 1);
    } else {
      MultiplesProduct(a, k - 1, p);
      MultiplesDiffer(a, k - 1, p);
      NewMultiple(a, k, k - 1, p);
      MultipleNotZero(a, k, p);
      var x, s := (a * k) % p, Multiples(a, k - 1, p);
      ProductAdd(s, x, p - 1);
      ModMod(a * k, p);
      MulModBoth(x, a * k, Product(s, p - 1), Pow(a, k - 1) * Factorial(k - 1), p);
      Shuffle(a, k, Pow(a, k - 1), Factorial(k - 1));
    }
  }

  function Range(n: nat): (s: set<int>)
    ensures forall x :: x in s <==> 1 <= x <= n
  {
    if n == 0 then {} else Range(n - 1) + {n}
  }

  lemma {:induction false} RangeSize(n: nat)
    ensures |Range(n)| == n
  {
    if n > 0 {
      RangeSize(n - 1);
    }
  }

  // k different numbers of 1..k are all of them.
  lemma {:induction false} AllOf(s: set<int>, n: nat)
    requires |s| == n && forall x :: x in s ==> 1 <= x <= n
    ensures forall k :: 1 <= k <= n ==> k in s
  {
    var all := Range(n);
    RangeSize(n);
    if exists k :: 1 <= k <= n && k !in s {
      var k :| 1 <= k <= n && k !in s;
      SubsetSize(s, all - {k});
    }
  }

  lemma {:induction false} FactorialCoprime(n: nat, p: int)
    requires Prime(p) && n < p
    ensures Factorial(n) > 0 && !Divides(p, Factorial(n))
  {
    if n > 0 {
      FactorialCoprime(n - 1, p);
      if Divides(p, Factorial(n)) {
        Euclid(p, n, Factorial(n - 1));
        DivisorAtMost(p, n);
      }
      MulBound(n, Factorial(n - 1));
    }
  }

  lemma AtLeastTwo(p: int)
    requires Prime(p)
    ensures p >= 2
  {
  }

  lemma Cancel(w: int, f: int, p: int)
    requires Prime(p) && f > 0 && !Divides(p, f) && (w * f) % p == f % p
    ensures w % p == 1
  {
    hide Prime;
    AtLeastTwo(p);
    Difference(w * f, f, p);
    Distribute(f, w, 1);
    assert w * f - f == f * (w - 1);
    Euclid(p, f, w - 1);
    Difference(w, 1, p);
    DivUnique(1, p, 0, 1);
  }

  // Fermat: what a prime does not divide has its p - 1st power one above a
  // multiple of it.
  lemma LittleTheorem(a: int, p: int)
    requires Prime(p) && a >= 0 && !Divides(p, a)
    ensures Pow(a, p - 1) % p == 1
  {
    var f, w := Factorial(p - 1), Pow(a, p - 1);
    MultiplesDiffer(a, p - 1, p);
    MultiplesProduct(a, p - 1, p);
    AllOf(Multiples(a, p - 1, p), p - 1);
    ProductFull(Multiples(a, p - 1, p), p - 1);
    FactorialCoprime(p - 1, p);
    Cancel(w, f, p);
  }

  // Numbers that agree modulo two primes agree modulo their product.
  lemma TwoPrimes(x: int, y: int, p: int, q: int)
    requires Prime(p) && Prime(q) && p != q
    requires x % p == y % p && x % q == y % q
    ensures p * q > 0 && x % (p * q) == y % (p * q)
  {
    var d := x - y;
    Difference(x, y, p);
    Difference(x, y, q);
    var k := d / p;
    assert d == p * k;
    if Divides(q, p) {
      DivisorAtMost(q, p);
    }
    Euclid(q, p, k);
    assert k == q * (k / q);
    Assoc(p, q, k / q);
    MulBound(p, q);
    ModZero(k / q, p * q);
    Difference(x, y, p * q);
  }

  // A number to a power that is one above a multiple of p - 1 is itself.
  lemma PowerBack(m: int, p: int, t: nat, k: nat)
    requires Prime(p) && m >= 0 && t == 1 + (p - 1) * k
    ensures Pow(m, t) % p == m % p
  {
    if Divides(p, m) {
      ModZero(0, p);
      PowMod(m, 0, t, p);
      PowZero(t);
    } else {
      LittleTheorem(m, p);
      PowMul(m, p - 1, k);
      DivUnique(1, p, 0, 1);
      PowMod(Pow(m, p - 1), 1, k, p);
      PowOne(k);
      MulModBoth(m, m, Pow(m, t - 1), 1, p);
      assert (p - 1) * k == t - 1;
    }
  }
}
