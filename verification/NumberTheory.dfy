/**
 Primes, as far as the Miller-Rabin code of miller_rabin.c needs them: Euclid's lemma, Fermat's little
 theorem, the square roots of one, and a prime above every number.
 */
module NumberTheory {
  import opened Counting

  // ---------- divisibility ----------

  function Times(a: int, b: int): int {
    a * b
  }

  ghost predicate Divides(d: nat, x: int) {
    exists k: int :: Times(k, d) == x
  }

  lemma DividesTimes(d: nat, k: int)
    ensures Divides(d, k * d)
  {
    assert Times(k, d) == k * d;
  }

  lemma DividesSum(d: nat, x: int, y: int)
    requires Divides(d, x) && Divides(d, y)
    ensures Divides(d, x + y) && Divides(d, x - y)
  {
    var k: int, l: int :| Times(k, d) == x && Times(l, d) == y;
    assert (k + l) * d == x + y && (k - l) * d == x - y;
    DividesTimes(d, k + l);
    DividesTimes(d, k - l);
  }

  lemma DividesMultiple(d: nat, x: int, c: int)
    requires Divides(d, x)
    ensures Divides(d, c * x)
  {
    var k: int :| Times(k, d) == x;
    assert (c * k) * d == c * (k * d);
    DividesTimes(d, c * k);
  }

  lemma DividesTrans(d: nat, e: nat, x: int)
    requires Divides(d, e) && Divides(e, x)
    ensures Divides(d, x)
  {
    var l: int :| Times(l, e) == x;
    DividesMultiple(d, e, l);
  }

  /** Only zero is a multiple of `d` below `d`. */
  lemma SmallMultiple(d: nat, x: int)
    requires Divides(d, x) && x < d && -x < d
    ensures x == 0
  {
    var k: int :| Times(k, d) == x;
    TimesBounds(k, d);
  }

  lemma TimesBounds(k: int, d: nat)
    ensures k >= 1 ==> k * d >= d
    ensures k <= -1 ==> k * d <= -1 * d
  {
  }

  lemma RestDivides(d: nat, x: nat)
    requires d >= 1
    ensures Divides(d, x - x % d) && 0 <= x % d < d
  {
    assert x == (x / d) * d + x % d;
    DividesTimes(d, x / d);
  }

  // ---------- congruence ----------

  ghost predicate Congruent(x: int, y: int, n: nat) {
    Divides(n, x - y)
  }

  lemma CongruentSelf(x: int, n: nat)
    ensures Congruent(x, x, n)
  {
    DividesTimes(n, 0);
  }

  lemma CongruentTrans(x: int, y: int, z: int, n: nat)
    requires Congruent(x, y, n) && Congruent(y, z, n)
    ensures Congruent(x, z, n) && Congruent(y, x, n)
  {
    DividesSum(n, x - y, y - z);
    DividesMultiple(n, x - y, -1);
  }

  lemma CongruentTimes(x: int, y: int, u: int, v: int, n: nat)
    requires Congruent(x, y, n) && Congruent(u, v, n)
    ensures Congruent(x * u, y * v, n)
  {
    DividesMultiple(n, x - y, u);
    DividesMultiple(n, u - v, y);
    DividesSum(n, u * (x - y), y * (u - v));
    assert u * (x - y) + y * (u - v) == x * u - y * v;
  }

  lemma CongruentRest(x: nat, n: nat)
    requires n >= 1
    ensures Congruent(x, x % n, n) && Congruent(x % n, x, n)
  {
    RestDivides(n, x);
    DividesMultiple(n, x - x % n, -1);
  }

  /** Congruent remainders are equal. */
  lemma RestsEqual(x: nat, y: nat, n: nat)
    requires n >= 1 && Congruent(x, y, n)
    ensures x % n == y % n
  {
    CongruentRest(x, n);
    CongruentRest(y, n);
    CongruentTrans(x % n, x, y, n);
    CongruentTrans(x % n, y, y % n, n);
    SmallMultiple(n, x % n - y % n);
  }

  // ---------- primes ----------

  ghost predicate Prime(p: nat) {
    p >= 2 && forall d: nat :: 1 < d < p ==> !Divides(d, p)
  }

  /** The least positive multiple of `y` that `p` divides, as a multiplier */
  lemma LeastMultiplier(p: nat, y: int) returns (m: nat)
    requires p >= 1
    ensures 1 <= m <= p && Divides(p, m * y) && forall k: nat :: 1 <= k < m ==> !Divides(p, k * y)
  {
    DividesTimes(p, y);
    assert Divides(p, p * y);
    m := 1;
    while !Divides(p, m * y)
      invariant 1 <= m <= p && forall k: nat :: 1 <= k < m ==> !Divides(p, k * y)
      decreases p - m
    {
      m := m + 1;
    }
  }

  lemma MultiplierDivides(p: nat, y: int, m: nat, k: nat)
    requires p >= 1 && m >= 1 && Divides(p, m * y) && Divides(p, k * y)
    requires forall l: nat :: 1 <= l < m ==> !Divides(p, l * y)
    ensures Divides(m, k)
  {
    RestDivides(m, k);
    hide Divides;
    RestOfMultiplier(p, y, m, k / m, k % m);
    if k % m != 0 {
      assert false;
    }
  }

  lemma RestOfMultiplier(p: nat, y: int, m: nat, q: nat, r: nat)
    requires p >= 1 && Divides(p, m * y) && Divides(p, (q * m + r) * y)
    ensures Divides(p, r * y)
  {
    hide Divides;
    RestTimes(q, m, r, y);
    var whole, part := (q * m + r) * y, m * y;
    DividesMultiple(p, part, q);
    DividesSum(p, whole, q * part);
  }

  lemma RestTimes(q: nat, m: nat, r: nat, y: int)
    ensures (q * m + r) * y - q * (m * y) == r * y
  {
  }

  /** Euclid's lemma */
  lemma Euclid(p: nat, x: nat, y: int)
    requires Prime(p) && Divides(p, x * y)
    ensures Divides(p, x) || Divides(p, y)
  {
    var m := LeastMultiplier(p, y);
    DividesTimes(p, y);
    assert Divides(p, p * y);
    MultiplierDivides(p, y, m, p);
    MultiplierDivides(p, y, m, x);
    if m == 1 {
      assert 1 * y == y;
    }
  }

  /** In a prime modulus, one has only the two square roots. */
  lemma RootsOfOne(p: nat, x: nat)
    requires Prime(p) && x < p && Congruent(x * x, 1, p)
    ensures x == 1 || x == p - 1
  {
    assert (x + 1) * (x - 1) == x * x - 1;
    Euclid(p, x + 1, x - 1);
    if Divides(p, x + 1) {
      DividesTimes(p, 1);
      DividesSum(p, x + 1, p);
      SmallMultiple(p, x + 1 - p);
    } else {
      SmallMultiple(p, x - 1);
    }
  }

  // ---------- powers and products ----------

  function Power(a: nat, d: nat): (r: nat) {
    if d == 0 then 1 else a * Power(a, d - 1)
  }

  lemma {:induction false} PowerAdd(a: nat, d: nat, e: nat)
    ensures Power(a, d + e) == Power(a, d) * Power(a, e)
  {
    if d != 0 {
      PowerAdd(a, d - 1, e);
      assert a * (Power(a, d - 1) * Power(a, e)) == (a * Power(a, d - 1)) * Power(a, e);
    }
  }

  lemma {:induction false} PowerOfSquare(a: nat, d: nat)
    ensures Power(a * a, d) == Power(a, 2 * d)
  {
    if d != 0 {
      PowerOfSquare(a, d - 1);
      PowerAdd(a, 2, 2 * (d - 1));
      assert Power(a, 2) == a * Power(a, 1) == a * (a * 1);
    }
  }

  lemma {:induction false} CongruentPower(x: nat, y: nat, d: nat, n: nat)
    requires Congruent(x, y, n)
    ensures Congruent(Power(x, d), Power(y, d), n)
  {
    if d == 0 {
      CongruentSelf(1, n);
    } else {
      CongruentPower(x, y, d - 1, n);
      CongruentTimes(x, y, Power(x, d - 1), Power(y, d - 1), n);
    }
  }

  function Product(s: seq<nat>): (r: nat) {
    if s == [] then 1 else Product(s[..|s| - 1]) * s[|s| - 1]
  }

  function Factorial(n: nat): (r: nat)
    ensures r >= 1
  {
    if n == 0 then 1 else PositiveProduct(n, Factorial(n - 1))
  }

  function PositiveProduct(a: nat, b: nat): (r: nat)
    requires a >= 1 && b >= 1
    ensures r == a * b >= 1
  {
    a * b
  }

  lemma {:induction false} ProductWithout(s: seq<nat>, j: nat)
    requires j < |s|
    ensures Product(s) == s[j] * Product(s[..j] + s[j + 1..])
  {
    var last := |s| - 1;
    if j == last {
      assert s[..j] + s[j + 1..] == s[..last];
    } else {
      ProductWithout(s[..last], j);
      var rest := s[..last][..j] + s[..last][j + 1..];
      assert (s[..j] + s[j + 1..])[..last - 1] == rest;
      assert (s[..j] + s[j + 1..])[last - 1] == s[last];
      assert s[j] * Product(rest) * s[last] == s[j] * (Product(rest) * s[last]);
    }
  }

  /** The numbers from 1 to `n`, in any order, multiply to the factorial. */
  lemma {:induction false} ProductOfAll(s: seq<nat>, n: nat)
    requires |s| == n && Distinct(s) && forall i :: 0 <= i < n ==> 1 <= s[i] <= n
    ensures Product(s) == Factorial(n)
  {
    if n != 0 {
      var j := LargestIn(s, n);
      ProductWithout(s, j);
      var rest := s[..j] + s[j + 1..];
      RestWithoutLargest(s, n, j);
      ProductOfAll(rest, n - 1);
    }
  }

  lemma LargestIn(s: seq<nat>, n: nat) returns (j: nat)
    requires |s| == n >= 1 && Distinct(s) && forall i :: 0 <= i < n ==> 1 <= s[i] <= n
    ensures j < n && s[j] == n
  {
    var shifted := seq<nat>(n, i requires 0 <= i < n => s[i] - 1);
    assert Distinct(shifted);
    DistinctBelow(shifted, n);
    assert n - 1 in shifted;
    j :| 0 <= j < n && shifted[j] == n - 1;
  }

  lemma RestWithoutLargest(s: seq<nat>, n: nat, j: nat)
    requires |s| == n && Distinct(s) && (forall i :: 0 <= i < n ==> 1 <= s[i] <= n) && j < n && s[j] == n
    ensures var rest := s[..j] + s[j + 1..];
            |rest| == n - 1 && Distinct(rest) && forall i :: 0 <= i < n - 1 ==> 1 <= rest[i] <= n - 1
  {
    var rest := s[..j] + s[j + 1..];
    forall i | 0 <= i < n - 1
      ensures rest[i] == s[if i < j then i else i + 1] && 1 <= rest[i] <= n - 1
    {
    }
  }

  // ---------- Fermat's little theorem ----------

  /** The multiples of `a` by 1, 2, ..., `k`, reduced */
  function Multiples(a: nat, p: nat, k: nat): (s: seq<nat>)
    requires p >= 1
    ensures |s| == k && forall i :: 0 <= i < k ==> s[i] == a * (i + 1) % p
  {
    seq<nat>(k, i requires 0 <= i < k => a * (i + 1) % p)
  }

  lemma {:induction false} ProductOfMultiples(a: nat, p: nat, k: nat)
    requires p >= 1
    ensures Congruent(Product(Multiples(a, p, k)), Power(a, k) * Factorial(k), p)
  {
    var s := Multiples(a, p, k);
    if k == 0 {
      CongruentSelf(1, p);
    } else {
      ProductOfMultiples(a, p, k - 1);
      assert s[..k - 1] == Multiples(a, p, k - 1);
      CongruentRest(a * k, p);
      CongruentTimes(Product(s[..k - 1]), Power(a, k - 1) * Factorial(k - 1), s[k - 1], a * k, p);
      Regroup(Power(a, k - 1), Factorial(k - 1), a, k);
    }
  }

  lemma Regroup(w: nat, f: nat, a: nat, k: nat)
    ensures (w * f) * (a * k) == (a * w) * (k * f)
  {
    assert (w * f) * (a * k) == w * (f * (a * k));
    assert f * (a * k) == a * (k * f);
    assert w * (a * (k * f)) == (w * a) * (k * f);
  }

  /** The multiples are again the numbers from 1 to `p - 1`. */
  lemma MultiplesDiffer(a: nat, p: nat)
    requires Prime(p) && !Divides(p, a)
    ensures var s := Multiples(a, p, p - 1); Distinct(s) && forall i :: 0 <= i < |s| ==> 1 <= s[i] <= p - 1
  {
    var s := Multiples(a, p, p - 1);
    forall i | 0 <= i < p - 1
      ensures 1 <= s[i] <= p - 1
    {
      MultipleNotZero(a, p, i + 1);
    }
    forall i, j | 0 <= i < j < |s|
      ensures s[i] != s[j]
    {
      MultiplesDifferAt(a, p, i + 1, j + 1);
    }
  }

  lemma MultipleNotZero(a: nat, p: nat, i: nat)
    requires Prime(p) && !Divides(p, a) && 1 <= i < p
    ensures 1 <= a * i % p < p
  {
    RestDivides(p, a * i);
    if Divides(p, a * i) {
      Euclid(p, a, i);
      SmallMultiple(p, i);
    }
  }

  lemma MultiplesDifferAt(a: nat, p: nat, i: nat, j: nat)
    requires Prime(p) && !Divides(p, a) && 1 <= i < j < p
    ensures a * i % p != a * j % p
  {
    CongruentRest(a * i, p);
    CongruentRest(a * j, p);
    if a * i % p == a * j % p {
      CongruentTrans(a * j, a * j % p, a * i, p);
      assert a * j - a * i == a * (j - i);
      Euclid(p, a, j - i);
      SmallMultiple(p, j - i);
    }
  }

  lemma {:induction false} FactorialNotDivided(p: nat, k: nat)
    requires Prime(p) && k < p
    ensures !Divides(p, Factorial(k))
  {
    if Divides(p, Factorial(k)) {
      if k == 0 {
        SmallMultiple(p, 1);
      } else {
        FactorialNotDivided(p, k - 1);
        Euclid(p, k, Factorial(k - 1));
        SmallMultiple(p, k);
      }
    }
  }

  /** Fermat's little theorem */
  lemma Fermat(p: nat, a: nat)
    requires Prime(p) && !Divides(p, a)
    ensures Congruent(Power(a, p - 1), 1, p)
  {
    var s, w, f := Multiples(a, p, p - 1), Power(a, p - 1), Factorial(p - 1);
    MultiplesDiffer(a, p);
    ProductOfAll(s, p - 1);
    ProductOfMultiples(a, p, p - 1);
    FactorialNotDivided(p, p - 1);
    Cancel(p, f, w);
  }

  lemma Cancel(p: nat, f: nat, w: nat)
    requires Prime(p) && !Divides(p, f) && Congruent(f, w * f, p)
    ensures Congruent(w, 1, p)
  {
    DividesMultiple(p, f - w * f, -1);
    assert -1 * (f - w * f) == f * (w - 1);
    Euclid(p, f, w - 1);
  }

  // ---------- a prime above every number ----------

  lemma LeastDivisor(x: nat) returns (p: nat)
    requires x >= 2
    ensures Prime(p) && Divides(p, x)
  {
    DividesTimes(x, 1);
    p := 2;
    while !Divides(p, x)
      invariant 2 <= p <= x && forall d: nat :: 1 < d < p ==> !Divides(d, x)
      decreases x - p
    {
      p := p + 1;
    }
    forall d: nat | 1 < d < p
      ensures !Divides(d, p)
    {
      if Divides(d, p) {
        DividesTrans(d, p, x);
      }
    }
  }

  lemma {:induction false} DividesFactorial(d: nat, n: nat)
    requires 1 <= d <= n
    ensures Divides(d, Factorial(n))
  {
    if d == n {
      DividesTimes(d, Factorial(n - 1));
      assert Factorial(n) == Factorial(n - 1) * n;
    } else {
      DividesFactorial(d, n - 1);
      DividesMultiple(d, Factorial(n - 1), n);
    }
  }

  /** There is a prime above every number. */
  lemma PrimeAbove(n: nat) returns (p: nat)
    ensures Prime(p) && p > n
  {
    p := LeastDivisor(Factorial(n) + 1);
    if p <= n {
      DividesFactorial(p, n);
      DividesSum(p, Factorial(n) + 1, Factorial(n));
      SmallMultiple(p, 1);
    }
  }
}
