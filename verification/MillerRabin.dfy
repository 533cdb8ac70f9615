/**
 The primality check that picks the number of CHD's bins (miller_rabin.c, chd_ph.c): it accepts every prime
 above 61, so that the search for a number of bins ends.
 */
module MillerRabin {
  import opened Words
  import opened NumberTheory

  // ---------- modular powers ----------

  /** `int_pow`, by repeated squaring */
  method IntPow(a: nat, d0: nat, n: nat) returns (res: nat)
    requires n >= 2
    ensures res == Power(a, d0) % n
  {
    var aPow, d := a, d0;
    res := 1;
    StartPower(a, d0, n);
    while d > 0
      invariant Congruent(res * Power(aPow, d), Power(a, d0), n) && res < n
    {
      PowerStep(res, aPow, d, Power(a, d0), n);
      hide Power, Congruent;
      if d % 2 == 1 {
        res := Reduced(res, aPow, n);
      }
      aPow := Reduced(aPow, aPow, n);
      d := d / 2;
    }
    EndPower(res, aPow, Power(a, d0), n);
  }

  /** `(x * y) % n` */
  function Reduced(x: nat, y: nat, n: nat): (r: nat)
    requires n >= 1
    ensures r < n
  {
    SmallRest(x * y, n);
    x * y % n
  }

  lemma SmallRest(x: nat, n: nat)
    requires n >= 1
    ensures 0 <= x % n < n
  {
  }

  /** Reduced factors below 2^32 have products that fit in 64 bits. */
  lemma ProductFits(x: nat, y: nat, n: nat)
    requires x < n && y < n && n <= 0x1_0000_0000
    ensures x * y < 0x1_0000_0000_0000_0000
  {
    assert x * y <= x * 0x1_0000_0000 <= 0x1_0000_0000 * 0xffff_ffff;
  }

  lemma StartPower(a: nat, d: nat, n: nat)
    ensures Congruent(1 * Power(a, d), Power(a, d), n)
  {
    CongruentSelf(Power(a, d), n);
  }

  lemma EndPower(res: nat, aPow: nat, goal: nat, n: nat)
    requires n >= 1 && res < n && Congruent(res * Power(aPow, 0), goal, n)
    ensures res == goal % n
  {
    assert res * Power(aPow, 0) == res;
    RestsEqual(res, goal, n);
    assert res % n == res;
  }

  /** One round keeps the product of the result and the power still to be multiplied. */
  lemma PowerStep(res: nat, aPow: nat, d: nat, goal: nat, n: nat)
    requires n >= 2 && d > 0 && Congruent(res * Power(aPow, d), goal, n)
    ensures var res' := if d % 2 == 1 then Reduced(res, aPow, n) else res;
            Congruent(res' * Power(Reduced(aPow, aPow, n), d / 2), goal, n)
  {
    var h, sq := d / 2, Reduced(aPow, aPow, n);
    CongruentRest(aPow * aPow, n);
    CongruentPower(sq, aPow * aPow, h, n);
    PowerOfSquare(aPow, h);
    hide Reduced;
    if d % 2 == 1 {
      OddStep(res, aPow, d, h, Power(sq, h), Reduced(res, aPow, n), goal, n);
    } else {
      CongruentSelf(res, n);
      CongruentTimes(res, res, Power(sq, h), Power(aPow, d), n);
      CongruentTrans(res * Power(sq, h), res * Power(aPow, d), goal, n);
    }
  }

  lemma OddStep(res: nat, aPow: nat, d: nat, h: nat, w: nat, res': nat, goal: nat, n: nat)
    requires n >= 2 && d == 2 * h + 1 && Congruent(res * Power(aPow, d), goal, n)
    requires Congruent(w, Power(aPow, 2 * h), n) && res' == Reduced(res, aPow, n)
    ensures Congruent(res' * w, goal, n)
  {
    CongruentRest(res * aPow, n);
    CongruentTimes(res', res * aPow, w, Power(aPow, 2 * h), n);
    assert (res * aPow) * Power(aPow, 2 * h) == res * (aPow * Power(aPow, 2 * h));
    CongruentTrans(res' * w, res * Power(aPow, d), goal, n);
  }

  // ---------- witnesses ----------

  /** `x` squared `k` times, reduced */
  function Squared(x: nat, k: nat, n: nat): (r: nat)
    requires n >= 1
  {
    if k == 0 then x else Reduced(Squared(x, k - 1, n), Squared(x, k - 1, n), n)
  }

  /** The power stands for a prime: it is one, or one of its first squares is `n - 1`. */
  ghost predicate NoWitness(x: nat, n: nat, s: nat)
    requires n >= 1
  {
    x == 1 || exists i :: 0 <= i < s && Squared(x, i, n) == n - 1
  }

  lemma SmallIsRest(x: nat, n: nat)
    requires x < n
    ensures x % n == x
  {
  }

  lemma SquaredBelow(x: nat, k: nat, n: nat)
    requires n >= 1 && x < n
    ensures Squared(x, k, n) < n
  {
  }

  /** Squaring `k` times raises to the power of `2^k`. */
  lemma {:induction false} SquaredIsPower(a: nat, d: nat, k: nat, n: nat)
    requires n >= 1
    ensures Congruent(Squared(Power(a, d) % n, k, n), Power(a, Pow2(k) * d), n)
  {
    var x := Power(a, d) % n;
    if k == 0 {
      CongruentRest(Power(a, d), n);
    } else {
      SquaredIsPower(a, d, k - 1, n);
      var y, e := Squared(x, k - 1, n), Pow2(k - 1) * d;
      CongruentTimes(y, Power(a, e), y, Power(a, e), n);
      PowerAdd(a, e, e);
      CongruentRest(y * y, n);
      CongruentTrans(y * y % n, y * y, Power(a, e + e), n);
      assert Pow2(k) * d == e + e by {
        assert 2 * Pow2(k - 1) * d == 2 * (Pow2(k - 1) * d);
      }
    }
  }

  lemma SquaredIsRest(a: nat, d: nat, k: nat, n: nat)
    requires n >= 1
    ensures Squared(Power(a, d) % n, k, n) == Power(a, Pow2(k) * d) % n
  {
    hide Squared, Power, Pow2;
    SquaredIsPower(a, d, k, n);
    SmallRest(Power(a, d), n);
    SquaredBelow(Power(a, d) % n, k, n);
    SmallIsRest(Squared(Power(a, d) % n, k, n), n);
    RestsEqual(Squared(Power(a, d) % n, k, n), Power(a, Pow2(k) * d), n);
  }

  /** In powers alone: the number is one, or its power to some `2^i` leaves `n - 1`. */
  lemma NoWitnessMeans(x: nat, n: nat, s: nat)
    requires x < n && n >= 2
    ensures NoWitness(x, n, s) <==> x == 1 || exists i: nat :: i < s && Power(x, Pow2(i)) % n == n - 1
  {
    hide Squared, Power, Pow2;
    SmallIsRest(x, n);
    FirstPower(x);
    forall i: nat
      ensures Squared(x, i, n) == Power(x, Pow2(i)) % n
    {
      SquaredIsRest(x, 1, i, n);
      assert Pow2(i) * 1 == Pow2(i);
    }
    if i: nat :| i < s && Squared(x, i, n) == n - 1 {
      assert Power(x, Pow2(i)) % n == n - 1;
    }
    if i: nat :| i < s && Power(x, Pow2(i)) % n == n - 1 {
      assert Squared(x, i, n) == n - 1;
    }
  }

  lemma FirstPower(x: nat)
    ensures Power(x, 1) == x
  {
    assert Power(x, 1) == x * Power(x, 0);
  }

  /** `check_witness` */
  method CheckWitness(aExpD: nat, n: nat, s: nat) returns (r: bool)
    requires n >= 2 && s >= 1
    ensures r <==> NoWitness(aExpD, n, s)
    ensures aExpD < n ==> (r <==> aExpD == 1 || exists i: nat :: i < s && Power(aExpD, Pow2(i)) % n == n - 1)
  {
    if aExpD < n {
      NoWitnessMeans(aExpD, n, s);
    }
    hide Power, Pow2, Reduced;
    var aExp := aExpD;
    assert Squared(aExpD, 0, n) == aExpD;
    if aExp == 1 || aExp == n - 1 {
      return true;
    }
    var i := 1;
    while i < s
      invariant 1 <= i <= s && aExp == Squared(aExpD, i - 1, n)
      invariant forall j :: 0 <= j < i ==> Squared(aExpD, j, n) != n - 1
    {
      aExp := Reduced(aExp, aExp, n);
      assert aExp == Squared(aExpD, i, n);
      if aExp == n - 1 {
        return true;
      }
      i := i + 1;
    }
    return false;
  }

  /** When squaring leads to one in a prime modulus, it got there from one, or from `n - 1`. */
  lemma {:induction false} PrimeHasNoWitness(x: nat, n: nat, s: nat)
    requires Prime(n) && x < n && Squared(x, s, n) == 1
    ensures NoWitness(x, n, s)
  {
    if s != 0 {
      var y := Squared(x, s - 1, n);
      SquaredBelow(x, s - 1, n);
      CongruentRest(y * y, n);
      assert Congruent(y * y, 1, n);
      RootsOfOne(n, y);
      if y == 1 {
        PrimeHasNoWitness(x, n, s - 1);
        if x != 1 {
          var i :| 0 <= i < s - 1 && Squared(x, i, n) == n - 1;
          assert 0 <= i < s;
        }
      } else {
        assert Squared(x, s - 1, n) == n - 1;
      }
    }
  }

  // ---------- the check ----------

  /** How often 2 divides a number, and what is left */
  function Twos(x: nat): (s: nat)
    requires x >= 1
  {
    if x % 2 == 0 then 1 + Twos(x / 2) else 0
  }

  function OddPart(x: nat): (d: nat)
    requires x >= 1
    ensures d % 2 == 1
  {
    if x % 2 == 0 then OddPart(x / 2) else x
  }

  lemma {:induction false} Decomposed(x: nat)
    requires x >= 1
    ensures x == Pow2(Twos(x)) * OddPart(x)
  {
    if x % 2 == 0 {
      Decomposed(x / 2);
      assert 2 * Pow2(Twos(x / 2)) * OddPart(x / 2) == 2 * (Pow2(Twos(x / 2)) * OddPart(x / 2));
    }
  }

  /** The base does not show that the number is composite. */
  ghost predicate PassesBase(n: nat, a: nat)
    requires n >= 2
  {
    NoWitness(Power(a, OddPart(n - 1)) % n, n, Twos(n - 1))
  }

  /** What the check accepts */
  ghost predicate Accepted(n: nat) {
    && n >= 2 && n % 2 != 0 && n % 3 != 0 && n % 5 != 0 && n % 7 != 0
    && PassesBase(n, 2) && PassesBase(n, 7) && PassesBase(n, 61)
  }

  /** The loop that takes the factors of two out of `n - 1`; for `n == 1` it would not end. */
  method Decompose(n: nat) returns (s: nat, d: nat)
    requires n >= 3 && n % 2 == 1
    ensures s == Twos(n - 1) >= 1 && d == OddPart(n - 1)
  {
    s, d := 1, (n - 1) / 2;
    while d % 2 == 0
      invariant d >= 1 && s >= 1 && s + Twos(d) == Twos(n - 1) && OddPart(d) == OddPart(n - 1)
      decreases d
    {
      s := s + 1;
      d := d / 2;
    }
  }

  method CheckBase(n: nat, a: nat, d: nat, s: nat) returns (r: bool)
    requires n >= 3 && n % 2 == 1 && s == Twos(n - 1) >= 1 && d == OddPart(n - 1)
    ensures r <==> PassesBase(n, a)
  {
    var aExpD := IntPow(a, d, n);
    r := CheckWitness(aExpD, n, s);
  }

  /** `check_primality` */
  method CheckPrimality(n: nat) returns (r: bool)
    requires n != 1
    ensures r <==> Accepted(n)
    ensures r ==> Power(2, n - 1) % n == Power(7, n - 1) % n == Power(61, n - 1) % n == 1
  {
    hide PassesBase, Power;
    if n % 2 == 0 || n % 3 == 0 || n % 5 == 0 || n % 7 == 0 {
      return false;
    }
    var s, d := Decompose(n);
    r := CheckBase(n, 2, d, s);
    if !r {
      return;
    }
    r := CheckBase(n, 7, d, s);
    if !r {
      return;
    }
    r := CheckBase(n, 61, d, s);
    if r {
      AcceptedIsFermat(n);
    }
  }

  /** A number is a power of two times an odd number in one way only. */
  lemma {:induction false} DecomposedOnce(x: nat, s: nat, d: nat)
    requires x >= 1 && x == Pow2(s) * d && d % 2 == 1
    ensures s == Twos(x) && d == OddPart(x)
  {
    if s != 0 {
      var h := Pow2(s - 1) * d;
      assert x == 2 * h by {
        assert 2 * Pow2(s - 1) * d == 2 * (Pow2(s - 1) * d);
      }
      DecomposedOnce(h, s - 1, d);
      assert x / 2 == h && x % 2 == 0;
    } else {
      assert Pow2(0) * d == d;
    }
  }

  /** What it is to pass, in powers alone: the one to the odd part leaves 1, or one of its squares before that to `n -
      1` leaves `n - 1`. */
  lemma PassesBaseMeans(n: nat, a: nat, s: nat, d: nat)
    requires n >= 3 && n - 1 == Pow2(s) * d && d % 2 == 1
    ensures PassesBase(n, a)
            <==> Power(a, d) % n == 1 || exists i: nat :: i < s && Power(a, Pow2(i) * d) % n == n - 1
  {
    hide Squared, Power, Pow2, Twos, OddPart;
    DecomposedOnce(n - 1, s, d);
    var x := Power(a, d) % n;
    forall i: nat
      ensures Squared(x, i, n) == Power(a, Pow2(i) * d) % n
    {
      SquaredIsRest(a, d, i, n);
    }
    if i: nat :| i < s && Squared(x, i, n) == n - 1 {
      assert Power(a, Pow2(i) * d) % n == n - 1;
    }
    if i: nat :| i < s && Power(a, Pow2(i) * d) % n == n - 1 {
      assert Squared(x, i, n) == n - 1;
    }
  }

  /** What passes a base satisfies Fermat's theorem for it. */
  lemma PassedIsFermat(n: nat, a: nat)
    requires n >= 3 && PassesBase(n, a)
    ensures Power(a, n - 1) % n == 1
  {
    hide Power, Pow2, Twos, OddPart, Reduced;
    var s, d := Twos(n - 1), OddPart(n - 1);
    var x := Power(a, d) % n;
    Decomposed(n - 1);
    SquaredIsRest(a, d, s, n);
    if x == 1 {
      assert Squared(x, 0, n) == 1;
      SquaresOfOne(x, 0, s, n);
    } else {
      var i :| 0 <= i < s && Squared(x, i, n) == n - 1;
      MinusOneSquared(n);
      SquaresOfOne(x, i + 1, s, n);
    }
  }

  lemma MinusOneSquared(n: nat)
    requires n >= 2
    ensures Reduced(n - 1, n - 1, n) == 1
  {
    assert (n - 1) * (n - 1) == (n - 2) * n + 1;
    DivModUnique((n - 1) * (n - 1), n, n - 2, 1);
  }

  lemma {:induction false} SquaresOfOne(x: nat, i: nat, k: nat, n: nat)
    requires n >= 2 && i <= k && Squared(x, i, n) == 1
    ensures Squared(x, k, n) == 1
  {
    if i < k {
      SquaresOfOne(x, i, k - 1, n);
      SmallIsRest(1, n);
    }
  }

  /** So what the check accepts satisfies it for all three bases. */
  lemma AcceptedIsFermat(n: nat)
    requires Accepted(n)
    ensures n % 2 != 0 && n % 3 != 0 && n % 5 != 0 && n % 7 != 0
    ensures Power(2, n - 1) % n == Power(7, n - 1) % n == Power(61, n - 1) % n == 1
  {
    hide PassesBase;
    PassedIsFermat(n, 2);
    PassedIsFermat(n, 7);
    PassedIsFermat(n, 61);
  }

  /** A composite number that the divisions let through is refused: 11 * 11. */
  lemma SquareOfElevenRefused()
    ensures !Accepted(121)
  {
    hide Power, Pow2;
    PowersOfTwo();
    SquareOfPower(2, 15, 98, 45, 121);
    SquareOfPower(2, 30, 45, 89, 121);
    PassesBaseMeans(121, 2, 3, 15);
    forall i: nat | i < 3
      ensures Power(2, Pow2(i) * 15) % 121 == if i == 0 then 98 else if i == 1 then 45 else 89
    {
    }
  }

  lemma PowersOfTwo()
    ensures Pow2(0) == 1 && Pow2(1) == 2 && Pow2(2) == 4 && Pow2(3) == 8 && Power(2, 15) % 121 == 98
  {
    assert Power(2, 3) == 2 * (2 * (2 * Power(2, 0)));
    PowerAdd(2, 3, 3);
    PowerAdd(2, 6, 6);
    PowerAdd(2, 12, 3);
    assert Pow2(1) == 2 * Pow2(0) && Pow2(2) == 2 * Pow2(1) && Pow2(3) == 2 * Pow2(2);
  }

  lemma SquareOfPower(a: nat, d: nat, x: nat, y: nat, n: nat)
    requires n >= 1 && Power(a, d) % n == x && x * x % n == y
    ensures Power(a, 2 * d) % n == y
  {
    PowerAdd(a, d, d);
    CongruentRest(Power(a, d), n);
    CongruentTimes(Power(a, d), x, Power(a, d), x, n);
    RestsEqual(Power(a, d) * Power(a, d), x * x, n);
  }

  /** A base stops a prime only if the prime divides it. */
  lemma PrimePassesBase(n: nat, a: nat)
    requires Prime(n) && n >= 3 && !Divides(n, a)
    ensures PassesBase(n, a)
  {
    var s, d := Twos(n - 1), OddPart(n - 1);
    var x := Power(a, d) % n;
    Fermat(n, a);
    Decomposed(n - 1);
    SquaredIsPower(a, d, s, n);
    SmallRest(Power(a, d), n);
    SquaredBelow(x, s, n);
    CongruentTrans(Squared(x, s, n), Power(a, n - 1), 1, n);
    RestsEqual(Squared(x, s, n), 1, n);
    SmallIsRest(Squared(x, s, n), n);
    SmallIsRest(1, n);
    PrimeHasNoWitness(x, n, s);
  }

  /** If it does, the power is zero, and so are all its squares. */
  lemma OwnBaseStops(n: nat)
    requires n >= 3
    ensures !PassesBase(n, n)
  {
    var d := OddPart(n - 1);
    assert Power(n, d) == n * Power(n, d - 1);
    ZeroRest(n, Power(n, d - 1));
    forall i: nat
      ensures Squared(0, i, n) == 0
    {
      ZeroSquared(i, n);
    }
  }

  lemma ZeroRest(n: nat, w: nat)
    requires n >= 1
    ensures n * w % n == 0
  {
    DivModUnique(n * w, n, w, 0);
  }

  lemma {:induction false} ZeroSquared(k: nat, n: nat)
    requires n >= 1
    ensures Squared(0, k, n) == 0
  {
    if k != 0 {
      ZeroSquared(k - 1, n);
      SmallIsRest(0, n);
    }
  }

  /** The check refuses the primes that it divides by, and 61, its own base; it accepts all others. */
  lemma PrimesAccepted(n: nat)
    requires Prime(n)
    ensures Accepted(n) <==> n !in {2, 3, 5, 7, 61}
  {
    hide PassesBase;
    if n == 61 {
      OwnBaseStops(61);
    } else if n > 7 {
      NotDivided(n, 2);
      NotDivided(n, 3);
      NotDivided(n, 5);
      NotDivided(n, 7);
      BasesNotDivided(n);
      PrimePassesBase(n, 2);
      PrimePassesBase(n, 7);
      PrimePassesBase(n, 61);
    } else {
      NotFourOrSix(n);
    }
  }

  lemma BasesNotDivided(n: nat)
    requires n > 7 && n != 61
    ensures !Divides(n, 2) && !Divides(n, 7) && !Divides(n, 61)
  {
    if Divides(n, 2) {
      SmallMultiple(n, 2);
    }
    if Divides(n, 7) {
      SmallMultiple(n, 7);
    }
    forall k: int
      ensures Times(k, n) != 61
    {
      if k >= 8 {
        TimesBounds(k - 7, n);
      }
      TimesBounds(k, n);
    }
  }

  lemma NotFourOrSix(n: nat)
    requires Prime(n)
    ensures n != 4 && n != 6
  {
    DividesTimes(2, 2);
    DividesTimes(2, 3);
  }

  lemma NotDivided(n: nat, d: nat)
    requires Prime(n) && 1 < d < n
    ensures n % d != 0
  {
    RestDivides(d, n);
  }

  // ---------- the number of bins ----------

  /** No number from `lo` to below `hi` is accepted. */
  ghost predicate NoneAccepted(lo: nat, hi: nat) {
    forall k :: lo <= k < hi ==> !Accepted(k)
  }

  /** The loop of `chd_ph_new` that rounds the number of bins up to the next number that is accepted: it ends at the
      latest at any prime above the start. */
  method BinCount(n0: nat, ghost prime: nat) returns (n: nat)
    requires n0 >= 2 && Prime(prime) && prime > 61 && prime >= n0
    ensures n0 <= n <= prime && n % 2 == 1 && Accepted(n)
    ensures forall k :: n0 <= k < n ==> !Accepted(k)
  {
    hide Accepted, Prime;
    PrimesAccepted(prime);
    NoneBefore(n0);
    PrimeIsOdd(prime, n0);
    n := n0;
    if n % 2 == 0 {
      n := n + 1;
    }
    while true
      invariant n0 <= n <= prime && n % 2 == 1
      invariant NoneAccepted(n0, n)
      decreases prime - n
    {
      var accepted := CheckPrimality(n);
      if accepted {
        break;
      }
      NextOdd(n0, n, prime);
      n := n + 2;
    }
  }

  lemma PrimeIsOdd(prime: nat, n0: nat)
    requires Prime(prime) && prime > 61 && prime >= n0
    ensures prime % 2 == 1 && (n0 % 2 == 0 ==> n0 + 1 <= prime && (n0 + 1) % 2 == 1)
  {
    NotDivided(prime, 2);
  }

  lemma NextOdd(n0: nat, n: nat, prime: nat)
    requires n % 2 == 1 && prime % 2 == 1 && n < prime && NoneAccepted(n0, n) && !Accepted(n)
    ensures n + 2 <= prime && (n + 2) % 2 == 1 && NoneAccepted(n0, n + 2)
  {
    hide Accepted;
    EvenRefused(n + 1);
  }

  lemma EvenRefused(k: nat)
    requires k % 2 == 0
    ensures !Accepted(k)
  {
  }

  lemma NoneBefore(n0: nat)
    ensures NoneAccepted(n0, n0) && (n0 % 2 == 0 ==> NoneAccepted(n0, n0 + 1))
  {
  }

  /** Over unbounded numbers there always is such a prime, so that the loop ends. */
  lemma BinCountEnds(n0: nat) returns (prime: nat)
    ensures Prime(prime) && prime > 61 && prime >= n0
  {
    prime := PrimeAbove(n0 + 61);
  }

  /** With the default load factor of one half, three bins stay free at least. */
  lemma DefaultLeavesBinsFree(m: nat, n: nat)
    requires m >= 1 && n >= 2 * m + 1 && Accepted(n)
    ensures n >= m + 3
  {
  }
}
