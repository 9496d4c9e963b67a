/**
 After how many steps the register comes back to where it was, and with it the two-bit errors.

 A step multiplies a polynomial over two elements by x, modulo
 x^16 + x^15 + x^2 + 1 = (x + 1)(x^15 + x + 1); bit 15 of the register is the coefficient of degree 0.
 The multiples of x + 1 obey x^15 = x + 1, so squaring maps x, x^2, x^4, x^8 to x^2, x^4, x^8, x + x^2.
 */
module CrcOrder {
  import opened CrcRegister
  import opened CrcTheory

  /** 2^15 - 1, which is 7 * 31 * 151. */
  const ORDER: nat := 32767

  /** The polynomial 1. */
  function Unit(): (w: Word)
    ensures forall i :: 0 <= i < 16 ==> w[i] == (i == 15)
  {
    seq(16, i => i == 15)
  }

  /** x^n + x^(n + 1). */
  function Orbit(n: nat): Word {
    Steps(Xor(Step(Unit()), Unit()), n)
  }

  // ----- steps -----

  lemma {:induction false} StepsAdd(w: Word, m: nat, n: nat)
    ensures Steps(w, m + n) == Steps(Steps(w, m), n)
    decreases m
  {
    if m > 0 {
      StepsAdd(Step(w), m - 1, n);
    }
  }

  lemma {:induction false} StepsLinear(x: Word, y: Word, n: nat)
    ensures Steps(Xor(x, y), n) == Xor(Steps(x, n), Steps(y, n))
    decreases n
  {
    if n > 0 {
      StepLinear(x, y);
      StepsLinear(Step(x), Step(y), n - 1);
    }
  }

  lemma XorZero(x: Word, y: Word)
    ensures Xor(x, y) == Zeros(16) <==> x == y
  {
    if Xor(x, y) == Zeros(16) {
      forall i | 0 <= i < 16 ensures x[i] == y[i] {
        assert !Xor(x, y)[i];
      }
    }
  }

  lemma StepsInjective(x: Word, y: Word, n: nat)
    ensures Steps(x, n) == Steps(y, n) <==> x == y
  {
    StepsLinear(x, y, n);
    StepsKeepNonZero(Xor(x, y), n);
    XorZero(x, y);
    XorZero(Steps(x, n), Steps(y, n));
  }

  lemma OrbitAdd(m: nat, n: nat)
    ensures Orbit(m + n) == Steps(Orbit(m), n)
  {
    StepsAdd(Orbit(0), m, n);
  }

  /** While no carry falls out, a step only shifts. */
  lemma {:induction false} OrbitShifts(n: nat)
    requires n <= 14
    ensures forall k :: 0 <= k < 16 ==> Orbit(n)[k] == (k == 15 - n || k == 14 - n)
  {
    if n > 0 {
      OrbitShifts(n - 1);
      OrbitAdd(n - 1, 1);
    }
  }

  lemma StepBit(w: Word, i: nat)
    requires i < 16
    ensures Step(w)[i] == ((i < 15 && w[i + 1]) != (w[0] && (i == 0 || i == 13 || i == 15)))
  {
  }

  lemma FirstFold()
    ensures Orbit(15) == Xor(Orbit(1), Orbit(0))
  {
    OrbitShifts(14);
    OrbitShifts(1);
    OrbitShifts(0);
    OrbitAdd(14, 1);
    assert Steps(Orbit(14), 1) == Step(Orbit(14));
    hide Orbit, Step, Steps;
    var l, r := Orbit(15), Xor(Orbit(1), Orbit(0));
    forall i | 0 <= i < 16 ensures l[i] == r[i] {
      StepBit(Orbit(14), i);
    }
  }

  /** x^15 = x + 1. */
  lemma OrbitFolds(n: nat)
    ensures Orbit(n + 15) == Xor(Orbit(n + 1), Orbit(n))
  {
    hide Orbit;
    FirstFold();
    StepsLinear(Orbit(1), Orbit(0), n);
    OrbitAdd(15, n);
    OrbitAdd(1, n);
    OrbitAdd(0, n);
  }

  // ----- squaring -----

  /** a x + b x^2 + c x^4 + d x^8. */
  datatype Terms = Terms(a: bool, b: bool, c: bool, d: bool)

  function If(b: bool, w: Word): Word {
    if b then w else Zeros(16)
  }

  function Sum(t: Terms, n: nat): Word {
    Xor(Xor(If(t.a, Orbit(n + 1)), If(t.b, Orbit(n + 2))), Xor(If(t.c, Orbit(n + 4)), If(t.d, Orbit(n + 8))))
  }

  function Squared(t: Terms): Terms {
    Terms(t.d, t.a != t.d, t.b, t.c)
  }

  lemma IfSteps(b: bool, n: nat, k: nat)
    ensures Steps(If(b, Orbit(n)), k) == If(b, Orbit(n + k))
  {
    OrbitAdd(n, k);
    OrbitAdd(0, n);
    OrbitAdd(0, n + k);
    StepsAdd(Orbit(0), n, k);
    StepsKeepNonZero(Zeros(16), k);
  }

  lemma PairSteps(a: bool, m: nat, b: bool, n: nat, k: nat)
    ensures Steps(Xor(If(a, Orbit(m)), If(b, Orbit(n))), k) == Xor(If(a, Orbit(m + k)), If(b, Orbit(n + k)))
  {
    hide Orbit, If, Steps;
    StepsLinear(If(a, Orbit(m)), If(b, Orbit(n)), k);
    IfSteps(a, m, k);
    IfSteps(b, n, k);
  }

  lemma SumSteps(t: Terms, n: nat, k: nat)
    ensures Steps(Sum(t, n), k) == Sum(t, n + k)
  {
    hide Orbit, If, Steps;
    StepsLinear(Xor(If(t.a, Orbit(n + 1)), If(t.b, Orbit(n + 2))), Xor(If(t.c, Orbit(n + 4)), If(t.d, Orbit(n + 8))), k);
    PairSteps(t.a, n + 1, t.b, n + 2, k);
    PairSteps(t.c, n + 4, t.d, n + 8, k);
  }

  /** If x^m acts as the terms t, so it does behind any further steps. */
  lemma ActsBehind(t: Terms, m: nat, n: nat)
    requires Orbit(m) == Sum(t, 0)
    ensures Orbit(m + n) == Sum(t, n)
  {
    hide Orbit, Sum;
    OrbitAdd(m, n);
    SumSteps(t, 0, n);
  }

  lemma SumBit(t: Terms, n: nat, i: nat)
    requires i < 16
    ensures Sum(t, n)[i] ==
      (((t.a && Orbit(n + 1)[i]) != (t.b && Orbit(n + 2)[i])) != ((t.c && Orbit(n + 4)[i]) != (t.d && Orbit(n + 8)[i])))
  {
    hide Orbit;
  }

  /** One bit of the square: mixed terms cancel, and x^16 is x + x^2. */
  lemma SquareBit(t: Terms, m: nat, i: nat)
    requires Orbit(m) == Sum(t, 0) && i < 16
    ensures Orbit(2 * m)[i] == Sum(Squared(t), 0)[i]
  {
    hide Orbit, Sum;
    ActsBehind(t, m, m);
    ActsBehind(t, m, 1);
    ActsBehind(t, m, 2);
    ActsBehind(t, m, 4);
    ActsBehind(t, m, 8);
    SumBit(t, m, i);
    SumBit(t, 1, i);
    SumBit(t, 2, i);
    SumBit(t, 4, i);
    SumBit(t, 8, i);
    SumBit(Squared(t), 0, i);
    OrbitFolds(1);
  }

  lemma SquareActs(t: Terms, m: nat)
    requires Orbit(m) == Sum(t, 0)
    ensures Orbit(2 * m) == Sum(Squared(t), 0)
  {
    hide Orbit, Sum;
    var l, r := Orbit(2 * m), Sum(Squared(t), 0);
    forall i | 0 <= i < 16 ensures l[i] == r[i] {
      SquareBit(t, m, i);
    }
  }

  /** The terms of x^(2^k). */
  function Frobenius(k: nat): Terms {
    if k == 0 then Terms(true, false, false, false) else Squared(Frobenius(k - 1))
  }

  lemma {:induction false} FrobeniusActs(k: nat)
    ensures Orbit(Power(k)) == Sum(Frobenius(k), 0)
  {
    if k == 0 {
      assert Orbit(1) == Sum(Terms(true, false, false, false), 0);
    } else {
      FrobeniusActs(k - 1);
      SquareActs(Frobenius(k - 1), Power(k - 1));
    }
  }

  /** The powers that are needed: x^64, x^256, x^512, x^1024, x^4096 and x^32768, which is x. */
  lemma FrobeniusTable()
    ensures Frobenius(6) == Terms(false, false, true, true)
    ensures Frobenius(8) == Terms(true, false, true, false)
    ensures Frobenius(9) == Terms(false, true, false, true)
    ensures Frobenius(10) == Terms(true, true, true, false)
    ensures Frobenius(12) == Terms(true, true, true, true)
    ensures Frobenius(15) == Terms(true, false, false, false)
  {
    assert Frobenius(2) == Terms(false, false, true, false);
    assert Frobenius(4) == Terms(true, true, false, false);
    assert Frobenius(6) == Terms(false, false, true, true);
    assert Frobenius(8) == Terms(true, false, true, false);
    assert Frobenius(10) == Terms(true, true, true, false);
    assert Frobenius(12) == Terms(true, true, true, true);
    assert Frobenius(14) == Terms(true, false, false, true);
  }

  lemma PowersOfTwo()
    ensures Power(6) == 64 && Power(8) == 256 && Power(9) == 512 && Power(10) == 1024
    ensures Power(12) == 4096 && Power(15) == 32768
  {
    assert Power(2) == 4;
    assert Power(4) == 16;
    assert Power(6) == 64;
    assert Power(8) == 256;
    assert Power(10) == 1024;
    assert Power(12) == 4096;
    assert Power(14) == 16384;
  }

  // ----- the order of x -----

  ghost predicate Period(d: nat) {
    Orbit(d) == Orbit(0)
  }

  lemma FullOrder()
    ensures Period(ORDER)
  {
    hide Orbit;
    FrobeniusActs(15);
    FrobeniusTable();
    PowersOfTwo();
    FrobeniusActs(0);
    assert Orbit(ORDER + 1) == Orbit(1);
    OrbitAdd(ORDER, 1);
    OrbitAdd(0, 1);
    StepsInjective(Orbit(ORDER), Orbit(0), 1);
  }

  lemma PeriodRest(a: nat, b: nat)
    requires Period(a)
    ensures Period(a + b) <==> Period(b)
  {
    OrbitAdd(a, b);
    OrbitAdd(0, b);
  }

  lemma {:induction false} PeriodMultiple(d: nat, k: nat)
    requires Period(d)
    ensures Period(k * d)
  {
    if k > 0 {
      PeriodMultiple(d, k - 1);
      PeriodRest(d, (k - 1) * d);
      assert d + (k - 1) * d == k * d;
    }
  }

  // Three proper divisors of the order are no periods: one bit of the register tells.

  /** Bit i of x^n + x^(n + 1), by x^15 = x + 1. */
  function Bit(n: nat, i: nat): bool {
    if n <= 14 then i == 15 - n || i == 14 - n else Bit(n - 14, i) != Bit(n - 15, i)
  }

  lemma {:induction false} BitOfOrbit(n: nat, i: nat)
    requires i < 16
    ensures Orbit(n)[i] == Bit(n, i)
  {
    if n <= 14 {
      OrbitShifts(n);
    } else {
      hide Orbit;
      OrbitFolds(n - 15);
      BitOfOrbit(n - 14, i);
      BitOfOrbit(n - 15, i);
    }
  }

  lemma BitBehindPower(k: nat, m: nat, n: nat, i: nat)
    requires i < 16 && m == Power(k)
    ensures var t := Frobenius(k);
      Bit(m + n, i) == (((t.a && Bit(n + 1, i)) != (t.b && Bit(n + 2, i))) != ((t.c && Bit(n + 4, i)) != (t.d && Bit(n + 8, i))))
  {
    hide Orbit, Sum, Bit;
    FrobeniusActs(k);
    ActsBehind(Frobenius(k), m, n);
    SumBit(Frobenius(k), n, i);
    BitOfOrbit(m + n, i);
    BitOfOrbit(n + 1, i);
    BitOfOrbit(n + 2, i);
    BitOfOrbit(n + 4, i);
    BitOfOrbit(n + 8, i);
  }

  lemma PeriodBit(d: nat, n: nat, i: nat)
    requires Period(d) && i < 16
    ensures Bit(d + n, i) == Bit(n, i)
  {
    hide Bit;
    OrbitAdd(d, n);
    OrbitAdd(0, n);
    BitOfOrbit(d + n, i);
    BitOfOrbit(n, i);
  }

  /** x^256 is x + x^4, and x^39 is x^9 + x^11. */
  lemma Not217()
    ensures !Period(217)
  {
    hide Orbit, Period;
    FrobeniusTable();
    PowersOfTwo();
    BitBehindPower(8, 256, 0, 3);
    assert Bit(39, 3) && !Bit(1, 3) && !Bit(4, 3);
    if Period(217) {
      PeriodBit(217, 39, 3);
    }
  }

  /** x^1057 is (x + x^2 + x^4) x^33 = x^4 + x^5 + x^6 + x^9. */
  lemma Not1057()
    ensures !Period(1057)
  {
    hide Orbit, Period;
    FrobeniusTable();
    PowersOfTwo();
    BitBehindPower(10, 1024, 33, 5);
    assert !Bit(0, 5) && !Bit(34, 5) && !Bit(35, 5) && Bit(37, 5);
    if Period(1057) {
      PeriodBit(1057, 0, 5);
    }
  }

  /** x^(585 + n) is (x^4 + x^8)(x^2 + x^8) x^(9 + n). */
  lemma BitBehind585(n: nat, i: nat)
    requires i < 16
    ensures Bit(585 + n, i) == ((Bit(15 + n, i) != Bit(19 + n, i)) != (Bit(21 + n, i) != Bit(25 + n, i)))
  {
    hide Orbit, Bit;
    FrobeniusTable();
    PowersOfTwo();
    BitBehindPower(9, 512, 73 + n, i);
    BitBehindPower(6, 64, 11 + n, i);
    BitBehindPower(6, 64, 17 + n, i);
  }

  /** x^4681 is (x + x^2 + x^4 + x^8) x^585. */
  lemma Not4681()
    ensures !Period(4681)
  {
    hide Orbit, Period;
    FrobeniusTable();
    PowersOfTwo();
    BitBehindPower(12, 4096, 585, 2);
    BitBehind585(1, 2);
    BitBehind585(2, 2);
    BitBehind585(4, 2);
    BitBehind585(8, 2);
    BitTable();
    if Period(4681) {
      PeriodBit(4681, 0, 2);
    }
  }

  lemma BitTable()
    ensures Bit(26, 2)
    ensures !Bit(0, 2) && !Bit(16, 2) && !Bit(17, 2) && !Bit(19, 2) && !Bit(20, 2) && !Bit(21, 2) && !Bit(22, 2)
    ensures !Bit(23, 2) && !Bit(25, 2) && !Bit(27, 2) && !Bit(29, 2) && !Bit(33, 2)
  {
  }

  // ----- the periods -----

  /** No number from 2 to n divides p. */
  predicate NoDivisor(p: nat, n: nat) {
    n < 2 || (p % n != 0 && NoDivisor(p, n - 1))
  }

  lemma {:induction false} NoDivisorBelow(p: nat, n: nat, r: nat)
    requires NoDivisor(p, n) && 1 < r <= n
    ensures p % r != 0
  {
    if r < n {
      NoDivisorBelow(p, n - 1, r);
    }
  }

  /** Divisors up to the root were tried. */
  predicate Prime(p: nat, root: nat) {
    p > 1 && p < (root + 1) * (root + 1) && NoDivisor(p, root)
  }

  lemma Primes()
    ensures Prime(7, 2) && Prime(31, 5) && Prime(151, 12)
  {
  }

  lemma Outgrows(k: int, d: int)
    requires k > 0
    ensures (d >= 1 ==> k * d >= k) && (d <= -1 ==> k * d <= -k)
  {
  }

  lemma Quotient(k: nat, r: nat)
    requires k > 0
    ensures k * r % k == 0
  {
    var q, m := k * r / k, k * r % k;
    assert k * r == k * q + m;
    Outgrows(k, r - q);
    assert m == k * (r - q);
  }

  lemma Product(k: nat, r: nat, n: nat)
    requires k >= n && r >= n
    ensures k * r >= n * n
  {
    assert k * r >= n * r;
    assert n * r >= n * n;
  }

  lemma SmallerFactor(k: nat, r: nat, n: nat)
    requires k * r < n * n && r >= n
    ensures k < n
  {
    if k >= n {
      Product(k, r, n);
    }
  }

  lemma Division(p: nat, r: nat) returns (k: nat, s: nat)
    requires r > 0
    ensures p == k * r + s && s == p % r < r
  {
    k, s := p / r, p % r;
  }

  /** What is left of a prime p behind multiples of r. */
  lemma PrimeLeaves(p: nat, root: nat, r: nat) returns (k: nat, s: nat)
    requires Prime(p, root) && 1 < r < p
    ensures p == k * r + s && 0 < s < r
  {
    hide NoDivisor;
    k, s := Division(p, r);
    if s == 0 {
      if r <= root {
        NoDivisorBelow(p, root, r);
      } else {
        SmallerFactor(k, r, root + 1);
        Quotient(k, r);
        NoDivisorBelow(p, root, k);
      }
    }
  }

  lemma Distribute(q: nat, k: nat, r: nat, s: nat)
    ensures k * (q * r) + q * s == q * (k * r + s)
  {
    assert k * (q * r) == q * (k * r);
  }

  /** Euclid's descent: a period q r with r below the prime p gives the period q. */
  lemma {:induction false} Descend(q: nat, p: nat, root: nat, r: nat)
    requires Period(q * p) && Period(q * r) && 0 < r < p && Prime(p, root)
    ensures Period(q)
    decreases r
  {
    hide Period, Prime;
    if r > 1 {
      var k, s := PrimeLeaves(p, root, r);
      PeriodMultiple(q * r, k);
      Distribute(q, k, r, s);
      PeriodRest(k * (q * r), q * s);
      Descend(q, p, root, s);
    }
  }

  lemma DividesPeriod(d: nat, q: nat, p: nat, root: nat)
    requires Period(d) && Period(q * p) && !Period(q) && p > 1 && Prime(p, root)
    ensures d % p == 0
  {
    hide Period, Prime;
    var k, r := d / p, d % p;
    if r > 0 {
      PeriodMultiple(d, q);
      PeriodMultiple(q * p, k);
      Distribute(q, k, p, r);
      PeriodRest(k * (q * p), q * r);
      Descend(q, p, root, r);
    }
  }

  /** The register comes back exactly after multiples of 32767 steps. */
  lemma PeriodIff(d: nat)
    ensures Period(d) <==> d % ORDER == 0
  {
    hide Period, Prime;
    FullOrder();
    if Period(d) {
      Primes();
      Not4681();
      Not1057();
      Not217();
      DividesPeriod(d, 4681, 7, 2);
      DividesPeriod(d, 1057, 31, 5);
      DividesPeriod(d, 217, 151, 12);
      CommonMultiple(d);
    } else {
      PeriodMultiple(ORDER, d / ORDER);
    }
  }

  lemma CommonMultiple(d: nat)
    requires d % 7 == 0 && d % 31 == 0 && d % 151 == 0
    ensures d % ORDER == 0
  {
    var a, b, c := d / 7, d / 31, d / 151;
    var e := 9 * b - 2 * a;
    assert 7 * e == b && d == 217 * e;
    var f := 135 * c - 194 * e;
    assert 151 * f == e && d == ORDER * f;
  }

  // ----- two-bit errors -----

  /** The bit that the next step drops. */
  function Lowest(): (w: Word)
    ensures forall i :: 0 <= i < 16 ==> w[i] == (i == 0)
  {
    seq(16, i => i == 0)
  }

  lemma {:induction false} UnitReachesLowest(n: nat)
    requires n <= 15
    ensures forall i :: 0 <= i < 16 ==> Steps(Unit(), n)[i] == (i == 15 - n)
  {
    if n > 0 {
      UnitReachesLowest(n - 1);
      StepsAdd(Unit(), n - 1, 1);
    }
  }

  lemma {:induction false} StepsKeepParity(w: Word, n: nat)
    ensures Odd(Steps(w, n)) <==> Odd(w)
    decreases n
  {
    if n > 0 {
      StepKeepsParity(w);
      StepsKeepParity(Step(w), n - 1);
    }
  }

  lemma {:induction false} SameBits(u: Word, a: nat, b: nat)
    requires a <= b < 16 && forall i :: a <= i < b ==> u[i] == u[i + 1]
    ensures forall i :: a <= i <= b ==> u[i] == u[a]
    decreases b
  {
    if a < b {
      SameBits(u, a, b - 1);
      assert u[b - 1] == u[b - 1 + 1];
    }
  }

  /** x^15 + x + 1. */
  ghost predicate Trinomial(u: Word) {
    forall i :: 0 <= i < 16 ==> u[i] == (i == 0 || i == 14 || i == 15)
  }

  lemma StepFixes(u: Word)
    requires Step(u) == u
    ensures u == Zeros(16) || Trinomial(u)
  {
    hide Step;
    forall i: nat | i < 16 ensures u[i] == ((i < 15 && u[i + 1]) != (u[0] && (i == 0 || i == 13 || i == 15))) {
      StepBit(u, i);
    }
    if u[0] {
      SameBits(u, 1, 13);
      assert !u[1] && !u[13] && u[14] && u[15];
      assert Trinomial(u);
    } else {
      SameBits(u, 0, 15);
      assert !u[15];
      assert u == Zeros(16);
    }
  }

  lemma TrinomialIsOdd(u: Word)
    requires Trinomial(u)
    ensures Odd(u)
  {
    CountOfOnly(u[..8], 0);
    CountOfOnly(u[8..15], 6);
    CountOfOnly(u[15..], 0);
    CountOnesConcat(u[..8], u[8..15]);
    CountOnesConcat(u[..15], u[15..]);
    assert u[..15] == u[..8] + u[8..15];
    assert u == u[..15] + u[15..];
  }

  lemma XorSwap(p: Word, q: Word, r: Word, s: Word)
    requires Xor(p, q) == Xor(r, s)
    ensures Xor(p, r) == Xor(q, s)
  {
    var x, y := Xor(p, r), Xor(q, s);
    forall i | 0 <= i < 16 ensures x[i] == y[i] {
      assert Xor(p, q)[i] == Xor(r, s)[i];
    }
  }

  lemma OrbitOfUnit(d: nat)
    ensures Orbit(d) == Xor(Step(Steps(Unit(), d)), Steps(Unit(), d))
  {
    StepsLinear(Step(Unit()), Unit(), d);
    StepsAdd(Unit(), d, 1);
    StepsAdd(Unit(), 1, d);
  }

  /** A period of x + 1 is one of 1: a step leaves only 0 and x^15 + x + 1 alone, which has an odd number of terms. */
  lemma UnitPeriod(d: nat)
    ensures Steps(Unit(), d) == Unit() <==> Period(d)
  {
    hide Orbit, Step, Steps, Trinomial, Odd;
    var w := Steps(Unit(), d);
    OrbitOfUnit(d);
    OrbitOfUnit(0);
    UnitReachesLowest(0);
    assert Steps(Unit(), 0) == Unit();
    if Period(d) {
      XorSwap(Step(w), w, Step(Unit()), Unit());
      var u := Xor(w, Unit());
      StepLinear(w, Unit());
      StepFixes(u);
      StepsKeepParity(Unit(), d);
      OddOfXor(w, Unit());
      OnlyZero(u);
      XorZero(w, Unit());
    }
  }

  lemma OnlyZero(u: Word)
    requires (u == Zeros(16) || Trinomial(u)) && !Odd(u)
    ensures u == Zeros(16)
  {
    if Trinomial(u) {
      TrinomialIsOdd(u);
    }
  }

  /** The lowest bit is x^15, so it comes back when 1 does. */
  lemma LowestComesBackIff(d: nat)
    ensures Steps(Lowest(), d) == Lowest() <==> d % ORDER == 0
  {
    hide Steps, Period;
    UnitReachesLowest(15);
    assert Steps(Unit(), 15) == Lowest();
    StepsAdd(Unit(), 15, d);
    StepsAdd(Unit(), d, 15);
    StepsInjective(Steps(Unit(), d), Unit(), 15);
    UnitPeriod(d);
    PeriodIff(d);
  }

  ghost predicate OnesAt(e: seq<bool>, i: nat, j: nat) {
    i < j < |e| && forall k :: 0 <= k < |e| ==> e[k] == (k == i || k == j)
  }

  lemma TwoBitsSplit(e: seq<bool>, i: nat, j: nat)
    requires OnesAt(e, i, j)
    ensures e == Zeros(i) + ([true] + (Zeros(j - i - 1) + ([true] + Zeros(|e| - j - 1))))
  {
  }

  lemma SerialOfOne(w: Word, rest: seq<bool>)
    ensures Serial(w, [true] + rest) == Serial(Step(Xor(w, Lowest())), rest)
  {
    assert w[0 := w[0] != true] == Xor(w, Lowest());
    assert ([true] + rest)[1..] == rest;
  }

  /** Two wrong bits cancel exactly when their distance is a multiple of 32767. */
  lemma TwoBitsCancelIff(e: seq<bool>, i: nat, j: nat)
    requires OnesAt(e, i, j)
    ensures Serial(Zeros(16), e) == Zeros(16) <==> (j - i) % ORDER == 0
  {
    assert i < j < |e|;
    hide Serial, Step, Steps, OnesAt;
    var n := j - i - 1;
    var last := [true] + Zeros(|e| - j - 1);
    TwoBitsSplit(e, i, j);
    SerialConcat(Zeros(16), Zeros(i), [true] + (Zeros(n) + last));
    SerialOfZeros(Zeros(16), i);
    StepsKeepNonZero(Zeros(16), i);
    SerialOfOne(Zeros(16), Zeros(n) + last);
    assert Xor(Zeros(16), Lowest()) == Lowest();
    SerialConcat(Step(Lowest()), Zeros(n), last);
    SerialOfZeros(Step(Lowest()), n);
    StepFirst(Lowest(), n);
    var w := Steps(Lowest(), j - i);
    SerialOfOne(w, Zeros(|e| - j - 1));
    SerialOfZeros(Step(Xor(w, Lowest())), |e| - j - 1);
    StepsKeepNonZero(Step(Xor(w, Lowest())), |e| - j - 1);
    StepKeepsNonZero(Xor(w, Lowest()));
    XorZero(w, Lowest());
    LowestComesBackIff(j - i);
  }

  lemma StepFirst(w: Word, n: nat)
    ensures Steps(Step(w), n) == Steps(w, n + 1)
  {
  }

  lemma {:induction false} SomeOnes(e: seq<bool>, i: nat)
    requires i < |e| && e[i]
    ensures CountOnes(e) > 0
  {
    if i > 0 {
      SomeOnes(e[1..], i - 1);
    }
  }

  lemma {:induction false} OnlyOne(e: seq<bool>) returns (i: nat)
    requires CountOnes(e) == 1
    ensures i < |e| && forall k :: 0 <= k < |e| ==> e[k] == (k == i)
  {
    if e[0] {
      i := 0;
      forall k | 0 < k < |e| ensures !e[k] {
        if e[k] {
          SomeOnes(e[1..], k - 1);
        }
      }
    } else {
      var i' := OnlyOne(e[1..]);
      i := i' + 1;
    }
  }

  lemma {:induction false} OnlyTwo(e: seq<bool>) returns (i: nat, j: nat)
    requires CountOnes(e) == 2
    ensures OnesAt(e, i, j)
  {
    if e[0] {
      var j' := OnlyOne(e[1..]);
      i, j := 0, j' + 1;
    } else {
      var i', j' := OnlyTwo(e[1..]);
      i, j := i' + 1, j' + 1;
    }
  }

  // ----- the register of ones -----

  function Ones(): (w: Word)
    ensures forall i :: 0 <= i < 16 ==> w[i]
  {
    seq(16, _ => true)
  }

  /** x^m = x^k + 1, applied at n. */
  ghost predicate Folds(m: nat, k: nat, n: nat) {
    Orbit(n + m) == Xor(Orbit(n + k), Orbit(n))
  }

  lemma XorChain(a: Word, b: Word, c: Word)
    ensures Xor(Xor(a, b), Xor(b, c)) == Xor(a, c)
  {
  }

  lemma FoldsTwice(m: nat, k: nat, n: nat)
    requires Folds(m, k, n) && Folds(m, k, n + k) && Folds(m, k, n + m)
    ensures Folds(2 * m, 2 * k, n)
  {
    hide Orbit;
    assert n + m + m == n + 2 * m && n + k + k == n + 2 * k && n + m + k == n + k + m;
    XorChain(Orbit(n + 2 * k), Orbit(n + k), Orbit(n));
  }

  /** Squaring x^15 = x + 1 three times. */
  lemma Squarings(n: nat)
    ensures Folds(30, 2, n) && Folds(60, 4, n) && Folds(120, 8, n)
  {
    hide Folds;
    forall n: nat ensures Folds(15, 1, n) {
      FoldOnce(n);
    }
    forall n: nat ensures Folds(30, 2, n) {
      FoldsTwice(15, 1, n);
    }
    forall n: nat ensures Folds(60, 4, n) {
      FoldsTwice(30, 2, n);
    }
    FoldsTwice(60, 4, n);
  }

  lemma FoldOnce(n: nat)
    ensures Folds(15, 1, n)
  {
    OrbitFolds(n);
  }

  /** (x + 1)^15 has all sixteen terms, and x + 1 = x^15: the register of ones lies on the orbit of x + 1. */
  lemma OnesOnOrbit()
    ensures Orbit(210) == Ones()
  {
    hide Orbit;
    Squarings(90);
    Squarings(30);
    Squarings(38);
    Squarings(0);
    Squarings(4);
    Squarings(8);
    Squarings(12);
    var l := Orbit(210);
    forall i | 0 <= i < 16 ensures l[i] {
      LowOrbits(i);
    }
  }

  lemma LowOrbits(i: nat)
    requires i < 16
    ensures ((Orbit(6)[i] != Orbit(4)[i]) != (Orbit(2)[i] != Orbit(0)[i]))
         != ((Orbit(14)[i] != Orbit(12)[i]) != (Orbit(10)[i] != Orbit(8)[i]))
  {
    hide Orbit;
    OrbitShifts(0);
    OrbitShifts(2);
    OrbitShifts(4);
    OrbitShifts(6);
    OrbitShifts(8);
    OrbitShifts(10);
    OrbitShifts(12);
    OrbitShifts(14);
  }

  /** The register of ones comes back exactly after multiples of 32767 steps. */
  lemma OnesComeBackIff(d: nat)
    ensures Steps(Ones(), d) == Ones() <==> d % ORDER == 0
  {
    hide Orbit, Steps;
    OnesOnOrbit();
    OrbitAdd(210, d);
    OrbitAdd(0, 210);
    OrbitAdd(d, 210);
    StepsInjective(Orbit(d), Orbit(0), 210);
    PeriodIff(d);
  }
}
