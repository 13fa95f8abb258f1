/** The ratio of two sample rates and its reduction by trial division over a table of primes
    (src/flowgraph/resampler/IntegerRatio.cpp). */
module IntegerRatio {
  import DivMod

  const ROW0: seq<int> := [2, 3, 5, 7, 11, 13, 17, 19, 23, 29, 31, 37, 41]
  const ROW1: seq<int> := [43, 47, 53, 59, 61, 67, 71, 73, 79, 83, 89, 97]
  const ROW2: seq<int> := [101, 103, 107, 109, 113, 127, 131, 137, 139, 149]
  const ROW3: seq<int> := [151, 157, 163, 167, 173, 179, 181, 191, 193, 197, 199]
  const PRIMES: seq<int> := ROW0 + ROW1 + ROW2 + ROW3

  /** One more than the last number whose prime factors are all in the table. */
  const FIRST_UNCOVERED: int := 211

  predicate Multiple(k: int, d: int, n: int) {
    n == k * d
  }

  ghost predicate Divides(d: int, n: int) {
    exists k :: Multiple(k, d, n)
  }

  ghost predicate CommonDivisor(d: int, a: int, b: int) {
    Divides(d, a) && Divides(d, b)
  }

  ghost predicate Coprime(a: int, b: int) {
    forall d :: 2 <= d ==> !CommonDivisor(d, a, b)
  }

  ghost predicate IsPrime(p: int) {
    2 <= p && forall d :: 2 <= d < p ==> !Divides(d, p)
  }

  lemma DividesByFactor(d: int, k: int, n: int)
    requires n == k * d
    ensures Divides(d, n)
  {
    assert Multiple(k, d, n);
  }

  lemma DividesTransitive(p: int, d: int, n: int)
    requires Divides(p, d) && Divides(d, n)
    ensures Divides(p, n)
  {
    var a :| Multiple(a, p, d);
    var b :| Multiple(b, d, n);
    DivMod.MulAssociative(b, a, p);
    assert Multiple(b * a, p, n);
  }

  /** A divisor of a positive number is not larger than it. */
  lemma DivisorBound(d: int, n: int)
    requires 0 < d && 0 < n && Divides(d, n)
    ensures d <= n
  {
    var k :| Multiple(k, d, n);
    if k <= 0 {
      DivMod.MulMonotone(k, 0, d);
    } else {
      DivMod.MulMonotone(1, k, d);
    }
  }

  /** Trial division over the table misses no factor below 211: every number in 2..210 has a
      divisor in the table. */
  lemma TableCovers(d: int) returns (j: int)
    requires 2 <= d < FIRST_UNCOVERED
    ensures 0 <= j < |PRIMES| && Divides(PRIMES[j], d)
  {
    var q := SmallestFactor(d);
    j :| 0 <= j < |PRIMES| && PRIMES[j] == q;
  }

  lemma SmallestFactor(d: int) returns (q: int)
    requires 2 <= d < FIRST_UNCOVERED
    ensures q in PRIMES && Divides(q, d)
  {
    if Sieved(d) {
      q := d;
      NoSmallFactor(d);
      DividesByFactor(d, 1, d);
    } else {
      q := SieveFactor(d);
    }
  }

  lemma SieveFactor(d: int) returns (q: int)
    requires !Sieved(d)
    ensures q in ROW0 && Divides(q, d)
  {
    if d % 2 == 0 { q := ROW0[0]; }
    else if d % 3 == 0 { q := ROW0[1]; }
    else if d % 5 == 0 { q := ROW0[2]; }
    else if d % 7 == 0 { q := ROW0[3]; }
    else if d % 11 == 0 { q := ROW0[4]; }
    else { q := ROW0[5]; }
    DividesByFactor(q, d / q, d);
  }

  /** No divisor up to 13. */
  predicate Sieved(d: int) {
    d % 2 != 0 && d % 3 != 0 && d % 5 != 0 && d % 7 != 0 && d % 11 != 0 && d % 13 != 0
  }

  lemma NoSmallFactor(d: int)
    requires 2 <= d < FIRST_UNCOVERED && Sieved(d)
    ensures d in PRIMES
  {
    if d < 43 { SievedBelow43(d); }
    else if d < 72 { SievedBelow72(d); }
    else if d < 101 { SievedBelow101(d); }
    else if d < 126 { SievedBelow126(d); }
    else if d < 151 { SievedBelow151(d); }
    else if d < 166 { SievedBelow166(d); }
    else if d < 182 { SievedBelow182(d); }
    else if d < 196 { SievedBelow196(d); }
    else { SievedBelow211(d); }
  }

  lemma SievedBelow43(d: int)
    requires 2 <= d < 43 && Sieved(d)
    ensures d in ROW0
  {
    assert d == 17 || d == 19 || d == 23 || d == 29 || d == 31 || d == 37 || d == 41;
  }

  lemma SievedBelow72(d: int)
    requires 43 <= d < 72 && Sieved(d)
    ensures d in ROW1
  {
    assert d == 43 || d == 47 || d == 53 || d == 59 || d == 61 || d == 67 || d == 71;
  }

  lemma SievedBelow101(d: int)
    requires 72 <= d < 101 && Sieved(d)
    ensures d in ROW1
  {
    assert d == 73 || d == 79 || d == 83 || d == 89 || d == 97;
  }

  lemma SievedBelow126(d: int)
    requires 101 <= d < 126 && Sieved(d)
    ensures d in ROW2
  {
    assert d == 101 || d == 103 || d == 107 || d == 109 || d == 113;
  }

  lemma SievedBelow151(d: int)
    requires 126 <= d < 151 && Sieved(d)
    ensures d in ROW2
  {
    assert d == 127 || d == 131 || d == 137 || d == 139 || d == 149;
  }

  lemma SievedBelow166(d: int)
    requires 151 <= d < 166 && Sieved(d)
    ensures d in ROW3
  {
    assert d == 151 || d == 157 || d == 163;
  }

  lemma SievedBelow182(d: int)
    requires 166 <= d < 182 && Sieved(d)
    ensures d in ROW3
  {
    assert d == 167 || d == 173 || d == 179 || d == 181;
  }

  lemma SievedBelow196(d: int)
    requires 182 <= d < 196 && Sieved(d)
    ensures d in ROW3
  {
    assert d == 191 || d == 193;
  }

  lemma SievedBelow211(d: int)
    requires 196 <= d < 211 && Sieved(d)
    ensures d in ROW3
  {
    assert d == 197 || d == 199;
  }

  lemma PrimeFactor(n: int) returns (p: int)
    requires 2 <= n
    ensures IsPrime(p) && Divides(p, n)
  {
    p := 2;
    while !Divides(p, n)
      invariant 2 <= p <= n
      invariant forall d :: 2 <= d < p ==> !Divides(d, n)
      decreases n - p
    {
      if p == n { DividesByFactor(n, 1, n); }
      p := p + 1;
    }
    forall d | 2 <= d < p ensures !Divides(d, p) {
      if Divides(d, p) { DividesTransitive(d, p, n); }
    }
  }

  /** Euclid's lemma for a factor below the prime. */
  lemma {:induction false} Euclid(p: int, a: int, b: int)
    requires IsPrime(p) && 0 < a < p && Divides(p, a * b)
    ensures Divides(p, b)
    decreases a
  {
    if a > 1 {
      var k, r := p / a, p % a;
      if r == 0 {
        DividesByFactor(a, k, p);
      }
      var m :| Multiple(m, p, a * b);
      calc {
        r * b;
      ==
        (p - k * a) * b;
      ==  { DivMod.MulDistributes(p, k * a, b); DivMod.MulAssociative(k, a, b); }
        p * b - k * (m * p);
      ==  { DivMod.MulAssociative(k, m, p); DivMod.MulDistributes(b, k * m, p); }
        (b - k * m) * p;
      }
      DividesByFactor(p, b - k * m, r * b);
      Euclid(p, r, b);
    }
  }

  /** `g` times the reduced pair is the original pair. */
  ghost predicate ScaledPair(g: int, num0: int, den0: int, num: int, den: int) {
    0 < g && num0 == g * num && den0 == g * den
  }

  /** None of the first `i` primes of the table divides both terms. */
  ghost predicate Tried(i: int, num: int, den: int)
    requires 0 <= i <= |PRIMES|
  {
    forall j :: 0 <= j < i ==> !CommonDivisor(PRIMES[j], num, den)
  }

  /** The prime factors common to the original pair that the table does not hold are still there. */
  ghost predicate KeepsLargePrimes(num0: int, den0: int, num: int, den: int) {
    forall p :: FIRST_UNCOVERED <= p && IsPrime(p) && CommonDivisor(p, num0, den0)
                ==> CommonDivisor(p, num, den)
  }

  /** The pair after some common factors below 211 were divided out. */
  ghost predicate Factored(num0: int, den0: int, num: int, den: int) {
    && 1 <= num && 1 <= den
    && (exists g :: ScaledPair(g, num0, den0, num, den))
    && KeepsLargePrimes(num0, den0, num, den)
  }

  /** What `Reduce` leaves of a positive pair. */
  ghost predicate Reduced(num0: int, den0: int, num: int, den: int) {
    && Factored(num0, den0, num, den)
    && (forall d :: 2 <= d < FIRST_UNCOVERED ==> !CommonDivisor(d, num, den))
  }

  class IntegerRatio {
    var numerator: int
    var denominator: int

    constructor (numerator: int, denominator: int)
      ensures this.numerator == numerator && this.denominator == denominator
    {
      this.numerator := numerator;
      this.denominator := denominator;
    }

    /** Divides both terms by `prime` as long as it divides both evenly. */
    method RemoveFactor(prime: int)
      requires 2 <= prime < FIRST_UNCOVERED && 1 <= numerator && 1 <= denominator
      modifies this
      ensures Factored(old(numerator), old(denominator), numerator, denominator)
      ensures !CommonDivisor(prime, numerator, denominator)
    {
      ghost var num0, den0 := numerator, denominator;
      assert ScaledPair(1, num0, den0, num0, den0);
      while true
        invariant Factored(num0, den0, numerator, denominator)
        decreases numerator
      {
        var top := numerator / prime;
        var bottom := denominator / prime;
        if top >= 1 && bottom >= 1 && top * prime == numerator && bottom * prime == denominator {
          DivideOut(prime, num0, den0, numerator, denominator, top, bottom);
          numerator := top;
          denominator := bottom;
        } else {
          NotCommon(prime, numerator, denominator);
          break;
        }
      }
    }

    /** Removes the common factors found by trial division. The loop stops at the first prime
        above either term. */
    method Reduce()
      modifies this
      ensures old(numerator) < 1 || old(denominator) < 1 ==>
                numerator == old(numerator) && denominator == old(denominator)
      ensures 1 <= old(numerator) && 1 <= old(denominator) ==>
                Reduced(old(numerator), old(denominator), numerator, denominator)
    {
      ghost var num0, den0 := numerator, denominator;
      assert ScaledPair(1, num0, den0, num0, den0);
      var i := 0;
      while i < |PRIMES|
        invariant 0 <= i <= |PRIMES|
        invariant Partial(i, num0, den0, numerator, denominator)
      {
        var prime := PRIMES[i];
        if numerator < prime || denominator < prime {
          break;
        }
        ghost var num, den := numerator, denominator;
        TableAscends(0, i);
        RemoveFactor(prime);
        PartialStep(i, num0, den0, num, den, numerator, denominator);
        i := i + 1;
      }
      if 1 <= num0 && 1 <= den0 {
        NothingLeft(i, numerator, denominator);
      }
    }
  }

  /** The state of the reduction after the first `i` primes. */
  ghost predicate Partial(i: int, num0: int, den0: int, num: int, den: int)
    requires 0 <= i <= |PRIMES|
  {
    && (exists g :: ScaledPair(g, num0, den0, num, den))
    && (1 <= num0 && 1 <= den0 ==> 1 <= num && 1 <= den)
    && (num0 < 1 || den0 < 1 ==> num == num0 && den == den0)
    && Tried(i, num, den)
    && KeepsLargePrimes(num0, den0, num, den)
  }

  lemma PartialStep(i: int, num0: int, den0: int, num: int, den: int, num': int, den': int)
    requires 0 <= i < |PRIMES| && Partial(i, num0, den0, num, den)
    requires 1 <= num && 1 <= den
    requires Factored(num, den, num', den')
    requires !CommonDivisor(PRIMES[i], num', den')
    ensures Partial(i + 1, num0, den0, num', den')
  {
    var g :| ScaledPair(g, num0, den0, num, den);
    var h :| ScaledPair(h, num, den, num', den');
    var gh := ScaleFurther(h, g, num0, den0, num', den');
    SignsKept(g, num0, num);
    SignsKept(g, den0, den);
    forall j | 0 <= j < i
      ensures !CommonDivisor(PRIMES[j], num', den')
    {
      if CommonDivisor(PRIMES[j], num', den') {
        CommonDivisorOfMultiples(PRIMES[j], h, num', den');
      }
    }
  }

  lemma SignsKept(g: int, a: int, b: int)
    requires 0 < g && a == g * b && 1 <= b
    ensures 1 <= a
  {
    DivMod.MulMonotone(1, b, g);
  }

  lemma CommonDivisorTransitive(p: int, d: int, a: int, b: int)
    requires Divides(p, d) && CommonDivisor(d, a, b)
    ensures CommonDivisor(p, a, b)
  {
    DividesTransitive(p, d, a);
    DividesTransitive(p, d, b);
  }

  lemma CommonDivisorOfMultiples(d: int, k: int, a: int, b: int)
    requires CommonDivisor(d, a, b)
    ensures CommonDivisor(d, a * k, b * k)
  {
    DividesByFactor(a, k, a * k);
    DividesByFactor(b, k, b * k);
    DividesTransitive(d, a, a * k);
    DividesTransitive(d, b, b * k);
  }

  lemma DivideOut(q: int, num0: int, den0: int, num: int, den: int, top: int, bottom: int)
    requires Factored(num0, den0, num, den) && 2 <= q < FIRST_UNCOVERED
    requires 1 <= top && 1 <= bottom && num == top * q && den == bottom * q
    ensures Factored(num0, den0, top, bottom)
    ensures top < num
  {
    DivMod.MulMonotone(2, q, top);
    var g :| ScaledPair(g, num0, den0, num, den);
    var g' := ScaleFurther(q, g, num0, den0, top, bottom);
    forall p | FIRST_UNCOVERED <= p && IsPrime(p) && CommonDivisor(p, num0, den0)
      ensures CommonDivisor(p, top, bottom)
    {
      Euclid(p, q, top);
      Euclid(p, q, bottom);
    }
  }

  lemma ScaleFurther(q: int, g: int, num0: int, den0: int, num: int, den: int) returns (g': int)
    requires 0 < q && ScaledPair(g, num0, den0, q * num, q * den)
    ensures ScaledPair(g', num0, den0, num, den)
  {
    g' := g * q;
    DivMod.MulMonotone(1, g, q);
    DivMod.MulAssociative(g, q, num);
    DivMod.MulAssociative(g, q, den);
  }

  lemma NotCommon(q: int, num: int, den: int)
    requires 2 <= q && 1 <= num && 1 <= den
    requires !(num / q >= 1 && den / q >= 1 && (num / q) * q == num && (den / q) * q == den)
    ensures !CommonDivisor(q, num, den)
  {
    if CommonDivisor(q, num, den) {
      ExactQuotient(q, num);
      ExactQuotient(q, den);
    }
  }

  lemma ExactQuotient(q: int, n: int)
    requires 2 <= q && 1 <= n && Divides(q, n)
    ensures n / q >= 1 && (n / q) * q == n
  {
    var a :| Multiple(a, q, n);
    DivMod.Unique(n, q, a, 0);
    if a <= 0 {
      DivMod.MulMonotone(a, 0, q);
    }
  }

  /** The early exit loses nothing: a common divisor below 211 has a divisor in the table, and
      that one was tried. */
  lemma NothingLeft(i: int, num: int, den: int)
    requires 0 <= i <= |PRIMES| && 1 <= num && 1 <= den
    requires Tried(i, num, den)
    requires i < |PRIMES| ==> num < PRIMES[i] || den < PRIMES[i]
    ensures forall d :: 2 <= d < FIRST_UNCOVERED ==> !CommonDivisor(d, num, den)
  {
    forall d | 2 <= d < FIRST_UNCOVERED
      ensures !CommonDivisor(d, num, den)
    {
      if CommonDivisor(d, num, den) {
        var j := TableCovers(d);
        var q := PRIMES[j];
        DividesTransitive(q, d, num);
        DividesTransitive(q, d, den);
        DivisorBound(q, num);
        DivisorBound(q, den);
        assert i <= j;
        TableAscends(i, j);
      }
    }
  }

  lemma TableAscends(i: int, j: int)
    requires 0 <= i <= j < |PRIMES|
    ensures 2 <= PRIMES[i] <= PRIMES[j] < FIRST_UNCOVERED
    decreases j - i
  {
    if i < j {
      NextPrime(i);
      TableAscends(i + 1, j);
    } else {
      assert 2 <= PRIMES[i] < FIRST_UNCOVERED;
    }
  }

  lemma NextPrime(i: int)
    requires 0 <= i && i + 1 < |PRIMES|
    ensures 2 <= PRIMES[i] < PRIMES[i + 1]
  {
  }

  lemma RatioPreserved(num0: int, den0: int, num: int, den: int)
    requires Reduced(num0, den0, num, den)
    ensures num0 * den == num * den0
  {
    var g :| ScaledPair(g, num0, den0, num, den);
    assert g * num * den == num * (g * den);
  }

  /** Reduction is complete exactly when the rates share no prime factor beyond the table. */
  lemma CoprimeIff(num0: int, den0: int, num: int, den: int)
    requires Reduced(num0, den0, num, den)
    ensures Coprime(num, den) <==>
            forall p :: FIRST_UNCOVERED <= p && IsPrime(p) ==> !CommonDivisor(p, num0, den0)
  {
    if d :| 2 <= d && CommonDivisor(d, num, den) {
      var p := LeftoverPrime(num0, den0, num, den, d);
    }
  }

  lemma LeftoverPrime(num0: int, den0: int, num: int, den: int, d: int) returns (p: int)
    requires exists g :: ScaledPair(g, num0, den0, num, den)
    requires forall d :: 2 <= d < FIRST_UNCOVERED ==> !CommonDivisor(d, num, den)
    requires 2 <= d && CommonDivisor(d, num, den)
    ensures FIRST_UNCOVERED <= p && IsPrime(p) && CommonDivisor(p, num0, den0)
  {
    p := PrimeFactor(d);
    CommonDivisorTransitive(p, d, num, den);
    var g :| ScaledPair(g, num0, den0, num, den);
    CommonDivisorOfMultiples(p, g, num, den);
  }

  /** In particular it is complete whenever one reduced term is below 211. */
  lemma CoprimeWhenSmall(num0: int, den0: int, num: int, den: int)
    requires Reduced(num0, den0, num, den)
    requires num < FIRST_UNCOVERED || den < FIRST_UNCOVERED
    ensures Coprime(num, den)
  {
    forall d | 2 <= d
      ensures !CommonDivisor(d, num, den)
    {
      if CommonDivisor(d, num, den) {
        DivisorBound(d, num);
        DivisorBound(d, den);
      }
    }
  }

  /** A pair of rates that `Reduce` leaves with the common factor 211. */
  lemma NotAlwaysCoprime(num: int, den: int)
    requires Reduced(422, 633, num, den)
    ensures !Coprime(num, den)
  {
    Prime211();
    DividesByFactor(211, 2, 422);
    DividesByFactor(211, 3, 633);
    assert CommonDivisor(211, num, den);
  }

  lemma Prime211()
    ensures IsPrime(211)
  {
    forall d | 2 <= d < 211
      ensures !Divides(d, 211)
    {
      if Divides(d, 211) {
        var j := TableCovers(d);
        TableAscends(j, |PRIMES| - 1);
        DividesTransitive(PRIMES[j], d, 211);
      }
    }
  }
}
