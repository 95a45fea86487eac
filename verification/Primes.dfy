/**
  is_prime and next_prime of the hash table, on 64-bit size_t.  The running square
  of the divisor may wrap around; trial division is exact all the same.
*/
module Primes {
  import opened Basics


  const MODULUS := 0x1_0000_0000_0000_0000
  const SIZE_MAX := MODULUS - 1
  const HALF := 0x1_0000_0000

  predicate Divides(d: nat, n: nat)
    requires d > 0
  {
    n % d == 0
  }

  predicate Prime(n: nat) {
    n >= 2 && forall d | 2 <= d < n :: !Divides(d, n)
  }

  lemma DivisorPair(n: nat, x: nat)
    requires 2 <= x < n && Divides(x, n)
    ensures 2 <= n / x < n && Divides(n / x, n) && n == x * (n / x)
  {
    var y := n / x;
    assert n == x * y;
    ModOfProduct(y, x);
    assert n == y * x;
  }

  lemma {:induction false} ModOfProduct(y: nat, x: nat)
    requires y > 0
    ensures (y * x) % y == 0
  {
    if x > 0 {
      ModOfProduct(y, x - 1);
      var q := y * (x - 1) / y;
      assert y * x == y * (x - 1) + y == y * (q + 1) + 0;
      UniqueRemainder(y * x, y, q + 1, 0);
    } else {
      assert y * x == 0;
    }
  }

  lemma UniqueRemainder(n: nat, y: nat, q: nat, r: nat)
    requires y > 0 && n == y * q + r && r < y
    ensures n % y == r
  {
    var p := n / y;
    assert n == y * p + n % y;
    assert y * (p + 1) == y * p + y && y * (q + 1) == y * q + y;
    if p < q {
      Products(y, y, p + 1, q);
    }
    if p > q {
      Products(y, y, q + 1, p);
    }
  }

  /** Of a divisor and its quotient, one is not above the square root. */
  lemma LargeDivisor(n: nat, d: nat, x: nat)
    requires d * d >= n && d < x < n && x >= 2 && Divides(x, n)
    ensures 2 <= n / x <= d && Divides(n / x, n)
  {
    DivisorPair(n, x);
    if n / x > d {
      Products(d + 1, x, d + 1, n / x);
      assert false;
    }
  }

  /** Trial division up to the square root suffices. */
  lemma NoSmallDivisor(n: nat, d: nat)
    requires n >= 2 && d * d >= n && forall x | 2 <= x <= d && x < n :: !Divides(x, n)
    ensures Prime(n)
  {
    forall x | 2 <= x < n
      ensures !Divides(x, n)
    {
      if Divides(x, n) && x > d {
        LargeDivisor(n, d, x);
      }
    }
  }

  /** An even number does not divide an odd one. */
  lemma OddHasNoEvenDivisor(n: nat, x: nat)
    requires n % 2 == 1 && x > 0 && x % 2 == 0
    ensures !Divides(x, n)
  {
    if Divides(x, n) {
      var h, y := x / 2, n / x;
      assert x == 2 * h && n == x * y;
      EvenTimes(h, y);
    }
  }

  lemma EvenTimes(h: nat, y: nat)
    ensures (2 * h * y) % 2 == 0
  {
    assert 2 * h * y == 2 * (h * y);
  }

  // ---------------------------------------------------------------------
  // Why the search ends

  /** Its square is 7 short of 0 modulo 2^64. */
  const ROOT := 1852311383259529397

  /** A divisor the loop cannot get past: one that divides the candidate, or one
      whose wrapped square is not below it. */
  function Barrier(candidate: nat): nat {
    if candidate == SIZE_MAX then 3
    else if candidate == SIZE_MAX - 2 then 13
    else if candidate == SIZE_MAX - 4 then 11
    else ROOT
  }

  lemma BarrierHolds(candidate: nat)
    requires candidate <= SIZE_MAX && candidate % 2 == 1
    ensures var b := Barrier(candidate);
            b % 2 == 1 && b >= 3 && (Divides(b, candidate) || (b * b) % MODULUS >= candidate)
  {
  }

  lemma BarrierStops(candidate: nat, d: nat)
    requires candidate <= SIZE_MAX && candidate % 2 == 1 && d % 2 == 1 && 0 < d <= Barrier(candidate)
    requires (d * d) % MODULUS < candidate && !Divides(d, candidate)
    ensures d + 2 <= Barrier(candidate) <= ROOT
  {
    BarrierHolds(candidate);
    assert d != Barrier(candidate);
  }

  /** The update of the square, modulo the size of the word. */
  lemma NextSquare(d: nat)
    ensures ((d * d) % MODULUS + (4 * (d + 1)) % MODULUS) % MODULUS == ((d + 2) * (d + 2)) % MODULUS
  {
    var a, b := d * d, 4 * (d + 1);
    assert (d + 2) * (d + 2) == a + b;
    ModularSum(a, b);
  }

  lemma ModularSum(a: nat, b: nat)
    ensures (a % MODULUS + b % MODULUS) % MODULUS == (a + b) % MODULUS
  {
  }

  /** The square of the largest odd half-word. */
  const LAST_SQUARE := 0xFFFF_FFFE_0000_0001

  lemma LastSquare(d: nat)
    ensures d < HALF ==> d * d <= LAST_SQUARE && (d * d) % MODULUS == d * d
    ensures d >= HALF - 1 ==> d * d >= LAST_SQUARE
  {
    assert (HALF - 1) * (HALF - 1) == LAST_SQUARE;
    if d < HALF {
      Products(d, HALF - 1, d, HALF - 1);
    }
    if d >= HALF - 1 {
      Products(HALF - 1, d, HALF - 1, d);
    }
  }

  /** Going on leaves the divisor below the candidate. */
  lemma StaysBelow(candidate: nat, d: nat)
    requires 3 <= d <= ROOT && d % 2 == 1 && (d * d) % MODULUS < candidate
    requires d >= HALF ==> candidate > LAST_SQUARE
    ensures d + 2 < candidate
    ensures d + 2 >= HALF ==> candidate > LAST_SQUARE
  {
    LastSquare(d);
    if d < HALF {
      Products(3, d, d, d);
    }
  }

  /** What the loop keeps. */
  ghost predicate Searched(candidate: nat, d: nat, square: nat) {
    && 3 <= d < candidate && d % 2 == 1 && d <= Barrier(candidate)
    && square == (d * d) % MODULUS
    && (d >= HALF ==> candidate > LAST_SQUARE)
    && forall x | 2 <= x < d :: !Divides(x, candidate)
  }

  lemma SearchGoesOn(candidate: nat, d: nat, square: nat)
    requires candidate <= SIZE_MAX && candidate % 2 == 1
    requires Searched(candidate, d, square) && square < candidate && candidate % d != 0
    ensures Searched(candidate, d + 2, (square + (4 * (d + 1)) % MODULUS) % MODULUS)
  {
    assert !Divides(d, candidate);
    BarrierStops(candidate, d);
    StaysBelow(candidate, d);
    OddHasNoEvenDivisor(candidate, d + 1);
    NextSquare(d);
  }

  lemma SearchEnds(candidate: nat, d: nat, square: nat)
    requires Searched(candidate, d, square) && !(square < candidate && candidate % d != 0)
    ensures candidate % d != 0 <==> Prime(candidate)
  {
    if candidate % d == 0 {
      assert Divides(d, candidate);
    } else {
      assert !Divides(d, candidate);
      assert d * d >= square;
      NoSmallDivisor(candidate, d);
    }
  }

  /** is_prime: exact for every odd candidate from 11 up, whether or not the
      square wraps. */
  method IsPrime(candidate: nat) returns (r: bool)
    requires 11 <= candidate <= SIZE_MAX && candidate % 2 == 1
    ensures r == Prime(candidate)
  {
    var divisor: nat, square: nat := 3, 9;
    assert candidate % 2 != 0 && !Divides(2, candidate);
    while square < candidate && candidate % divisor != 0
      invariant Searched(candidate, divisor, square)
      decreases candidate - divisor
    {
      SearchGoesOn(candidate, divisor, square);
      divisor := divisor + 1;
      square := (square + (4 * divisor) % MODULUS) % MODULUS;
      divisor := divisor + 1;
    }
    SearchEnds(candidate, divisor, square);
    r := candidate % divisor != 0;
  }

  /** Up to the square of the largest odd half-word the square does not wrap. */
  lemma SquareDoesNotWrap(candidate: nat, d: nat)
    requires candidate <= LAST_SQUARE && d * d < candidate && d % 2 == 1
    ensures (d + 2) * (d + 2) < MODULUS
  {
    LastSquare(d);
    LastSquare(d + 2);
  }

  /** next_prime: the least prime that is not below the candidate or 10, or
      SIZE_MAX if there is none in a word. */
  method NextPrime(candidate0: nat) returns (r: nat)
    requires candidate0 <= SIZE_MAX
    ensures candidate0 <= r <= SIZE_MAX && 10 <= r
    ensures Prime(r) || r == SIZE_MAX
    ensures forall x | candidate0 <= x < r && 10 <= x :: !Prime(x)
  {
    var candidate := if candidate0 < 10 then 10 else candidate0;
    ghost var start := candidate;
    assert start % 2 == 0 ==> Divides(2, start);
    candidate := candidate + if candidate % 2 == 0 then 1 else 0;
    while true
      invariant start <= candidate <= SIZE_MAX && candidate % 2 == 1
      invariant forall x | start <= x < candidate :: !Prime(x)
      decreases SIZE_MAX - candidate
    {
      if SIZE_MAX == candidate {
        break;
      }
      var prime := IsPrime(candidate);
      if prime {
        break;
      }
      assert Divides(2, candidate + 1);
      candidate := candidate + 2;
    }
    r := candidate;
  }
}
