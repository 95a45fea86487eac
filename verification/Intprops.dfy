/**
  Bounds on integers: the length of decimal representations, and tests for
  overflow that do not overflow themselves.
*/
module Intprops {
  import opened Basics
  import opened DecimalStrings

  // ---------------------------------------------------------------------
  // INT_BITS_STRLEN_BOUND

  function Pow(b: nat, n: nat): nat {
    if n == 0 then 1 else b * Pow(b, n - 1)
  }

  function BitsStrlenBound(b: nat): nat {
    (b * 146 + 484) / 485
  }

  lemma {:induction false} PowAdd(b: nat, m: nat, n: nat)
    ensures Pow(b, m + n) == Pow(b, m) * Pow(b, n)
  {
    if m > 0 {
      PowAdd(b, m - 1, n);
      AssociateProduct(b, Pow(b, m - 1), Pow(b, n));
    }
  }

  lemma AssociateProduct(a: nat, b: nat, c: nat)
    ensures a * (b * c) == a * b * c
  {
  }

  lemma {:induction false} PowMul(b: nat, m: nat, n: nat)
    ensures Pow(b, m * n) == Pow(Pow(b, m), n)
  {
    if n == 0 {
      assert m * n == 0;
    } else {
      PowMul(b, m, n - 1);
      assert m * n == m + m * (n - 1);
      PowAdd(b, m, m * (n - 1));
    }
  }

  lemma {:induction false} PowMonotone(a: nat, b: nat, n: nat)
    requires a <= b
    ensures Pow(a, n) <= Pow(b, n)
  {
    if n > 0 {
      PowMonotone(a, b, n - 1);
      assert a * Pow(a, n - 1) <= b * Pow(b, n - 1) by {
        Products(a, b, Pow(a, n - 1), Pow(b, n - 1));
      }
    }
  }

  lemma {:induction false} PowStrict(a: nat, b: nat, n: nat)
    requires a < b && n > 0
    ensures Pow(a, n) < Pow(b, n)
  {
    PowMonotone(a, b, n - 1);
    PowPositive(b, n - 1);
    Products(a, a, Pow(a, n - 1), Pow(b, n - 1));
    Products(a + 1, b, Pow(b, n - 1), Pow(b, n - 1));
    assert (a + 1) * Pow(b, n - 1) == a * Pow(b, n - 1) + Pow(b, n - 1);
  }

  lemma {:induction false} PowPositive(b: nat, n: nat)
    requires b > 0
    ensures Pow(b, n) > 0
  {
    if n > 0 {
      PowPositive(b, n - 1);
      Products(1, b, 1, Pow(b, n - 1));
    }
  }

  lemma {:induction false} PowGrows(b: nat, m: nat, n: nat)
    requires b > 0 && m <= n
    ensures Pow(b, m) <= Pow(b, n)
  {
    if m < n {
      PowGrows(b, m, n - 1);
      Products(1, b, Pow(b, n - 1), Pow(b, n - 1));
    }
  }

  lemma Square(b: nat, n: nat)
    ensures Pow(b, 2 * n) == Pow(b, n) * Pow(b, n)
    ensures Pow(b, 2 * n + 1) == b * (Pow(b, n) * Pow(b, n))
  {
    PowAdd(b, n, n);
    assert 2 * n == n + n;
  }

  lemma {:induction false} Pow10IsPow(n: nat)
    ensures Pow10(n) == Pow(10, n)
  {
    if n > 0 {
      Pow10IsPow(n - 1);
    }
  }

  const TWO_TO_97: nat := 0x2_0000_0000_0000_0000_0000_0000
  const TEN_TO_29: nat := 100_000_000_000_000_000_000_000_000_000

  lemma TwoTo97()
    ensures Pow(2, 97) == TWO_TO_97
  {
    Square(2, 3);
    Square(2, 6);
    Square(2, 12);
    Square(2, 24);
    Square(2, 48);
  }

  lemma TenTo29()
    ensures Pow(10, 29) == TEN_TO_29
  {
    Square(10, 3);
    Square(10, 7);
    Square(10, 14);
  }

  lemma FifthPower(x: nat)
    ensures Pow(x, 5) == x * (x * (x * (x * x)))
  {
    assert Pow(x, 1) == x * Pow(x, 0);
    assert Pow(x, 3) == x * Pow(x, 2);
  }

  /** 146/485 is a little more than the logarithm of 2. */
  lemma LogOfTwo()
    ensures Pow(2, 485) < Pow(10, 146)
  {
    TwoTo97();
    TenTo29();
    PowMul(2, 97, 5);
    PowMul(10, 29, 5);
    FifthPower(TWO_TO_97);
    FifthPower(TEN_TO_29);
  }

  /** Every number of b bits has at most BitsStrlenBound(b) digits. */
  lemma StrlenBound(b: nat, n: nat)
    requires b >= 1 && n < Pow(2, b)
    ensures |Decimal(n)| <= BitsStrlenBound(b)
  {
    var len := BitsStrlenBound(b);
    assert 146 * b <= 485 * len;
    RaisedLogOfTwo(b);
    PowGrows(10, 146 * b, len * 485);
    PowMul(10, len, 485);
    PowMul(2, b, 485);
    if Pow(2, b) > Pow(10, len) {
      PowStrict(Pow(10, len), Pow(2, b), 485);
    }
    DigitsFit(n, len);
  }

  lemma RaisedLogOfTwo(b: nat)
    ensures Pow(2, b * 485) <= Pow(10, 146 * b)
  {
    PowMul(2, 485, b);
    PowMul(10, 146, b);
    LogOfTwo();
    PowMonotone(Pow(2, 485), Pow(10, 146), b);
    assert b * 485 == 485 * b;
  }

  lemma DigitsFit(n: nat, len: nat)
    requires len > 0 && n < Pow(10, len)
    ensures |Decimal(n)| <= len
  {
  }

  // ---------------------------------------------------------------------
  // The bound is tight below 2621

  const TWO_TO_262: nat := 0x40_0000_0000_0000_0000_0000_0000_0000_0000_0000_0000_0000_0000_0000_0000_0000_0000
  const TWO_TO_267: nat := 32 * TWO_TO_262
  const TEN_TO_75: nat := 1_000_000_000_000_000_000_000_000_000_000_000_000_000_000_000_000_000_000_000_000_000_000_000_000_000

  lemma TwoTo65()
    ensures Pow(2, 65) == 0x2_0000_0000_0000_0000
  {
    Square(2, 4);
    Square(2, 8);
    Square(2, 16);
    Square(2, 32);
  }

  lemma TwoTo262()
    ensures Pow(2, 262) == TWO_TO_262
  {
    TwoTo65();
    Square(2, 65);
    Square(2, 131);
  }

  lemma TenTo75()
    ensures Pow(10, 75) == TEN_TO_75
  {
    Square(10, 4);
    Square(10, 9);
    Square(10, 18);
    Square(10, 37);
  }

  lemma {:induction false} PowOfProduct(a: nat, b: nat, n: nat)
    ensures Pow(a * b, n) == Pow(a, n) * Pow(b, n)
  {
    if n > 0 {
      PowOfProduct(a, b, n - 1);
      Regroup(a, b, Pow(a, n - 1), Pow(b, n - 1));
    }
  }

  lemma Regroup(a: nat, b: nat, x: nat, y: nat)
    ensures a * b * (x * y) == a * x * (b * y)
  {
  }

  lemma EighthPower(x: nat)
    ensures Pow(x, 8) == (x * x) * (x * x) * ((x * x) * (x * x))
  {
    Square(x, 1);
    Square(x, 2);
    Square(x, 4);
    assert Pow(x, 1) == x * Pow(x, 0);
  }

  lemma TwoTo2136()
    ensures Pow(2, 2136) > Pow(237140, 8) * Pow(10, 600)
  {
    TwoTo262();
    TenTo75();
    PowAdd(2, 5, 262);
    assert Pow(2, 5) == 32;
    PowMul(2, 267, 8);
    PowMul(10, 75, 8);
    PowStrict(237140 * TEN_TO_75, TWO_TO_267, 8);
    PowOfProduct(237140, TEN_TO_75, 8);
  }

  lemma TenTo43()
    ensures Pow(237140, 8) >= Pow(10, 43)
  {
    EighthPower(237140);
    TenTo39();
    PowAdd(10, 4, 39);
  }

  /** 643/2136 is a little less than the logarithm of 2. */
  lemma LogOfTwoBelow()
    ensures Pow(2, 2136) > Pow(10, 643)
  {
    TwoTo2136();
    TenTo43();
    PowAdd(10, 43, 600);
    Products(Pow(10, 43), Pow(237140, 8), Pow(10, 600), Pow(10, 600));
  }

  lemma RaisedLogOfTwoBelow(b: nat)
    requires b > 0
    ensures Pow(2, 2136 * b) > Pow(10, 643 * b)
  {
    PowMul(10, 643, b);
    PowMul(2, 2136, b);
    LogOfTwoBelow();
    PowStrict(Pow(10, 643), Pow(2, 2136), b);
  }

  lemma PowExceeds(b: nat, k: nat)
    requires b > 0 && 2136 * k <= 643 * b
    ensures Pow(2, b) > Pow(10, k)
  {
    RaisedLogOfTwoBelow(b);
    PowGrows(10, k * 2136, 643 * b);
    PowMul(2, b, 2136);
    PowMul(10, k, 2136);
    assert b * 2136 == 2136 * b;
    if Pow(2, b) <= Pow(10, k) {
      PowMonotone(Pow(2, b), Pow(10, k), 2136);
    }
  }

  /** Below 2621 bits the bound is the number of digits of the largest value. */
  lemma StrlenBoundIsTight(b: nat)
    requires 1 <= b < 2621
    ensures Pow(2, b) > 0 && |Decimal(Pow(2, b) - 1)| == BitsStrlenBound(b)
  {
    var k := BitsStrlenBound(b) - 1;
    assert 485 * k < 146 * b;
    assert 2136 * k <= 643 * b;
    PowExceeds(b, k);
    StrlenBound(b, Pow(2, b) - 1);
    DigitsNeeded(Pow(2, b) - 1, k);
  }

  lemma DigitsNeeded(n: nat, k: nat)
    requires n >= Pow(10, k)
    ensures |Decimal(n)| > k
  {
  }

  lemma TwoTo2620()
    ensures Pow(2, 2620) <= Pow(7411, 10) * Pow(10, 750)
  {
    TwoTo262();
    TenTo75();
    PowMul(2, 262, 10);
    PowMul(10, 75, 10);
    PowMonotone(TWO_TO_262, 7411 * TEN_TO_75, 10);
    PowOfProduct(7411, TEN_TO_75, 10);
  }

  lemma PowStep(b: nat, n: nat)
    ensures Pow(b, n + 1) == b * Pow(b, n)
  {
  }

  lemma DoubledTenthPower()
    ensures 2 * Pow(7411, 10) <= Pow(10, 39)
  {
    EighthPower(7411);
    PowAdd(7411, 2, 8);
    assert Pow(7411, 2) == 7411 * 7411;
    TenTo39();
  }

  /** At 2621 bits it is one too many. */
  lemma StrlenBoundIsLoose()
    ensures Pow(2, 2621) > 0 && |Decimal(Pow(2, 2621) - 1)| < BitsStrlenBound(2621)
  {
    TwoTo2620();
    PowStep(2, 2620);
    DoubledTenthPower();
    AssociateProduct(2, Pow(7411, 10), Pow(10, 750));
    PowPositive(2, 2621);
    Products(2 * Pow(7411, 10), Pow(10, 39), Pow(10, 750), Pow(10, 750));
    PowAdd(10, 39, 750);
    DigitsFit(Pow(2, 2621) - 1, 789);
  }

  lemma TenTo39()
    ensures Pow(10, 39) == 1000_000_000_000_000_000_000_000_000_000_000_000_000
  {
    Square(10, 4);
    Square(10, 9);
    Square(10, 19);
  }

  // ---------------------------------------------------------------------
  // Range overflow

  /** The values of a type: two's complement, or unsigned. */
  datatype Range = Range(min: int, max: int)

  predicate OfType(r: Range) {
    r.max > 0 && (r.min == -r.max - 1 || r.min == 0)
  }

  predicate In(r: Range, x: int) {
    r.min <= x <= r.max
  }

  /** C arithmetic, defined only where it does not overflow. */
  function Add(r: Range, a: int, b: int): int
    requires In(r, a) && In(r, b) && In(r, a + b)
  {
    a + b
  }

  function Subtract(r: Range, a: int, b: int): int
    requires In(r, a) && In(r, b) && In(r, a - b)
  {
    a - b
  }

  /** The quotient truncated toward zero. */
  function Quotient(a: int, b: int): int
    requires b != 0
  {
    var q := (if a < 0 then -a else a) / (if b < 0 then -b else b);
    if (a < 0) == (b < 0) then q else -q
  }

  function Divide(r: Range, a: int, b: int): int
    requires In(r, a) && In(r, b) && b != 0 && In(r, Quotient(a, b))
  {
    Quotient(a, b)
  }

  /** INT_ADD_RANGE_OVERFLOW. */
  function AddOverflow(r: Range, a: int, b: int): (o: bool)
    requires OfType(r) && In(r, a) && In(r, b)
    ensures o <==> !In(r, a + b)
  {
    if b < 0 then a < Subtract(r, r.min, b) else Subtract(r, r.max, b) < a
  }

  /** INT_SUBTRACT_RANGE_OVERFLOW. */
  function SubtractOverflow(r: Range, a: int, b: int): (o: bool)
    requires OfType(r) && In(r, a) && In(r, b)
    ensures o <==> !In(r, a - b)
  {
    if b < 0 then Add(r, r.max, b) < a else a < Add(r, r.min, b)
  }

  /** A product exceeds a bound iff the quotient falls short. */
  lemma QuotientTest(m: nat, n: nat, x: nat)
    requires n > 0
    ensures m * n > x <==> x / n < m
  {
    var q := x / n;
    assert x == n * q + x % n;
    if q < m {
      Products(q + 1, m, n, n);
    } else {
      Products(m, q, n, n);
    }
  }

  lemma QuotientShrinks(x: nat, n: nat)
    requires n > 0
    ensures 0 <= x / n <= x
    ensures n >= 2 && x > 0 ==> x / n < x
  {
    var q := x / n;
    assert x == n * q + x % n;
    Products(1, n, q, q);
    if n >= 2 {
      Products(2, n, q, q);
    }
  }

  lemma ProductSigns(a: int, b: int)
    ensures a * b == (-a) * (-b) == -((-a) * b) == -(a * (-b))
  {
  }

  /** INT_MULTIPLY_RANGE_OVERFLOW. */
  function MultiplyOverflow(r: Range, a: int, b: int): (o: bool)
    requires OfType(r) && In(r, a) && In(r, b)
    ensures o <==> !In(r, a * b)
  {
    MultiplyTests(r, a, b);
    if b < 0 then
      if a < 0 then a < Divide(r, r.max, b)
      else if b == -1 then false
      else Divide(r, r.min, b) < a
    else if b == 0 then false
    else if a < 0 then a < Divide(r, r.min, b)
    else Divide(r, r.max, b) < a
  }

  /** The quotients exist and are on the right side. */
  lemma MultiplyTests(r: Range, a: int, b: int)
    requires OfType(r) && In(r, a) && In(r, b)
    ensures b != 0 ==> In(r, Quotient(r.max, b)) && (b != -1 ==> In(r, Quotient(r.min, b)))
    ensures b < 0 && a < 0 ==> (a * b > r.max <==> a < Quotient(r.max, b)) && a * b >= 0
    ensures b < 0 && a >= 0 ==> (a * b < r.min <==> b != -1 && Quotient(r.min, b) < a) && a * b <= 0
    ensures b > 0 && a < 0 ==> (a * b < r.min <==> a < Quotient(r.min, b)) && a * b <= 0
    ensures b > 0 && a >= 0 ==> (a * b > r.max <==> Quotient(r.max, b) < a) && a * b >= 0
  {
    ProductSigns(a, b);
    if b != 0 {
      var n: nat := if b < 0 then -b else b;
      var m: nat := if a < 0 then -a else a;
      QuotientShrinks(r.max, n);
      QuotientShrinks(-r.min, n);
      QuotientTest(m, n, r.max);
      QuotientTest(m, n, -r.min);
      Products(0, m, 0, n);
    }
  }
}
