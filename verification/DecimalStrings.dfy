/**
  Version numbers as decimal strings: comparing and incrementing the digits is
  comparing and incrementing the number.
*/
module DecimalStrings {

  predicate Digit(c: char) {
    '0' <= c <= '9'
  }

  predicate Digits(s: string) {
    forall i | 0 <= i < |s| :: Digit(s[i])
  }

  function Value(s: string): nat
    requires Digits(s)
  {
    if s == "" then 0 else 10 * Value(s[..|s| - 1]) + (s[|s| - 1] - '0') as int
  }

  /** The decimal representation, without leading zeros. */
  function Decimal(n: nat): (s: string)
    ensures Digits(s) && s != ""
  {
    var last := [('0' as int + n % 10) as char];
    if n < 10 then last else Decimal(n / 10) + last
  }

  lemma {:induction false} DecimalHasValue(n: nat)
    ensures Value(Decimal(n)) == n
    ensures n > 0 ==> Decimal(n)[0] != '0'
  {
    var s := Decimal(n);
    if n >= 10 {
      DecimalHasValue(n / 10);
      assert s[..|s| - 1] == Decimal(n / 10);
    } else {
      assert s[..0] == "";
    }
  }

  lemma {:induction false} ValueHasDecimal(s: string)
    requires Digits(s) && s != "" && s[0] != '0'
    ensures Value(s) > 0 && Decimal(Value(s)) == s
  {
    var t, d := s[..|s| - 1], s[|s| - 1];
    assert s == t + [d];
    if t == "" {
      assert Value(t) == 0;
    } else {
      ValueHasDecimal(t);
      assert Value(s) / 10 == Value(t) && Value(s) % 10 == (d - '0') as int;
    }
  }

  // ---------------------------------------------------------------------
  // Comparing

  /** memcmp of two blocks of the same length: the first difference decides. */
  function Compare(a: string, b: string): int
    requires |a| == |b|
  {
    if a == "" then 0
    else
      var r := Compare(a[..|a| - 1], b[..|b| - 1]);
      if r != 0 then r else a[|a| - 1] as int - b[|b| - 1] as int
  }

  lemma {:induction false} CompareIsNumeric(a: string, b: string)
    requires |a| == |b| && Digits(a) && Digits(b)
    ensures Compare(a, b) <= 0 <==> Value(a) <= Value(b)
    ensures Compare(a, b) == 0 <==> Value(a) == Value(b)
  {
    if a != "" {
      CompareIsNumeric(a[..|a| - 1], b[..|b| - 1]);
    }
  }

  function Pow10(n: nat): (p: nat)
    ensures p > 0
  {
    if n == 0 then 1 else 10 * Pow10(n - 1)
  }

  lemma {:induction false} Magnitude(s: string)
    requires Digits(s) && s != ""
    ensures Value(s) < Pow10(|s|)
    ensures s[0] == '0' <==> Value(s) < Pow10(|s| - 1)
  {
    var t := s[..|s| - 1];
    if t == "" {
      assert Value(t) == 0;
    } else {
      Magnitude(t);
    }
  }

  /** The order of numbers is the order by length, then by digits. */
  lemma OrderByLength(a: string, b: string)
    requires Digits(a) && Digits(b) && a != "" && b != "" && a[0] != '0' && b[0] != '0'
    ensures Value(a) <= Value(b) <==> |a| < |b| || (|a| == |b| && Compare(a, b) <= 0)
  {
    Magnitude(a);
    Magnitude(b);
    if |a| < |b| {
      Pow10Monotone(|a|, |b| - 1);
    } else if |b| < |a| {
      Pow10Monotone(|b|, |a| - 1);
    } else {
      CompareIsNumeric(a, b);
    }
  }

  lemma {:induction false} Pow10Monotone(m: nat, n: nat)
    requires m <= n
    ensures Pow10(m) <= Pow10(n)
  {
    if m < n {
      Pow10Monotone(m, n - 1);
    }
  }

  // ---------------------------------------------------------------------
  // Adding one

  predicate AllNines(s: string) {
    forall i | 0 <= i < |s| :: s[i] == '9'
  }

  /** The digits after nines at the end have become zeros and the digit before
      them has been incremented. */
  function Increment(s: string): (r: string)
    requires Digits(s) && !AllNines(s)
    ensures Digits(r) && |r| == |s|
  {
    var t, d := s[..|s| - 1], s[|s| - 1];
    if d == '9' then
      assert s == t + [d];
      Increment(t) + "0"
    else t + [d + 1 as char]
  }

  function Zeros(n: nat): string {
    seq(n, _ => '0')
  }

  /** The carry has turned the digits of s from the n-th on into zeros. */
  ghost predicate Carried(s: string, n: nat) {
    && Digits(s) && !AllNines(s) && 0 < n <= |s|
    && Digits(s[..n]) && !AllNines(s[..n])
    && Increment(s) == Increment(s[..n]) + Zeros(|s| - n)
  }

  lemma CarryBegins(s: string)
    requires Digits(s) && !AllNines(s)
    ensures Carried(s, |s|)
  {
    assert s[..|s|] == s;
  }

  /** A nine becomes a zero, and the carry goes on... */
  lemma CarryGoesOn(s: string, n: nat)
    requires Carried(s, n) && s[n - 1] == '9'
    ensures Carried(s, n - 1)
  {
    var t := s[..n];
    assert t[..n - 1] == s[..n - 1] && t == s[..n - 1] + [s[n - 1]];
    assert Increment(t) == Increment(s[..n - 1]) + "0";
    assert "0" + Zeros(|s| - n) == Zeros(|s| - n + 1);
  }

  /** ...and any other digit is incremented, which ends it. */
  lemma CarryEnds(s: string, n: nat)
    requires Carried(s, n) && s[n - 1] != '9'
    ensures '0' <= s[n - 1] <= '8' && Increment(s[..n]) == s[..n - 1] + [s[n - 1] + 1 as char]
  {
    IncrementLast(s[..n]);
    assert s[..n][..n - 1] == s[..n - 1];
  }

  lemma IncrementLast(t: string)
    requires Digits(t) && !AllNines(t) && t[|t| - 1] != '9'
    ensures '0' <= t[|t| - 1] <= '8' && Increment(t) == t[..|t| - 1] + [t[|t| - 1] + 1 as char]
  {
  }

  lemma {:induction false} IncrementAddsOne(s: string)
    requires Digits(s) && !AllNines(s)
    ensures Value(Increment(s)) == Value(s) + 1
  {
    var t, d := s[..|s| - 1], s[|s| - 1];
    var r := Increment(s);
    if d == '9' {
      assert s == t + [d];
      IncrementAddsOne(t);
      assert r[..|r| - 1] == Increment(t);
    } else {
      assert r[..|r| - 1] == t;
    }
  }

  /** A zero in front does not change the number. */
  lemma {:induction false} LeadingZero(s: string)
    requires Digits(s)
    ensures Digits("0" + s) && Value("0" + s) == Value(s)
  {
    var z := "0" + s;
    if s == "" {
      assert z[..0] == "";
    } else {
      LeadingZero(s[..|s| - 1]);
      assert z[..|z| - 1] == "0" + s[..|s| - 1];
    }
  }

  lemma {:induction false} NinesAreLargest(s: string)
    requires Digits(s)
    ensures AllNines(s) <==> Value(s) == Pow10(|s|) - 1
  {
    if s != "" {
      var t := s[..|s| - 1];
      assert s == t + [s[|s| - 1]];
      NinesAreLargest(t);
      if t != "" {
        Magnitude(t);
      }
    }
  }

  /** The digits of a number, with room for one more if they are all nines. */
  function WithRoom(d: string): string {
    if AllNines(d) then "0" + d else d
  }

  lemma RoomKeepsValue(d: string)
    requires Digits(d) && d != ""
    ensures Digits(WithRoom(d)) && !AllNines(WithRoom(d)) && Value(WithRoom(d)) == Value(d)
  {
    LeadingZero(d);
    assert AllNines(d) ==> WithRoom(d)[0] == '0';
  }

  /** The room is used exactly if the successor needs it. */
  lemma NoZeroAhead(d: string, r: string)
    requires Digits(d) && d != "" && d[0] != '0'
    requires Digits(r) && |r| == |WithRoom(d)| && Value(r) == Value(d) + 1
    ensures r[0] != '0'
  {
    Magnitude(d);
    NinesAreLargest(d);
    Magnitude(r);
  }

  /** Incrementing the representation of k, with a zero in front of it if it is
      all nines, yields the representation of k + 1. */
  lemma Successor(k: nat)
    requires k > 0
    ensures var s := WithRoom(Decimal(k)); Digits(s) && !AllNines(s) && Increment(s) == Decimal(k + 1)
    ensures |Decimal(k + 1)| > |Decimal(k)| <==> AllNines(Decimal(k))
  {
    var d := Decimal(k);
    DecimalHasValue(k);
    RoomKeepsValue(d);
    IncrementAddsOne(WithRoom(d));
    var r := Increment(WithRoom(d));
    NoZeroAhead(d, r);
    ValueHasDecimal(r);
  }
}
