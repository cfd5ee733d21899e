/** Amounts in whole cents, and the roundings applied to them
    (crates/griffe-core/src/domain/money.rs, crates/griffe-core/src/accounting.rs).
    A `Money` is an unbounded integer here. */
module Money {

  type Cents = int

  function Min(a: int, b: int): int { if a <= b then a else b }

  function Max(a: int, b: int): int { if a >= b then a else b }

  function Abs(a: int): nat { if a >= 0 then a else -a }

  function Signum(a: int): int { if a > 0 then 1 else if a < 0 then -1 else 0 }

  /** Division truncated towards zero, as Rust's `/`. */
  function Quot(a: int, b: int): int
    requires b > 0
  {
    if a >= 0 then a / b else -((-a) / b)
  }

  /** Remainder with the sign of the dividend, as Rust's `%`. */
  function Rem(a: int, b: int): int
    requires b > 0
  {
    if a >= 0 then a % b else -((-a) % b)
  }

  lemma CancelFactor(b: int, x: int, y: int)
    requires b > 0 && b * x < b * y + b
    ensures x <= y
  {
    assert b * x - b * y == b * (x - y);
    assert x - y >= 1 ==> b * (x - y) >= b;
  }

  lemma QuotientBetween(a: nat, b: int, low: int, high: int)
    requires b > 0 && b * low <= a <= b * high
    ensures low <= a / b <= high
  {
    var q := a / b;
    assert b * q <= a < b * q + b;
    CancelFactor(b, low, q);
    CancelFactor(b, q, high);
  }

  // -------------------------------------------------------------------------
  // Rounding half to even
  // -------------------------------------------------------------------------

  function RoundHalfToEven(product: int, divisor: int): int
    requires divisor > 0
  {
    var quotient := Quot(product, divisor);
    var remainder := Rem(product, divisor);
    var twice := 2 * Abs(remainder);
    if twice > divisor || (twice == divisor && Rem(quotient, 2) != 0) then
      quotient + Signum(remainder)
    else
      quotient
  }

  /** `q` is nearest to `p / d`; on a tie it is the even neighbour. */
  predicate IsHalfEven(p: int, d: int, q: int)
    requires d > 0
  {
    && 2 * Abs(p - d * q) <= d
    && (2 * Abs(p - d * q) == d ==> q % 2 == 0)
  }

  lemma RoundHalfToEvenIsHalfEven(p: int, d: int)
    requires d > 0
    ensures IsHalfEven(p, d, RoundHalfToEven(p, d))
  {
    var a, q := Abs(p), Abs(p) / d;
    assert a == d * q + a % d;
    assert d * (q + 1) == d * q + d;
    assert d * (-q) == -(d * q);
    assert d * (-q - 1) == -(d * q) - d;
  }

  lemma MultiplesApart(d: int, q: int, q': int)
    requires d > 0
    ensures q - q' >= 2 ==> d * q - d * q' >= 2 * d
    ensures q - q' == 1 ==> d * q - d * q' == d
  {
    assert d * q - d * q' == d * (q - q');
    if q - q' >= 2 {
      assert d * (q - q') == 2 * d + d * (q - q' - 2);
    }
  }

  lemma HalfEvenIsOrdered(p: int, p': int, d: int, q: int, q': int)
    requires d > 0 && p <= p' && IsHalfEven(p, d, q) && IsHalfEven(p', d, q')
    ensures q <= q'
  {
    MultiplesApart(d, q, q');
    var x, y := d * q, d * q';
    assert 2 * Abs(p - x) <= d && 2 * Abs(p' - y) <= d;
    assert x - y <= d;
    assert q <= q' + 1;
  }

  /** The specification leaves one result only: any other rounding is excluded. */
  lemma HalfEvenIsUnique(p: int, d: int, q: int)
    requires d > 0
    ensures IsHalfEven(p, d, q) <==> q == RoundHalfToEven(p, d)
  {
    var r := RoundHalfToEven(p, d);
    assert IsHalfEven(p, d, r) by {
      RoundHalfToEvenIsHalfEven(p, d);
    }
    if IsHalfEven(p, d, q) {
      HalfEvenIsOrdered(p, p, d, q, r);
      HalfEvenIsOrdered(p, p, d, r, q);
    }
  }

  lemma RoundHalfToEvenIsMonotone(p: int, p': int, d: int)
    requires d > 0 && p <= p'
    ensures RoundHalfToEven(p, d) <= RoundHalfToEven(p', d)
  {
    HalfEvenIsUnique(p, d, RoundHalfToEven(p, d));
    HalfEvenIsUnique(p', d, RoundHalfToEven(p', d));
    HalfEvenIsOrdered(p, p', d, RoundHalfToEven(p, d), RoundHalfToEven(p', d));
  }

  /** `amount × bps / 10 000`, half to even: the VAT and corporate-tax rate. */
  function ApplyRateBps(amount: Cents, bps: nat): Cents {
    RoundHalfToEven(amount * bps, 10_000)
  }

  lemma ApplyRateBpsIsNearest(amount: Cents, bps: nat)
    ensures IsHalfEven(amount * bps, 10_000, ApplyRateBps(amount, bps))
  {
    RoundHalfToEvenIsHalfEven(amount * bps, 10_000);
  }

  lemma ApplyRateBpsIsMonotone(a: Cents, b: Cents, bps: nat)
    requires a <= b
    ensures ApplyRateBps(a, bps) <= ApplyRateBps(b, bps)
  {
    assert (b - a) * bps >= 0;
    RoundHalfToEvenIsMonotone(a * bps, b * bps, 10_000);
  }

  // -------------------------------------------------------------------------
  // Rounding to the euro
  // -------------------------------------------------------------------------

  /** Nearest euro, half a euro counted as one, symmetric below zero. */
  function RoundToEuro(amount: Cents): Cents {
    var euros := (Abs(amount) + 50) / 100;
    if amount < 0 then -100 * euros else 100 * euros
  }

  /** The whole euro within half a euro; half a euro goes away from zero.
      These conditions name one amount only. */
  predicate IsNearestEuro(amount: Cents, euro: Cents) {
    && euro % 100 == 0
    && (amount >= 0 ==> euro - 50 <= amount < euro + 50)
    && (amount < 0 ==> euro - 50 < amount <= euro + 50)
  }

  lemma RoundToEuroIsNearest(amount: Cents)
    ensures IsNearestEuro(amount, RoundToEuro(amount))
  {
    var euros := (Abs(amount) + 50) / 100;
    assert 100 * euros - 50 <= Abs(amount) < 100 * euros + 50;
  }

  lemma WholeEurosApart(a: Cents, b: Cents)
    requires a % 100 == 0 && b % 100 == 0 && -100 < a - b < 100
    ensures a == b
  {
  }

  lemma NearestEuroExactly(amount: Cents, euro: Cents)
    ensures IsNearestEuro(amount, euro) <==> euro == RoundToEuro(amount)
  {
    RoundToEuroIsNearest(amount);
    if IsNearestEuro(amount, euro) {
      WholeEurosApart(euro, RoundToEuro(amount));
    }
  }

  lemma RoundToEuroIsMonotone(a: Cents, b: Cents)
    requires a <= b
    ensures RoundToEuro(a) <= RoundToEuro(b)
    ensures 0 <= a && b <= a + 100 ==> RoundToEuro(b) <= RoundToEuro(a) + 100
  {
    NearestEuroExactly(a, RoundToEuro(a));
    NearestEuroExactly(b, RoundToEuro(b));
  }

  // -------------------------------------------------------------------------
  // Sums and equal shares
  // -------------------------------------------------------------------------

  function Sum(amounts: seq<Cents>): Cents {
    if amounts == [] then 0 else amounts[0] + Sum(amounts[1..])
  }

  lemma {:induction false} SumOfConcat(a: seq<Cents>, b: seq<Cents>)
    ensures Sum(a + b) == Sum(a) + Sum(b)
  {
    if a == [] {
      assert a + b == b;
    } else {
      assert (a + b)[1..] == a[1..] + b;
      SumOfConcat(a[1..], b);
    }
  }

  /** The first `extra` shares take one more cent (one less for a debt). */
  function SplitEqually(amount: Cents, parts: nat): seq<Cents>
    requires parts > 0
  {
    var base := Quot(amount, parts);
    var remainder := Rem(amount, parts);
    seq(parts, i => base + if i < Abs(remainder) then Signum(remainder) else 0)
  }

  lemma {:induction false} SumOfSteps(s: seq<Cents>, base: Cents, bonus: Cents, extra: nat)
    requires forall i :: 0 <= i < |s| ==> s[i] == base + if i < extra then bonus else 0
    ensures Sum(s) == |s| * base + Min(|s|, extra) * bonus
  {
    if s != [] {
      var n := |s| - 1;
      assert s == s[..n] + [s[n]];
      SumOfConcat(s[..n], [s[n]]);
      SumOfSteps(s[..n], base, bonus, extra);
      assert |s| * base == n * base + base;
      if n < extra {
        assert (n + 1) * bonus == n * bonus + bonus;
      }
    }
  }

  /** No cent is lost or made, whatever the sign; two shares differ by at most one cent, and the
      first ones are the largest. */
  lemma SplitEquallyLosesNothing(amount: Cents, parts: nat)
    requires parts > 0
    ensures |SplitEqually(amount, parts)| == parts
    ensures Sum(SplitEqually(amount, parts)) == amount
    ensures forall i, j :: 0 <= i < parts && 0 <= j < parts ==>
              Abs(SplitEqually(amount, parts)[i] - SplitEqually(amount, parts)[j]) <= 1
    ensures forall i, j :: 0 <= i <= j < parts ==>
              Abs(SplitEqually(amount, parts)[i]) >= Abs(SplitEqually(amount, parts)[j])
  {
    SharesDescend(amount, parts);
    SharesAddUp(amount, parts);
    hide SplitEqually, Sum, Quot, Rem;
  }

  lemma SharesDescend(amount: Cents, parts: nat)
    requires parts > 0
    ensures |SplitEqually(amount, parts)| == parts
    ensures forall i, j :: 0 <= i <= j < parts ==>
              var a, b := SplitEqually(amount, parts)[i], SplitEqually(amount, parts)[j];
              Abs(b) <= Abs(a) <= Abs(b) + 1 && Abs(a - b) <= 1
  {
    var shares := SplitEqually(amount, parts);
    var base, remainder := Quot(amount, parts), Rem(amount, parts);
    SignsAgree(amount, parts);
    assert forall i :: 0 <= i < parts ==> shares[i] == base + if i < Abs(remainder) then Signum(remainder) else 0;
    hide Quot, Rem, SplitEqually;
  }

  lemma SignsAgree(amount: Cents, parts: nat)
    requires parts > 0
    ensures amount >= 0 ==> Quot(amount, parts) >= 0 && Rem(amount, parts) >= 0
    ensures amount <= 0 ==> Quot(amount, parts) <= 0 && Rem(amount, parts) <= 0
  {
  }

  lemma SharesAddUp(amount: Cents, parts: nat)
    requires parts > 0
    ensures Sum(SplitEqually(amount, parts)) == amount
  {
    var base, remainder := Quot(amount, parts), Rem(amount, parts);
    SumOfSteps(SplitEqually(amount, parts), base, Signum(remainder), Abs(remainder));
    var a := Abs(amount);
    assert a == parts * (a / parts) + a % parts;
    assert parts * -(a / parts) == -(parts * (a / parts));
    assert Abs(remainder) * Signum(remainder) == remainder;
  }

  // -------------------------------------------------------------------------
  // Sums floored term by term
  // -------------------------------------------------------------------------

  function Total(x: nat -> Cents, n: nat): Cents { if n == 0 then 0 else Total(x, n - 1) + x(n - 1) }

  ghost predicate HaveOneSign(x: nat -> Cents, n: nat) {
    (forall i: nat :: i < n ==> x(i) >= 0) || (forall i: nat :: i < n ==> x(i) <= 0)
  }

  function Floored(x: nat -> Cents, n: nat): Cents { if n == 0 then 0 else Floored(x, n - 1) + Max(x(n - 1), 0) }

  lemma {:induction false} FlooredParts(x: nat -> Cents, n: nat)
    ensures Floored(x, n) >= Max(Total(x, n), 0)
    ensures Floored(x, n) == 0 <==> forall i: nat :: i < n ==> x(i) <= 0
    ensures Floored(x, n) == Total(x, n) <==> forall i: nat :: i < n ==> x(i) >= 0
  {
    if n > 0 {
      FlooredParts(x, n - 1);
      assert (forall i: nat :: i < n ==> x(i) <= 0) <==> (forall i: nat :: i < n - 1 ==> x(i) <= 0) && x(n - 1) <= 0;
      assert (forall i: nat :: i < n ==> x(i) >= 0) <==> (forall i: nat :: i < n - 1 ==> x(i) >= 0) && x(n - 1) >= 0;
    }
  }

  /** Flooring each term at zero and summing is at least the sum floored once, and the same
      exactly when no two terms have opposite signs. */
  lemma FloorsAddUpExactly(x: nat -> Cents, n: nat)
    ensures Floored(x, n) >= Max(Total(x, n), 0)
    ensures Floored(x, n) == Max(Total(x, n), 0) <==> HaveOneSign(x, n)
  {
    FlooredParts(x, n);
  }
}
