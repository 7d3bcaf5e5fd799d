/** The overflow-safe split of a compression ratio into an integer part and three decimals. */
module Ratio {
  import opened Basics

  type u64 = x: int | 0 <= x < TWO64

  function Add(a: u64, b: u64): u64 { (a + b) % TWO64 }

  function Sub(a: u64, b: u64): u64 { (a - b) % TWO64 }

  function Mul(a: u64, b: u64): u64 { (a * b) % TWO64 }

  /** The wrapped sum tells whether the true one reached the divisor, and subtracting undoes the wrap. */
  lemma WrapTest(acc: u64, r: u64, d: u64)
    requires acc < d && r < d
    ensures var sum: int := acc + r;
            && ((Add(acc, r) >= d || Add(acc, r) < r) <==> sum >= d)
            && (sum >= d ==> Sub(Add(acc, r), d) == sum - d)
            && (sum < d ==> Add(acc, r) == sum)
  {
    var sum: int := acc + r;
    if sum >= TWO64 {
      DivUnique(sum, TWO64, 1, sum - TWO64);
      DivUnique(sum - TWO64 - d, TWO64, -1, sum - d);
    } else {
      DivUnique(sum, TWO64, 0, sum);
      if sum >= d {
        DivUnique(sum - d, TWO64, 0, sum - d);
      }
    }
  }

  /** One addition of the remainder, before and after a divisor is peeled off. */
  lemma Peel(r: int, d: int, k: int, digit: int, acc: int)
    requires r * (k + 1) == digit * d + acc
    ensures r * (k + 2) == digit * d + (acc + r) == (digit + 1) * d + (acc + r - d)
  {
  }

  /** `remainder * 10` divided by `divisor`, without ever forming the product. */
  method PeelDigit(remainder: u64, divisor: u64) returns (digit: u64, rest: u64)
    requires remainder < divisor
    ensures remainder * 10 == digit * divisor + rest && rest < divisor && digit < 10
  {
    var acc: u64 := remainder;
    digit := 0;
    ghost var r: int, d: int := remainder, divisor;
    for k := 0 to 9
      invariant digit <= k && acc < divisor
      invariant r * (k + 1) == digit * d + acc
    {
      Peel(r, d, k, digit, acc);
      WrapTest(acc, remainder, divisor);
      acc := Add(acc, remainder);
      if acc >= divisor || acc < remainder {
        acc := Sub(acc, divisor);
        digit := digit + 1;
      }
    }
    rest := acc;
  }

  method Divide(p: u64, d: u64) returns (digit: u64, rest: u64)
    requires d > 0 && p < 10 * d
    ensures p == digit * d + rest && rest < d && digit < 10
  {
    DigitIsSmall(p, d);
    digit, rest := p / d, p % d;
  }

  /** The next decimal digit of the quotient, on either side of the overflow test. */
  method NextDigit(remainder: u64, divisor: u64) returns (digit: u64, rest: u64)
    requires remainder < divisor
    ensures remainder * 10 == digit * divisor + rest && rest < divisor && digit < 10
  {
    if remainder <= (TWO64 - 1) / 10 {
      var product: u64 := Mul(remainder, 10);
      assert product == remainder * 10;
      digit, rest := Divide(product, divisor);
    } else {
      digit, rest := PeelDigit(remainder, divisor);
    }
  }

  /** Every intermediate value wraps at 2^64, and yet the result is the exact quotient over the integers. */
  method RatioParts(bytesIn: u64, bytesOut: u64) returns (ratioInt: u64, ratioFrac: u64)
    requires bytesOut > 0
    ensures ratioInt * 1000 + ratioFrac == bytesIn * 1000 / bytesOut
    ensures ratioFrac < 1000 && ratioInt == bytesIn / bytesOut
  {
    QuotientFits(bytesIn, bytesOut);
    ratioInt := bytesIn / bytesOut;
    var remainder: u64 := bytesIn % bytesOut;
    var frac: u64 := 0;
    ghost var first: int, p: int := remainder, 1;
    for i := 0 to 3
      invariant remainder < bytesOut && frac < p
      invariant p == if i == 0 then 1 else if i == 1 then 10 else if i == 2 then 100 else 1000
      invariant Divides(first, p, bytesOut, frac, remainder)
    {
      hide Divides;
      ghost var f, m := frac, remainder;
      var digit: u64;
      digit, remainder := NextDigit(remainder, bytesOut);
      frac := Add(Mul(frac, 10), digit);
      Append(f, digit, p);
      Carry(first, p, f, m, digit, remainder, bytesOut);
      p := 10 * p;
    }
    ratioFrac := frac;
    Exact(bytesIn, bytesOut, ratioInt, first, frac, remainder);
  }

  lemma QuotientFits(n: nat, d: nat)
    requires d > 0
    ensures n / d <= n
  {
    assert n == d * (n / d) + n % d;
    if n < n / d {
      MulStep(n / d, 0, d);
    }
  }

  lemma DigitIsSmall(p: nat, d: nat)
    requires d > 0 && p < 10 * d
    ensures p == (p / d) * d + p % d && 0 <= p % d < d && 0 <= p / d < 10
  {
    var q := p / d;
    assert p == d * q + p % d;
    if q >= 10 {
      MulStep(d, 9, q);
    }
  }

  /** `first` scaled by `p` is `frac` times `d`, and `rest` over. */
  ghost predicate Divides(first: nat, p: nat, d: nat, frac: nat, rest: nat) {
    first * p == frac * d + rest
  }

  /** Appending a digit to so small a number does not wrap. */
  lemma Append(f: u64, digit: u64, p: nat)
    requires f < p <= 100 && digit < 10
    ensures Add(Mul(f, 10), digit) == f * 10 + digit < 10 * p
  {
  }

  /** One more digit of the long division. */
  lemma Carry(first: nat, p: nat, f: nat, m: nat, digit: nat, rest: nat, d: nat)
    requires Divides(first, p, d, f, m) && m * 10 == digit * d + rest
    ensures Divides(first, 10 * p, d, f * 10 + digit, rest)
  {
    calc {
      first * (10 * p);
      10 * (first * p);
      10 * (f * d) + m * 10;
      (f * 10) * d + digit * d + rest;
      (f * 10 + digit) * d + rest;
    }
  }

  lemma Exact(n: nat, d: nat, q: nat, r: nat, frac: nat, rest: nat)
    requires d > 0 && q == n / d && r == n % d && Divides(r, 1000, d, frac, rest) && rest < d
    ensures q * 1000 + frac == n * 1000 / d
  {
    calc {
      n * 1000;
      { assert n == d * q + r; }
      (d * q) * 1000 + r * 1000;
      d * (q * 1000) + d * frac + rest;
      d * (q * 1000 + frac) + rest;
    }
    DivUnique(n * 1000, d, q * 1000 + frac, rest);
  }
}
