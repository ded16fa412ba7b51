/** Positional notation in an arbitrary base, least-significant digit first.
    The display driver uses it twice: base 10 for splitting the number to show
    into six decimal digits, and base 2 for the four lines of the BCD bus. */
module Radix {

  function Pow(b: nat, k: nat): (p: nat)
    ensures b >= 1 ==> p >= 1
  {
    if k == 0 then 1 else b * Pow(b, k - 1)
  }

  /** The k lowest base-b digits of n, least significant first: the values
      produced by k rounds of `d := n % b; n := n / b`. */
  function Digits(n: nat, b: nat, k: nat): (ds: seq<nat>)
    requires b >= 2
    ensures |ds| == k
    ensures forall i | 0 <= i < k :: ds[i] < b
  {
    if k == 0 then [] else [n % b] + Digits(n / b, b, k - 1)
  }

  /** The number a digit sequence denotes: the sum of ds[i] * b^i. */
  function Value(ds: seq<nat>, b: nat): nat
  {
    if ds == [] then 0 else ds[0] + b * Value(ds[1..], b)
  }

  predicate AllBelow(ds: seq<nat>, b: nat)
  {
    forall i | 0 <= i < |ds| :: ds[i] < b
  }

  lemma MulBounds(d: int, e: int)
    requires d > 0
    ensures e >= 1 ==> d * e >= d
    ensures e <= -1 ==> d * e <= -d
  {
  }

  lemma Distrib(b: int, x: int, y: int, z: int)
    ensures b * (x * y + z) == (b * x) * y + b * z
  {
  }

  lemma MulSub(b: int, x: int, y: int)
    ensures b * (x - y) == b * x - b * y
  {
  }

  /** Quotient and remainder are the only pair with n == d * q + r and 0 <= r < d. */
  lemma DivModUnique(n: nat, d: nat, q: nat, r: nat)
    requires d > 0 && n == d * q + r && r < d
    ensures n / d == q && n % d == r
  {
    var q', r' := n / d, n % d;
    assert d * q' + r' == d * q + r;
    assert d * (q' - q) == r - r';
    MulBounds(d, q' - q);
  }

  /** Dividing by b and then by p is dividing by b * p; the remainder modulo
      b * p is made of the last digit and the remainder of the quotient. */
  lemma DivModOfProduct(n: nat, b: nat, p: nat, bp: nat)
    requires b > 0 && p > 0 && bp == b * p
    ensures n / bp == (n / b) / p
    ensures n % bp == n % b + b * ((n / b) % p)
  {
    var q, r := n / b, n % b;
    var q2, r2 := q / p, q % p;
    Regroup(n, b, p, q, r, q2, r2);
    DivModUnique(n, bp, q2, b * r2 + r);
  }

  lemma Regroup(n: int, b: int, p: int, q: int, r: int, q2: int, r2: int)
    requires b > 0 && 0 <= r < b && 0 <= r2 < p
    requires n == b * q + r && q == p * q2 + r2
    ensures n == (b * p) * q2 + (b * r2 + r)
    ensures b * r2 + r < b * p
  {
    Distrib(b, p, q2, r2);
    MulBounds(b, p - r2);
    MulSub(b, p, r2);
  }

  /** The digits determine the number modulo b^k: high digits are dropped. */
  lemma {:induction false} ValueOfDigits(n: nat, b: nat, k: nat)
    requires b >= 2
    ensures Value(Digits(n, b, k), b) == n % Pow(b, k)
  {
    if k > 0 {
      var ds := Digits(n, b, k);
      assert ds[1..] == Digits(n / b, b, k - 1);
      ValueOfDigits(n / b, b, k - 1);
      DivModOfProduct(n, b, Pow(b, k - 1), Pow(b, k));
    }
  }

  /** Digit i is (n / b^i) % b, as a closed formula. */
  lemma {:induction false} DigitAt(n: nat, b: nat, k: nat, i: nat)
    requires b >= 2 && i < k
    ensures Digits(n, b, k)[i] == (n / Pow(b, i)) % b
  {
    if i == 0 {
      assert Pow(b, 0) == 1;
    } else {
      DigitAt(n / b, b, k - 1, i - 1);
      DigitsTail(n, b, k, i);
      ShiftQuotient(n, b, i);
    }
  }

  lemma DigitsTail(n: nat, b: nat, k: nat, i: nat)
    requires b >= 2 && 0 < i < k
    ensures Digits(n, b, k)[i] == Digits(n / b, b, k - 1)[i - 1]
  {
  }

  /** n / b^i is (n / b) / b^(i-1). */
  lemma ShiftQuotient(n: nat, b: nat, i: nat)
    requires b >= 2 && i > 0
    ensures n / Pow(b, i) == (n / b) / Pow(b, i - 1)
  {
    DivModOfProduct(n, b, Pow(b, i - 1), Pow(b, i));
  }

  /** A number below b^k is given back exactly by its k digits. */
  lemma ValueOfDigitsExact(n: nat, b: nat, k: nat)
    requires b >= 2 && n < Pow(b, k)
    ensures Value(Digits(n, b, k), b) == n
  {
    ValueOfDigits(n, b, k);
    DivModUnique(n, Pow(b, k), 0, n);
  }

  /** The other round trip: splitting the value of a digit sequence gives the
      digits back. */
  lemma {:induction false} DigitsOfValue(ds: seq<nat>, b: nat)
    requires b >= 2 && AllBelow(ds, b)
    ensures Digits(Value(ds, b), b, |ds|) == ds
  {
    if ds != [] {
      var v := Value(ds[1..], b);
      DivModUnique(Value(ds, b), b, v, ds[0]);
      DigitsOfValue(ds[1..], b);
    }
  }

  /** A k-digit sequence denotes a number below b^k. */
  lemma {:induction false} ValueBound(ds: seq<nat>, b: nat)
    requires b >= 2 && AllBelow(ds, b)
    ensures Value(ds, b) < Pow(b, |ds|)
  {
    if ds != [] {
      ValueBound(ds[1..], b);
      var v, p := Value(ds[1..], b), Pow(b, |ds| - 1);
      MulBounds(b, p - v);
      MulSub(b, p, v);
    }
  }
}
