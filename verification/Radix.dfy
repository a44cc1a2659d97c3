// Positional notation: Number.prototype.toString(radix) of a non-negative integer, and padStart.
// Digits are values, most significant first.
module Radix {

  function Digits(n: nat, base: nat): (r: seq<nat>)
    requires base >= 2
    ensures r != []
    ensures forall i :: 0 <= i < |r| ==> r[i] < base
    ensures n > 0 ==> r[0] != 0
    decreases n
  {
    if n < base then [n]
    else
      Quotient(n, base);
      Digits(n / base, base) + [n % base]
  }

  function Value(ds: seq<nat>, base: nat): nat {
    if ds == [] then 0 else Value(ds[..|ds| - 1], base) * base + ds[|ds| - 1]
  }

  lemma Quotient(n: nat, base: nat)
    requires n >= base >= 2
    ensures 0 < n / base < n
    ensures n == n / base * base + n % base
  {
    var q := n / base;
    assert n == q * base + n % base;
    if q <= 0 {
      ProductOrder(q, 0, base);
    }
    assert q * base >= q * 2;
  }

  lemma ProductOrder(a: int, b: int, c: nat)
    requires a <= b
    ensures a * c <= b * c
  {}

  /** Nothing is lost: the digits determine the number. */
  lemma {:induction false} ValueOfDigits(n: nat, base: nat)
    requires base >= 2
    ensures Value(Digits(n, base), base) == n
    decreases n
  {
    if n < base {
      assert Value([], base) == 0;
      assert [n][..0] == [];
    } else {
      Quotient(n, base);
      ValueOfDigits(n / base, base);
      var ds := Digits(n / base, base);
      assert (ds + [n % base])[..|ds|] == ds;
    }
  }

  function Zeros(k: nat): (r: seq<nat>)
    ensures |r| == k && forall i :: 0 <= i < k ==> r[i] == 0
  {
    seq(k, _ => 0)
  }

  /** padStart(width, "0"). */
  function PadStart(ds: seq<nat>, width: nat): seq<nat> {
    if |ds| >= width then ds else Zeros(width - |ds|) + ds
  }

  lemma {:induction false} ValueOfZeros(k: nat, base: nat)
    ensures Value(Zeros(k), base) == 0
  {
    if k > 0 {
      assert Zeros(k)[..k - 1] == Zeros(k - 1);
      ValueOfZeros(k - 1, base);
    }
  }

  lemma {:induction false} ValueAfterZeros(k: nat, ds: seq<nat>, base: nat)
    ensures Value(Zeros(k) + ds, base) == Value(ds, base)
  {
    if ds == [] {
      assert Zeros(k) + ds == Zeros(k);
      ValueOfZeros(k, base);
    } else {
      var n := |ds| - 1;
      assert (Zeros(k) + ds)[..k + n] == Zeros(k) + ds[..n];
      ValueAfterZeros(k, ds[..n], base);
    }
  }

  lemma ValueOfPadded(n: nat, base: nat, width: nat)
    requires base >= 2
    ensures Value(PadStart(Digits(n, base), width), base) == n
  {
    ValueOfDigits(n, base);
    var ds := Digits(n, base);
    if |ds| < width {
      ValueAfterZeros(width - |ds|, ds, base);
    }
  }

  function Power(base: nat, k: nat): nat {
    if k == 0 then 1 else base * Power(base, k - 1)
  }

  /** A number below base^k has at most k digits. */
  lemma {:induction false} DigitsFit(n: nat, base: nat, k: nat)
    requires base >= 2 && k >= 1 && n < Power(base, k)
    ensures |Digits(n, base)| <= k
    decreases k
  {
    if n >= base {
      Quotient(n, base);
      var q, p := n / base, Power(base, k - 1);
      assert k > 1 by {
        assert Power(base, 0) == 1;
      }
      BelowQuotient(n, base, p);
      DigitsFit(q, base, k - 1);
    }
  }

  lemma BelowQuotient(n: nat, base: nat, p: nat)
    requires base >= 2 && n < base * p
    ensures n / base < p
  {
    var q := n / base;
    assert n == q * base + n % base;
    if q >= p {
      ProductOrder(p, q, base);
    }
  }
}
