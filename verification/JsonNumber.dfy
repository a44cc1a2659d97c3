// The text of a number: Number::toString of ECMA-262 (section 6.1.6.1.20), which JSON.stringify uses,
// and a reader for it.  A finite non-zero number is given by its shortest decimal: digits d1 d2 ... dk
// with d1 and dk not zero, standing for 0.d1d2...dk times 10^point.
module JsonNumber {
  import opened Hashes
  import Radix

  datatype Number =
    | NonFinite
    | Zero(negative: bool)
    | Finite(negative: bool, digits: seq<nat>, point: int)

  predicate DecimalDigits(ds: seq<nat>) {
    forall i :: 0 <= i < |ds| ==> ds[i] < 10
  }

  /** The digits of a shortest decimal. */
  predicate Shortest(ds: seq<nat>) {
    DecimalDigits(ds) && ds != [] && ds[0] != 0 && ds[|ds| - 1] != 0
  }

  predicate ValidNumber(x: Number) {
    x.Finite? ==> Shortest(x.digits)
  }

  const DIGIT_0: Unit := 0x30
  const DOT: Unit := 0x2E
  const LETTER_E: Unit := 0x65
  const PLUS: Unit := 0x2B
  const MINUS: Unit := 0x2D

  predicate IsNumberUnit(c: Unit) {
    (DIGIT_0 <= c <= DIGIT_0 + 9) || c == DOT || c == LETTER_E || c == PLUS || c == MINUS
  }

  ghost predicate AllNumberUnits(t: Text) {
    forall i :: 0 <= i < |t| ==> IsNumberUnit(t[i])
  }

  function DigitText(ds: seq<nat>): (t: Text)
    requires DecimalDigits(ds)
    ensures |t| == |ds| && forall i :: 0 <= i < |ds| ==> t[i] == DIGIT_0 + ds[i]
  {
    seq(|ds|, i requires 0 <= i < |ds| => DIGIT_0 + ds[i])
  }

  function Abs(x: int): nat {
    if x >= 0 then x else -x
  }

  function WholeText(ds: seq<nat>, n: int): (t: Text)
    requires Shortest(ds) && |ds| <= n
    ensures |t| == n
    ensures forall i :: 0 <= i < n ==> t[i] == DIGIT_0 + if i < |ds| then ds[i] else 0
  {
    DigitText(ds) + DigitText(Radix.Zeros(n - |ds|))
  }

  function PointText(ds: seq<nat>, n: int): (t: Text)
    requires Shortest(ds) && 0 < n < |ds|
    ensures |t| == |ds| + 1 && t[n] == DOT
    ensures forall i :: 0 <= i < n ==> t[i] == DIGIT_0 + ds[i]
    ensures forall i :: n <= i < |ds| ==> t[i + 1] == DIGIT_0 + ds[i]
  {
    DigitText(ds[..n]) + [DOT] + DigitText(ds[n..])
  }

  function SmallText(ds: seq<nat>, zeros: int): (t: Text)
    requires Shortest(ds) && zeros >= 0
    ensures |t| == 2 + zeros + |ds| && t[0] == DIGIT_0 && t[1] == DOT
    ensures forall i :: 2 <= i < |t| ==> t[i] == DIGIT_0 + if i < 2 + zeros then 0 else ds[i - 2 - zeros]
  {
    [DIGIT_0] + [DOT] + DigitText(Radix.Zeros(zeros) + ds)
  }

  function Mantissa(ds: seq<nat>): Text
    requires Shortest(ds)
  {
    if |ds| == 1 then DigitText(ds) else PointText(ds, 1)
  }

  function Sign(n: int): Unit {
    if n >= 1 then PLUS else MINUS
  }

  function ExponentText(n: int): Text {
    [Sign(n)] + DigitText(Radix.Digits(Abs(n - 1), 10))
  }

  function ScientificText(ds: seq<nat>, n: int): Text
    requires Shortest(ds)
  {
    Mantissa(ds) + [LETTER_E] + ExponentText(n)
  }

  function Magnitude(ds: seq<nat>, n: int): Text
    requires Shortest(ds)
  {
    if |ds| <= n <= 21 then WholeText(ds, n)
    else if 0 < n <= 21 then PointText(ds, n)
    else if -6 < n <= 0 then SmallText(ds, -n)
    else ScientificText(ds, n)
  }

  function FiniteText(x: Number): Text
    requires ValidNumber(x) && !x.NonFinite?
  {
    match x
    case Zero(_) => [DIGIT_0]
    case Finite(negative, ds, n) => if negative then [MINUS] + Magnitude(ds, n) else Magnitude(ds, n)
  }

  // ---------------------------------------------------------------------
  // Reading
  // ---------------------------------------------------------------------

  function IndexOf(t: Text, c: Unit): (i: nat)
    ensures i <= |t| && (i < |t| ==> t[i] == c)
    ensures forall j :: 0 <= j < i ==> t[j] != c
  {
    if t == [] || t[0] == c then 0 else 1 + IndexOf(t[1..], c)
  }

  function DigitsOf(t: Text): (ds: seq<nat>)
    ensures |ds| == |t|
  {
    seq(|t|, i requires 0 <= i < |t| => if t[i] >= DIGIT_0 then t[i] - DIGIT_0 else 0)
  }

  function LeadingZeros(ds: seq<nat>): (z: nat)
    ensures z <= |ds|
  {
    if ds == [] || ds[0] != 0 then 0 else 1 + LeadingZeros(ds[1..])
  }

  function StripTrailing(ds: seq<nat>): seq<nat> {
    if ds == [] || ds[|ds| - 1] != 0 then ds else StripTrailing(ds[..|ds| - 1])
  }

  function ReadExponent(t: Text): int {
    if t == [] then 0
    else
      var n: int := Radix.Value(DigitsOf(t[1..]), 10);
      if t[0] == MINUS then -n else n
  }

  function ReadMagnitude(negative: bool, t: Text): Number {
    var e, dot := IndexOf(t, LETTER_E), IndexOf(t, DOT);
    if e < |t| then
      var m := t[..e];
      Finite(negative, DigitsOf(if |m| > 1 then m[..1] + m[2..] else m), ReadExponent(t[e + 1..]) + 1)
    else if dot < |t| then
      if t[0] == DIGIT_0 then
        var fraction := DigitsOf(t[dot + 1..]);
        var zeros: int := LeadingZeros(fraction);
        Finite(negative, fraction[zeros..], -zeros)
      else Finite(negative, DigitsOf(t[..dot] + t[dot + 1..]), dot)
    else if t == [DIGIT_0] then Zero(negative)
    else Finite(negative, StripTrailing(DigitsOf(t)), |t|)
  }

  function ReadFinite(t: Text): Number {
    if t != [] && t[0] == MINUS then ReadMagnitude(true, t[1..]) else ReadMagnitude(false, t)
  }

  lemma IndexIs(t: Text, c: Unit, i: nat)
    requires i <= |t| && (i < |t| ==> t[i] == c)
    requires forall j :: 0 <= j < i ==> t[j] != c
    ensures IndexOf(t, c) == i
  {}

  lemma DigitsRoundTrip(ds: seq<nat>)
    requires DecimalDigits(ds)
    ensures DigitsOf(DigitText(ds)) == ds
  {}

  lemma {:induction false} LeadingZerosOf(k: nat, ds: seq<nat>)
    requires ds != [] && ds[0] != 0
    ensures LeadingZeros(Radix.Zeros(k) + ds) == k
  {
    if k == 0 {
      assert Radix.Zeros(0) + ds == ds;
    } else {
      assert (Radix.Zeros(k) + ds)[1..] == Radix.Zeros(k - 1) + ds;
      LeadingZerosOf(k - 1, ds);
    }
  }

  lemma {:induction false} StripTrailingOf(k: nat, ds: seq<nat>)
    requires ds != [] && ds[|ds| - 1] != 0
    ensures StripTrailing(ds + Radix.Zeros(k)) == ds
  {
    if k == 0 {
      assert ds + Radix.Zeros(0) == ds;
    } else {
      var all := ds + Radix.Zeros(k);
      assert all[..|all| - 1] == ds + Radix.Zeros(k - 1);
      StripTrailingOf(k - 1, ds);
    }
  }

  lemma ReadWhole(negative: bool, ds: seq<nat>, n: int)
    requires Shortest(ds) && |ds| <= n
    ensures ReadMagnitude(negative, WholeText(ds, n)) == Finite(negative, ds, n)
  {
    hide WholeText, StripTrailing;
    var t := WholeText(ds, n);
    IndexIs(t, LETTER_E, n);
    IndexIs(t, DOT, n);
    assert DigitsOf(t) == ds + Radix.Zeros(n - |ds|);
    StripTrailingOf(n - |ds|, ds);
    assert t[0] != DIGIT_0;
  }

  lemma ReadPoint(negative: bool, ds: seq<nat>, n: int)
    requires Shortest(ds) && 0 < n < |ds|
    ensures ReadMagnitude(negative, PointText(ds, n)) == Finite(negative, ds, n)
  {
    hide PointText, StripTrailing;
    var t := PointText(ds, n);
    PointUnits(ds, n);
    IndexIs(t, LETTER_E, |t|);
    IndexIs(t, DOT, n);
    assert DigitsOf(t[..n] + t[n + 1..]) == ds;
    assert t[0] != DIGIT_0;
  }

  lemma PointUnits(ds: seq<nat>, n: int)
    requires Shortest(ds) && 0 < n < |ds|
    ensures AllNumberUnits(PointText(ds, n))
    ensures forall i :: 0 <= i < |PointText(ds, n)| ==> PointText(ds, n)[i] != LETTER_E
  {
    hide PointText;
    var t := PointText(ds, n);
    forall i | 0 <= i < |t| ensures IsNumberUnit(t[i]) && t[i] != LETTER_E {
      if i > n {
        assert t[(i - 1) + 1] == DIGIT_0 + ds[i - 1];
      }
    }
  }

  lemma ReadSmall(negative: bool, ds: seq<nat>, zeros: int)
    requires Shortest(ds) && zeros >= 0
    ensures ReadMagnitude(negative, SmallText(ds, zeros)) == Finite(negative, ds, -zeros)
  {
    hide SmallText, StripTrailing, LeadingZeros;
    var t := SmallText(ds, zeros);
    SmallUnits(ds, zeros);
    IndexIs(t, LETTER_E, |t|);
    IndexIs(t, DOT, 1);
    var all := Radix.Zeros(zeros) + ds;
    assert DigitsOf(t[2..]) == all;
    LeadingZerosOf(zeros, ds);
    assert all[zeros..] == ds;
  }

  lemma SmallUnits(ds: seq<nat>, zeros: int)
    requires Shortest(ds) && zeros >= 0
    ensures AllNumberUnits(SmallText(ds, zeros))
    ensures forall i :: 0 <= i < |SmallText(ds, zeros)| ==> SmallText(ds, zeros)[i] != LETTER_E
  {
    hide SmallText;
  }

  lemma MantissaUnits(ds: seq<nat>)
    requires Shortest(ds)
    ensures AllNumberUnits(Mantissa(ds)) && Mantissa(ds) != [] && Mantissa(ds)[0] == DIGIT_0 + ds[0]
    ensures IndexOf(Mantissa(ds), LETTER_E) == |Mantissa(ds)|
  {
    if |ds| > 1 {
      PointUnits(ds, 1);
      hide PointText;
      IndexIs(Mantissa(ds), LETTER_E, |Mantissa(ds)|);
    } else {
      IndexIs(Mantissa(ds), LETTER_E, 1);
    }
  }

  lemma ExponentUnits(n: int)
    ensures AllNumberUnits(ExponentText(n)) && ExponentText(n) != []
  {}

  lemma ReadMantissa(ds: seq<nat>)
    requires Shortest(ds)
    ensures var m := Mantissa(ds); DigitsOf(if |m| > 1 then m[..1] + m[2..] else m) == ds
  {
    hide PointText;
    var m := Mantissa(ds);
    if |ds| > 1 {
      assert DigitsOf(m[..1] + m[2..]) == ds;
    }
  }

  lemma ReadExponentBack(n: int)
    ensures ReadExponent(ExponentText(n)) == n - 1
  {
    var exponent := Radix.Digits(Abs(n - 1), 10);
    assert ExponentText(n)[1..] == DigitText(exponent);
    DigitsRoundTrip(exponent);
    Radix.ValueOfDigits(Abs(n - 1), 10);
  }

  lemma ReadScientific(negative: bool, ds: seq<nat>, n: int)
    requires Shortest(ds)
    ensures ReadMagnitude(negative, ScientificText(ds, n)) == Finite(negative, ds, n)
  {
    hide Mantissa, ExponentText, ReadExponent, DigitsOf, StripTrailing, Shortest;
    var t, m := ScientificText(ds, n), Mantissa(ds);
    MantissaUnits(ds);
    ExponentUnits(n);
    ReadMantissa(ds);
    ReadExponentBack(n);
    IndexIs(t, LETTER_E, |m|);
    assert t[..|m|] == m;
    assert t[|m| + 1..] == ExponentText(n);
  }

  lemma ReadBack(negative: bool, ds: seq<nat>, n: int)
    requires Shortest(ds)
    ensures ReadMagnitude(negative, Magnitude(ds, n)) == Finite(negative, ds, n)
  {
    hide ReadMagnitude, WholeText, PointText, SmallText, ScientificText, Shortest;
    if |ds| <= n <= 21 {
      ReadWhole(negative, ds, n);
    } else if 0 < n <= 21 {
      ReadPoint(negative, ds, n);
    } else if -6 < n <= 0 {
      ReadSmall(negative, ds, -n);
    } else {
      ReadScientific(negative, ds, n);
    }
  }

  lemma MagnitudeUnits(ds: seq<nat>, n: int)
    requires Shortest(ds)
    ensures AllNumberUnits(Magnitude(ds, n)) && Magnitude(ds, n) != []
    ensures DIGIT_0 <= Magnitude(ds, n)[0] <= DIGIT_0 + 9
  {
    hide PointText, SmallText, ScientificText, WholeText;
    if 0 < n < |ds| && n <= 21 {
      PointUnits(ds, n);
    } else if -6 < n <= 0 {
      SmallUnits(ds, -n);
    } else if !(|ds| <= n <= 21) {
      ScientificUnits(ds, n);
    }
  }

  lemma ScientificUnits(ds: seq<nat>, n: int)
    requires Shortest(ds)
    ensures AllNumberUnits(ScientificText(ds, n)) && ScientificText(ds, n) != []
    ensures ScientificText(ds, n)[0] == DIGIT_0 + ds[0]
  {
    hide Mantissa, ExponentText;
    MantissaUnits(ds);
    ExponentUnits(n);
    var m, e := Mantissa(ds), ExponentText(n);
    forall i | 0 <= i < |m + [LETTER_E] + e| ensures IsNumberUnit((m + [LETTER_E] + e)[i]) {
      if i > |m| {
        assert (m + [LETTER_E] + e)[i] == e[i - |m| - 1];
      }
    }
  }

  /** The number whose text this is: a zero loses its sign, nothing else is lost. */
  function Unsigned(x: Number): Number {
    if x.Zero? then Zero(false) else x
  }

  lemma FiniteTextUnits(x: Number)
    requires ValidNumber(x) && !x.NonFinite?
    ensures AllNumberUnits(FiniteText(x)) && FiniteText(x) != []
    ensures FiniteText(x)[0] == MINUS || DIGIT_0 <= FiniteText(x)[0] <= DIGIT_0 + 9
  {
    hide Magnitude;
    if x.Finite? {
      MagnitudeUnits(x.digits, x.point);
    }
  }

  lemma FiniteRoundTrip(x: Number)
    requires ValidNumber(x) && !x.NonFinite?
    ensures ReadFinite(FiniteText(x)) == Unsigned(x)
  {
    hide Magnitude, ReadMagnitude;
    match x
    case Zero(_) =>
      ZeroReads();
    case Finite(negative, ds, n) =>
      ReadBack(negative, ds, n);
      MagnitudeUnits(ds, n);
      assert negative ==> FiniteText(x)[1..] == Magnitude(ds, n);
  }

  lemma ZeroReads()
    ensures ReadMagnitude(false, [DIGIT_0]) == Zero(false)
  {
    IndexIs([DIGIT_0], LETTER_E, 1);
    IndexIs([DIGIT_0], DOT, 1);
  }
}
