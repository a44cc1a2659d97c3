// The text of a string: QuoteJSONString of ECMA-262 (section 25.5.2.3), with lone surrogates escaped,
// and a reader for it (section 7 of RFC 8259).
module JsonString {
  import opened Hashes

  /** What a reader returns: a value and the text after it. */
  datatype Parsed<T> = Bad | Good(value: T, rest: Text)

  const QUOTE: Unit := 0x22
  const BACKSLASH: Unit := 0x5C
  const LETTER_U: Unit := 0x75

  predicate IsHigh(c: Unit) {
    0xD800 <= c <= 0xDBFF
  }

  predicate IsLow(c: Unit) {
    0xDC00 <= c <= 0xDFFF
  }

  /** The letter of a two-unit escape, 0 if there is none. */
  function ShortEscape(c: Unit): Unit {
    if c == 0x08 then 0x62
    else if c == 0x09 then 0x74
    else if c == 0x0A then 0x6E
    else if c == 0x0C then 0x66
    else if c == 0x0D then 0x72
    else if c == QUOTE then QUOTE
    else if c == BACKSLASH then BACKSLASH
    else 0
  }

  function ShortUnescape(c: Unit): Unit {
    if c == 0x62 then 0x08
    else if c == 0x74 then 0x09
    else if c == 0x6E then 0x0A
    else if c == 0x66 then 0x0C
    else if c == 0x72 then 0x0D
    else c
  }

  /** A digit value below 36 as a unit: 0-9 then a-z. */
  function DigitUnit(d: nat): Unit
    requires d < 36
  {
    if d < 10 then 0x30 + d else 0x61 + (d - 10)
  }

  function UnitDigit(c: Unit): nat {
    if 0x30 <= c <= 0x39 then c - 0x30 else if 0x61 <= c <= 0x7A then c - 0x61 + 10 else 0
  }

  function Hex4(c: Unit): (t: Text)
    ensures |t| == 4
  {
    [DigitUnit(c / 0x1000), DigitUnit(c / 0x100 % 16), DigitUnit(c / 16 % 16), DigitUnit(c % 16)]
  }

  function EscapeUnit(c: Unit): Text {
    if ShortEscape(c) != 0 then [BACKSLASH, ShortEscape(c)]
    else if c < 0x20 || IsHigh(c) || IsLow(c) then [BACKSLASH, LETTER_U] + Hex4(c)
    else [c]
  }

  function Escape(s: Text): Text {
    if s == [] then []
    else if |s| >= 2 && IsHigh(s[0]) && IsLow(s[1]) then [s[0]] + ([s[1]] + Escape(s[2..]))
    else EscapeUnit(s[0]) + Escape(s[1..])
  }

  function Quoted(s: Text): Text {
    [QUOTE] + Escape(s) + [QUOTE]
  }

  function Prepend(c: Unit, p: Parsed<Text>): (r: Parsed<Text>) {
    if p.Good? then Good([c] + p.value, p.rest) else Bad
  }

  /** Reads up to the closing quote. */
  function ReadString(t: Text): (r: Parsed<Text>)
    ensures r.Good? ==> |r.rest| < |t|
  {
    if t == [] then Bad
    else if t[0] == QUOTE then Good([], t[1..])
    else if t[0] != BACKSLASH then Prepend(t[0], ReadString(t[1..]))
    else if |t| < 2 then Bad
    else if t[1] != LETTER_U then Prepend(ShortUnescape(t[1]), ReadString(t[2..]))
    else if |t| < 6 then Bad
    else
      var code := UnitDigit(t[2]) * 0x1000 + UnitDigit(t[3]) * 0x100 + UnitDigit(t[4]) * 16 + UnitDigit(t[5]);
      if code < 0x1_0000 then Prepend(code, ReadString(t[6..])) else Bad
  }

  lemma Hex4RoundTrip(c: Unit)
    ensures var h := Hex4(c);
            UnitDigit(h[0]) * 0x1000 + UnitDigit(h[1]) * 0x100 + UnitDigit(h[2]) * 16 + UnitDigit(h[3]) == c
  {
    assert c == c / 16 * 16 + c % 16;
    assert c / 16 == c / 0x100 * 16 + c / 16 % 16;
    assert c / 0x100 == c / 0x1000 * 16 + c / 0x100 % 16;
  }

  lemma ShortRoundTrip(c: Unit)
    ensures ShortEscape(c) != 0 ==> ShortUnescape(ShortEscape(c)) == c && ShortEscape(c) != LETTER_U
    ensures ShortEscape(c) == 0 ==> c != QUOTE && c != BACKSLASH
  {}

  lemma ReadUnit(c: Unit, rest: Text)
    ensures ReadString(EscapeUnit(c) + rest) == Prepend(c, ReadString(rest))
  {
    var t := EscapeUnit(c) + rest;
    ShortRoundTrip(c);
    hide ShortUnescape, ShortEscape;
    if ShortEscape(c) != 0 {
      assert t[2..] == rest;
    } else if c < 0x20 || IsHigh(c) || IsLow(c) {
      Hex4RoundTrip(c);
      assert t[2..6] == Hex4(c);
      assert t[2] == Hex4(c)[0] && t[3] == Hex4(c)[1] && t[4] == Hex4(c)[2] && t[5] == Hex4(c)[3];
      assert t[6..] == rest;
    } else {
      assert t[1..] == rest;
    }
  }

  lemma ReadPlain(c: Unit, rest: Text)
    requires c != QUOTE && c != BACKSLASH
    ensures ReadString([c] + rest) == Prepend(c, ReadString(rest))
  {
    assert ([c] + rest)[1..] == rest;
  }

  lemma EscapeFirst(s: Text, r: Text)
    requires s != [] && !(|s| >= 2 && IsHigh(s[0]) && IsLow(s[1]))
    ensures Escape(s) + [QUOTE] + r == EscapeUnit(s[0]) + (Escape(s[1..]) + [QUOTE] + r)
  {
    hide EscapeUnit;
  }

  lemma EscapePair(s: Text, r: Text)
    requires |s| >= 2 && IsHigh(s[0]) && IsLow(s[1])
    ensures Escape(s) + [QUOTE] + r == [s[0]] + ([s[1]] + (Escape(s[2..]) + [QUOTE] + r))
  {
    hide IsHigh, IsLow, EscapeUnit;
    var e, q := Escape(s[2..]), [QUOTE];
    Regroup([s[0]], [s[1]] + e, q, r);
    Regroup([s[1]], e, q, r);
  }

  lemma Regroup(a: Text, b: Text, c: Text, d: Text)
    ensures a + b + c + d == a + (b + c + d)
  {}

  lemma ReadQuote(r: Text)
    ensures ReadString([QUOTE] + r) == Good([], r)
  {
    assert ([QUOTE] + r)[1..] == r;
  }

  /** A quoted string is read back whole, whatever follows it. */
  lemma {:induction false} StringRoundTrip(s: Text, r: Text)
    ensures ReadString(Escape(s) + [QUOTE] + r) == Good(s, r)
  {
    hide EscapeUnit, ReadString, Escape;
    if s == [] {
      EscapeNothing(r);
      ReadQuote(r);
    } else if |s| >= 2 && IsHigh(s[0]) && IsLow(s[1]) {
      var rest := Escape(s[2..]) + [QUOTE] + r;
      StringRoundTrip(s[2..], r);
      EscapePair(s, r);
      ReadPlain(s[1], rest);
      ReadPlain(s[0], [s[1]] + rest);
      assert s == [s[0]] + ([s[1]] + s[2..]);
    } else {
      StringRoundTrip(s[1..], r);
      EscapeFirst(s, r);
      ReadUnit(s[0], Escape(s[1..]) + [QUOTE] + r);
      assert s == [s[0]] + s[1..];
    }
  }

  lemma EscapeNothing(r: Text)
    ensures Escape([]) + [QUOTE] + r == [QUOTE] + r
  {}
}
