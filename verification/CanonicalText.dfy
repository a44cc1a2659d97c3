// src/domain/auditReceipts.ts: the canonical text itself, unit by unit, for every kind of value.
module CanonicalText {
  import opened Hashes
  import opened JsonNumber
  import opened JsonString
  import opened TextOrder
  import opened Canonical
  import Radix

  /** ASCII characters as code units. */
  function Ascii(s: string): (t: Text)
    ensures |t| == |s| && forall i :: 0 <= i < |s| ==> t[i] == s[i] as int % 0x80
  {
    seq(|s|, i requires 0 <= i < |s| => s[i] as int % 0x80)
  }

  /** An object is written with every key once, in ascending order of code units, each with its own value. */
  lemma ObjectText(ms: seq<Member>) returns (keys: seq<Text>, texts: seq<Text>)
    requires WellFormed(Obj(ms))
    ensures |keys| == |texts| == |ms| && (forall k :: k in keys <==> exists m :: m in ms && m.key == k)
    ensures forall i, j :: 0 <= i < j < |keys| ==> LexBefore(keys[i], keys[j])
    ensures forall i, m :: 0 <= i < |keys| && m in ms && m.key == keys[i] ==>
              WellFormed(m.value) && texts[i] == Quoted(m.key) + Ascii(":") + Canonicalize(m.value)
    ensures Canonicalize(Obj(ms)) == Ascii("{") + Join(texts) + Ascii("}")
  {
    hide Quoted, Join, SortKeys, Position, LexBefore;
    keys := SortKeys(KeysOf(ms));
    var ks := keys;
    assert forall i :: 0 <= i < |ks| ==> ks[i] in ks;
    texts := seq(|ks|, i requires 0 <= i < |ks| => MemberText(ks[i], Canonicalize(ms[Position(ms, ks[i])].value)));
    Punctuation();
    KeysAreMembers(ms);
    forall i, j | 0 <= i < j < |keys| ensures LexBefore(keys[i], keys[j]) {
      SortedSplit(KeysOf(ms), i, j);
    }
    forall i, m | 0 <= i < |keys| && m in ms && m.key == keys[i]
      ensures WellFormed(m.value) && texts[i] == Quoted(m.key) + Ascii(":") + Canonicalize(m.value)
    {
      var j :| 0 <= j < |ms| && ms[j] == m;
      KeyAt(ms, j);
    }
  }

  lemma SortedSplit(ks: seq<Text>, i: nat, j: nat)
    requires DistinctTexts(ks) && i < j < |ks|
    ensures LexBefore(SortKeys(ks)[i], SortKeys(ks)[j])
  {
    var k := SortKeysAscending(ks, i, j);
    assert SplitsAt(SortKeys(ks)[i], SortKeys(ks)[j], k);
  }

  lemma KeysAreMembers(ms: seq<Member>)
    ensures forall k :: k in SortKeys(KeysOf(ms)) <==> exists m :: m in ms && m.key == k
  {
    forall k ensures k in KeysOf(ms) <==> exists m :: m in ms && m.key == k {
      if k in KeysOf(ms) {
        var i :| 0 <= i < |ms| && KeysOf(ms)[i] == k;
        assert ms[i] in ms;
      }
      if m :| m in ms && m.key == k {
        var i :| 0 <= i < |ms| && ms[i] == m;
        assert KeysOf(ms)[i] == k;
      }
    }
  }

  lemma Punctuation()
    ensures Ascii(":") == [COLON] && Ascii(",") == [COMMA]
    ensures Ascii("{") == [OPEN_OBJECT] && Ascii("}") == [CLOSE_OBJECT]
    ensures Ascii("[") == [OPEN_ARRAY] && Ascii("]") == [CLOSE_ARRAY]
    ensures Ascii("null") == NULL_WORD && Ascii("true") == TRUE_WORD && Ascii("false") == FALSE_WORD
    ensures Ascii("\"") == [QUOTE]
  {}

  /** An array is written in brackets, item by item. */
  lemma ArrayText(items: seq<Json>, texts: seq<Text>)
    requires WellFormed(Arr(items)) && |texts| == |items|
    requires forall i :: 0 <= i < |items| ==> texts[i] == Canonicalize(items[i])
    ensures Canonicalize(Arr(items)) == Ascii("[") + Join(texts) + Ascii("]")
  {
    Punctuation();
    hide Join;
    assert texts == seq(|items|, i requires 0 <= i < |items| => Canonicalize(items[i]));
  }

  /** Items are separated by single commas. */
  lemma JoinText(first: Text, rest: seq<Text>)
    ensures Join([]) == [] && Join([first]) == first
    ensures rest != [] ==> Join([first] + rest) == first + Ascii(",") + Join(rest)
  {
    Punctuation();
    assert ([first] + rest)[1..] == rest;
  }

  lemma WordTexts()
    ensures Canonicalize(Null) == Ascii("null") && Canonicalize(Undefined) == Ascii("null")
    ensures Canonicalize(Num(NonFinite)) == Ascii("null")
    ensures Canonicalize(Bool(true)) == Ascii("true") && Canonicalize(Bool(false)) == Ascii("false")
  {
    Punctuation();
  }

  lemma LetterQuoted(c: Unit)
    requires 0x20 <= c <= 0x7E && c != 0x22 && c != 0x5C
    ensures Quoted([c]) == Ascii("\"") + [c] + Ascii("\"")
  {
    Punctuation();
    assert [c][1..] == [];
    assert Escape([c]) == EscapeUnit(c) + Escape([]);
  }

  lemma AsciiConcat(s: string, t: string)
    ensures Ascii(s + t) == Ascii(s) + Ascii(t)
  {}

  /** The object with members b: null and a: true, in that order, is written {"a":true,"b":null}. */
  lemma SmallObject()
    ensures var v := Obj([Member(Ascii("b"), Null), Member(Ascii("a"), Bool(true))]);
            WellFormed(v) && Canonicalize(v) == Ascii("{\"a\":true,\"b\":null}")
  {
    var a, b := Ascii("a"), Ascii("b");
    var ms := [Member(b, Null), Member(a, Bool(true))];
    SmallKeys(ms);
    WordTexts();
    QuotedLetters();
    var keys, texts := ObjectText(ms);
    hide Canonicalize, WellFormed, Quoted, Join, Ascii, LexBefore;
    assert keys[0] in keys && keys[1] in keys;
    AFirst(keys);
    assert ms[0] in ms && ms[1] in ms;
    assert texts[0] == Ascii("\"a\"") + Ascii(":") + Ascii("true");
    assert texts[1] == Ascii("\"b\"") + Ascii(":") + Ascii("null");
    SmallPieces();
    assert texts == [texts[0]] + [texts[1]];
    JoinText(texts[0], [texts[1]]);
    JoinText(texts[1], []);
  }

  lemma SmallKeys(ms: seq<Member>)
    requires ms == [Member(Ascii("b"), Null), Member(Ascii("a"), Bool(true))]
    ensures WellFormed(Obj(ms)) && Ascii("a") == [0x61] && Ascii("b") == [0x62]
  {
    assert Ascii("a")[0] == 0x61 && Ascii("b")[0] == 0x62;
    assert KeysOf(ms)[0] != KeysOf(ms)[1];
  }

  lemma QuotedLetters()
    ensures Quoted(Ascii("a")) == Ascii("\"a\"") && Quoted(Ascii("b")) == Ascii("\"b\"")
  {
    LetterQuoted(0x61);
    LetterQuoted(0x62);
    assert Ascii("a") == [0x61] && Ascii("b") == [0x62];
  }

  /** Of the keys a and b, whichever the list starts with is a. */
  lemma AFirst(keys: seq<Text>)
    requires |keys| == 2 && (keys[0] == Ascii("a") || keys[0] == Ascii("b")) && (keys[1] == Ascii("a") || keys[1] == Ascii("b"))
    requires LexBefore(keys[0], keys[1])
    ensures keys[0] == Ascii("a") && keys[1] == Ascii("b")
  {
    assert Ascii("a")[0] == 0x61 && Ascii("b")[0] == 0x62;
  }

  lemma SmallPieces()
    ensures Ascii("\"a\"") + Ascii(":") + Ascii("true") == Ascii("\"a\":true")
    ensures Ascii("\"b\"") + Ascii(":") + Ascii("null") == Ascii("\"b\":null")
    ensures Ascii("{") + (Ascii("\"a\":true") + Ascii(",") + Ascii("\"b\":null")) + Ascii("}") == Ascii("{\"a\":true,\"b\":null}")
  {
    hide Ascii;
    AsciiConcat("\"a\"", ":");
    AsciiConcat("\"a\":", "true");
    AsciiConcat("\"b\"", ":");
    AsciiConcat("\"b\":", "null");
    AsciiConcat("\"a\":true", ",");
    AsciiConcat("\"a\":true,", "\"b\":null");
    AsciiConcat("{", "\"a\":true,\"b\":null");
    AsciiConcat("{\"a\":true,\"b\":null", "}");
  }

  // ---------------------------------------------------------------------
  // Numbers and strings
  // ---------------------------------------------------------------------

  ghost predicate Holds(t: Text, c: Unit) {
    exists i :: 0 <= i < |t| && t[i] == c
  }

  /** Scientific notation is used exactly outside 1e-6 <= x < 1e21, and a point otherwise only where a digit
      follows it. */
  lemma NumberNotation(ds: seq<nat>, n: int)
    requires Shortest(ds)
    ensures Holds(Magnitude(ds, n), 0x65) <==> n > 21 || n <= -6
    ensures -6 < n <= 21 ==> (Holds(Magnitude(ds, n), 0x2E) <==> n < |ds|)
    ensures n <= -6 || n > 21 ==> (Holds(Magnitude(ds, n), 0x2E) <==> |ds| > 1)
  {
    hide WholeText, PointText, SmallText, ScientificText;
    if |ds| <= n <= 21 {
    } else if 0 < n <= 21 {
      PointUnits(ds, n);
      assert PointText(ds, n)[n] == 0x2E;
    } else if -6 < n <= 0 {
      SmallUnits(ds, -n);
      assert SmallText(ds, -n)[1] == 0x2E;
    } else {
      ScientificParts(ds, n);
    }
  }

  lemma ScientificParts(ds: seq<nat>, n: int)
    requires Shortest(ds)
    ensures Holds(ScientificText(ds, n), 0x65)
    ensures Holds(ScientificText(ds, n), 0x2E) <==> |ds| > 1
  {
    hide PointText;
    var m, e := Mantissa(ds), ExponentText(n);
    var t := m + [LETTER_E] + e;
    assert t[|m|] == 0x65;
    forall i | 0 <= i < |e| ensures e[i] != 0x2E {}
    if |ds| > 1 {
      assert t[1] == 0x2E;
    } else {
      forall i | 0 <= i < |t| ensures t[i] != 0x2E {
        if i > |m| {
          assert t[i] == e[i - |m| - 1];
        }
      }
    }
  }

  /** Zeros fill up a whole number; a zero has no sign. */
  lemma WholeNumberText()
    ensures FiniteText(Finite(false, [1, 2], 4)) == Ascii("1200")
    ensures FiniteText(Zero(true)) == Ascii("0")
  {
    hide ScientificText, PointText, SmallText;
    assert WholeText([1, 2], 4) == Ascii("1200");
  }

  lemma PointNumberText()
    ensures FiniteText(Finite(true, [1, 2], 1)) == Ascii("-1.2")
  {
    assert PointText([1, 2], 1) == Ascii("1.2");
    hide ScientificText, WholeText, PointText, SmallText, Ascii;
    AsciiConcat("-", "1.2");
    AsciiMinus();
  }

  lemma AsciiMinus()
    ensures Ascii("-") == [MINUS]
  {}

  lemma SmallNumberText()
    ensures FiniteText(Finite(false, [5], -1)) == Ascii("0.05")
  {
    assert SmallText([5], 1) == Ascii("0.05");
    hide ScientificText, WholeText, PointText, SmallText;
  }

  lemma ExponentTexts()
    ensures ExponentText(22) == Ascii("+21") && ExponentText(-6) == Ascii("-7")
  {
    assert Radix.Digits(2, 10) == [2];
    assert Radix.Digits(21, 10) == [2, 1];
    assert Radix.Digits(7, 10) == [7];
  }

  /** 1e21 and 1.5e-7. */
  lemma ScientificTexts()
    ensures FiniteText(Finite(false, [1], 22)) == Ascii("1e+21")
    ensures FiniteText(Finite(false, [1, 5], -6)) == Ascii("1.5e-7")
  {
    ExponentTexts();
    assert Mantissa([1]) == Ascii("1");
    assert Mantissa([1, 5]) == Ascii("1.5");
    hide Mantissa, ExponentText, Ascii;
    AsciiE();
    AsciiConcat("1", "e");
    AsciiConcat("1e", "+21");
    AsciiConcat("1.5", "e");
    AsciiConcat("1.5e", "-7");
  }

  lemma AsciiE()
    ensures Ascii("e") == [LETTER_E]
  {}

  lemma ShortEscapes()
    ensures EscapeUnit(0x08) == Ascii("\\b") && EscapeUnit(0x09) == Ascii("\\t") && EscapeUnit(0x0A) == Ascii("\\n")
    ensures EscapeUnit(0x0C) == Ascii("\\f") && EscapeUnit(0x0D) == Ascii("\\r")
    ensures EscapeUnit(0x22) == Ascii("\\\"") && EscapeUnit(0x5C) == Ascii("\\\\")
  {}

  /** Other control characters and lone surrogates are written in lower-case hexadecimal. */
  lemma HexEscapes()
    ensures EscapeUnit(0x1F) == Ascii("\\u") + Ascii("001f") && EscapeUnit(0xD8FF) == Ascii("\\u") + Ascii("d8ff")
  {
    assert Hex4(0x1F) == Ascii("001f");
    assert Hex4(0xD8FF) == Ascii("d8ff");
    assert Ascii("\\u") == [BACKSLASH, LETTER_U];
  }

  /** Everything else is written as it is, a surrogate pair included. */
  lemma PlainUnits(c: Unit, high: Unit, low: Unit)
    ensures c >= 0x20 && c != 0x22 && c != 0x5C && !(0xD800 <= c <= 0xDFFF) ==> EscapeUnit(c) == [c]
    ensures 0xD800 <= high <= 0xDBFF && 0xDC00 <= low <= 0xDFFF ==> Escape([high, low]) == [high, low]
  {
    assert [high, low][2..] == [];
  }
}
