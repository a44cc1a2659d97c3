// src/connectors/dmaLoader.ts: splitting one CSV line with quoted fields.
module CsvLine {
  import opened Sequences

  datatype State = State(result: seq<string>, current: string, inQuotes: bool)

  const START: State := State([], "", false)

  function StepChar(s: State, c: char): State {
    if c == '"' then s.(inQuotes := !s.inQuotes)
    else if c == ',' && !s.inQuotes then State(s.result + [s.current], "", false)
    else s.(current := s.current + [c])
  }

  function Scan(s: State, line: string): State {
    if line == "" then s else StepChar(Scan(s, line[..|line| - 1]), line[|line| - 1])
  }

  function Fields(s: State): seq<string> {
    s.result + [s.current]
  }

  method ParseCSVLine(line: string) returns (result: seq<string>)
    ensures result == Fields(Scan(START, line))
  {
    result := [];
    var current := "";
    var inQuotes := false;
    for i := 0 to |line|
      invariant State(result, current, inQuotes) == Scan(START, line[..i])
    {
      var c := line[i];
      if c == '"' {
        inQuotes := !inQuotes;
      } else if c == ',' && !inQuotes {
        result := result + [current];
        current := "";
      } else {
        current := current + [c];
      }
      assert line[..i + 1][..i] == line[..i];
    }
    assert line[..|line|] == line;
    result := result + [current];
  }

  lemma {:induction false} ScanConcat(s: State, a: string, b: string)
    ensures Scan(s, a + b) == Scan(Scan(s, a), b)
  {
    if b == "" {
      assert a + b == a;
    } else {
      hide StepChar;
      var n := |b| - 1;
      assert (a + b)[..|a| + n] == a + b[..n];
      ScanConcat(s, a, b[..n]);
    }
  }

  lemma ScanOne(s: State, c: char)
    ensures Scan(s, [c]) == StepChar(s, c)
  {
    assert [c][..0] == "";
  }

  // ---------------------------------------------------------------------
  // Every line
  // ---------------------------------------------------------------------

  /** A text without its quote characters. */
  function StripQuotes(f: string): string {
    Filter(f, (c: char) => c != '"')
  }

  function JoinWithCommas(fs: seq<string>): string {
    if fs == [] then ""
    else if |fs| == 1 then fs[0]
    else JoinWithCommas(fs[..|fs| - 1]) + "," + fs[|fs| - 1]
  }

  lemma JoinLast(fs: seq<string>, f: string)
    ensures JoinWithCommas(fs + [f]) == if fs == [] then f else JoinWithCommas(fs) + "," + f
  {
    assert (fs + [f])[..|fs|] == fs;
  }

  /** For every line whatever: joining the fields with commas gives back the line without its quotes.
      No other character is lost, added or moved. */
  lemma {:induction false} NothingLost(line: string)
    ensures JoinWithCommas(Fields(Scan(START, line))) == StripQuotes(line)
  {
    if line != "" {
      var init, c := line[..|line| - 1], line[|line| - 1];
      var s := Scan(START, init);
      NothingLost(init);
      assert line == init + [c];
      FilterAppend(init, c, (x: char) => x != '"');
      JoinLast(s.result, s.current);
      JoinLast(s.result, s.current + [c]);
      JoinLast(s.result + [s.current], "");
      hide Filter, JoinWithCommas, Scan;
      Extend(JoinWithCommas(s.result) + ",", s.current, [c]);
      assert JoinWithCommas(s.result + [s.current]) + "," + "" == JoinWithCommas(s.result + [s.current]) + ",";
    }
  }

  lemma Extend(a: string, b: string, c: string)
    ensures a + (b + c) == (a + b) + c
  {}

  // ---------------------------------------------------------------------
  // Encoded rows
  // ---------------------------------------------------------------------

  /** Every quote doubled. */
  function Doubled(f: string): string {
    if f == "" then ""
    else Doubled(f[..|f| - 1]) + if f[|f| - 1] == '"' then "\"\"" else [f[|f| - 1]]
  }

  function Enclosed(f: string): string {
    "\"" + Doubled(f) + "\""
  }

  predicate Plain(f: string) {
    ',' !in f && '"' !in f
  }

  /** The encodings section 2 of RFC 4180 allows for a field: enclosed with quotes doubled, or as it is
      when it has neither comma nor quote. */
  ghost predicate Encodes(text: string, f: string) {
    text == Enclosed(f) || (Plain(f) && text == f)
  }

  ghost predicate EncodesAll(texts: seq<string>, fields: seq<string>) {
    |texts| == |fields| && forall i :: 0 <= i < |texts| ==> Encodes(texts[i], fields[i])
  }

  function StripAll(fields: seq<string>): (r: seq<string>)
    ensures |r| == |fields|
    ensures forall i :: 0 <= i < |fields| ==> r[i] == StripQuotes(fields[i])
  {
    seq(|fields|, i requires 0 <= i < |fields| => StripQuotes(fields[i]))
  }

  lemma {:induction false} ScanDoubled(s: State, f: string)
    requires s.inQuotes
    ensures Scan(s, Doubled(f)) == s.(current := s.current + StripQuotes(f))
  {
    if f == "" {
      assert s.current + "" == s.current;
    } else {
      var init, c := f[..|f| - 1], f[|f| - 1];
      ScanDoubled(s, init);
      assert f == init + [c];
      FilterAppend(init, c, (x: char) => x != '"');
      var mid := Scan(s, Doubled(init));
      hide Filter, Scan;
      if c == '"' {
        ScanConcat(s, Doubled(init), "\"\"");
        assert "\"\"" == ['"'] + ['"'];
        ScanConcat(mid, ['"'], ['"']);
        ScanOne(mid, '"');
        ScanOne(StepChar(mid, '"'), '"');
      } else {
        ScanConcat(s, Doubled(init), [c]);
        ScanOne(mid, c);
        Extend(s.current, StripQuotes(init), [c]);
      }
    }
  }

  lemma {:induction false} ScanPlain(s: State, f: string)
    requires Plain(f)
    ensures Scan(s, f) == s.(current := s.current + f) && StripQuotes(f) == f
  {
    if f == "" {
      assert s.current + "" == s.current;
    } else {
      var init, c := f[..|f| - 1], f[|f| - 1];
      assert f == init + [c];
      ScanPlain(s, init);
      FilterAppend(init, c, (x: char) => x != '"');
      Extend(s.current, init, [c]);
    }
  }

  lemma ScanField(s: State, text: string, f: string)
    requires !s.inQuotes && Encodes(text, f)
    ensures Scan(s, text) == s.(current := s.current + StripQuotes(f))
  {
    if text == Enclosed(f) {
      hide Scan, Doubled, Filter;
      var within := s.(inQuotes := true);
      ScanConcat(s, "\"" + Doubled(f), "\"");
      ScanConcat(s, "\"", Doubled(f));
      ScanOne(s, '"');
      ScanDoubled(within, f);
      ScanOne(Scan(within, Doubled(f)), '"');
    } else {
      ScanPlain(s, f);
    }
  }

  lemma {:induction false} ScanRow(texts: seq<string>, fields: seq<string>)
    requires EncodesAll(texts, fields) && texts != []
    ensures Scan(START, JoinWithCommas(texts)) == State(StripAll(fields[..|fields| - 1]), StripQuotes(fields[|fields| - 1]), false)
  {
    hide Encodes, StripQuotes, Scan;
    var n := |texts| - 1;
    if n == 0 {
      ScanField(START, texts[0], fields[0]);
      assert "" + StripQuotes(fields[0]) == StripQuotes(fields[0]);
      assert StripAll(fields[..0]) == [];
    } else {
      ScanRow(texts[..n], fields[..n]);
      assert fields[..n][..n - 1] == fields[..n - 1];
      var before := Scan(START, JoinWithCommas(texts[..n]));
      ScanConcat(START, JoinWithCommas(texts[..n]) + ",", texts[n]);
      ScanConcat(START, JoinWithCommas(texts[..n]), ",");
      ScanOne(before, ',');
      var after := StepChar(before, ',');
      assert after == State(StripAll(fields[..n]), "", false) by {
        assert StripAll(fields[..n - 1]) + [StripQuotes(fields[n - 1])] == StripAll(fields[..n]);
      }
      ScanField(after, texts[n], fields[n]);
      assert "" + StripQuotes(fields[n]) == StripQuotes(fields[n]);
    }
  }

  /** Reading any RFC 4180 encoding of a row gives every field without its quote characters. */
  lemma RowReads(texts: seq<string>, fields: seq<string>)
    requires EncodesAll(texts, fields) && texts != []
    ensures Fields(Scan(START, JoinWithCommas(texts))) == StripAll(fields)
  {
    hide Encodes, StripQuotes, Scan, JoinWithCommas;
    ScanRow(texts, fields);
    var n := |fields| - 1;
    assert StripAll(fields[..n]) + [StripQuotes(fields[n])] == StripAll(fields);
  }

  lemma {:induction false} StripSame(f: string)
    ensures StripQuotes(f) == f <==> '"' !in f
  {
    if f != "" {
      var init, c := f[..|f| - 1], f[|f| - 1];
      assert f == init + [c];
      StripSame(init);
      FilterAppend(init, c, (x: char) => x != '"');
    }
  }

  ghost predicate QuoteFree(fields: seq<string>) {
    forall i :: 0 <= i < |fields| ==> '"' !in fields[i]
  }

  /** One field holding a quote: its encoding, with the quote doubled, is read back without it. */
  lemma QuoteIsLost()
    ensures EncodesAll(["\"a\"\"b\""], ["a\"b"])
    ensures Fields(Scan(START, "\"a\"\"b\"")) == ["ab"] != ["a\"b"]
  {
    var f, text := "a\"b", "\"a\"\"b\"";
    DoubledQuote();
    StrippedQuote();
    hide Doubled, StripQuotes, Scan;
    assert Encodes(text, f);
    RowReads([text], [f]);
    assert StripAll([f]) == ["ab"];
    assert JoinWithCommas([text]) == text;
    assert |f| != |"ab"|;
  }

  lemma DoubledQuote()
    ensures Doubled("a\"b") == "a\"\"b"
  {
    var f := "a\"b";
    assert f[..2] == "a\"" && "a\""[..1] == "a" && "a"[..0] == "";
    assert Doubled("a") == "a";
    assert Doubled("a\"") == "a\"\"";
  }

  lemma StrippedQuote()
    ensures StripQuotes("a\"b") == "ab"
  {
    FilterAppend("", 'a', (c: char) => c != '"');
    FilterAppend("a", '"', (c: char) => c != '"');
    FilterAppend("a\"", 'b', (c: char) => c != '"');
    assert "" + ['a'] == "a" && "a" + ['"'] == "a\"" && "a\"" + ['b'] == "a\"b";
  }

  /** The round trip holds for a row, in any RFC 4180 encoding of it, if and only if no field contains
      a quote: doubled quotes are dropped rather than read as one. */
  lemma RoundTripIff(texts: seq<string>, fields: seq<string>)
    requires EncodesAll(texts, fields) && texts != []
    ensures Fields(Scan(START, JoinWithCommas(texts))) == fields <==> QuoteFree(fields)
  {
    RowReads(texts, fields);
    hide StripQuotes, Encodes, Scan, JoinWithCommas;
    var r := StripAll(fields);
    if r == fields {
      forall i | 0 <= i < |fields| ensures '"' !in fields[i] {
        StripSame(fields[i]);
        assert r[i] == StripQuotes(fields[i]);
      }
    }
    if QuoteFree(fields) {
      forall i | 0 <= i < |fields| ensures r[i] == fields[i] {
        StripSame(fields[i]);
      }
    }
  }
}
