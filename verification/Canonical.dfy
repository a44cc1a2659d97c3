// src/domain/auditReceipts.ts: the canonical text of a JSON-like value, and an independent reader.
module Canonical {
  import opened Hashes
  import opened JsonNumber
  import opened JsonString
  import opened TextOrder

  /** A value as canonicalize receives it.  The members of an object are in insertion order. */
  datatype Json =
    | Undefined
    | Null
    | Bool(truth: bool)
    | Num(number: Number)
    | Str(text: Text)
    | Arr(items: seq<Json>)
    | Obj(members: seq<Member>)

  datatype Member = Member(key: Text, value: Json)

  const NULL_WORD: Text := [0x6E, 0x75, 0x6C, 0x6C]
  const TRUE_WORD: Text := [0x74, 0x72, 0x75, 0x65]
  const FALSE_WORD: Text := [0x66, 0x61, 0x6C, 0x73, 0x65]
  const COMMA: Unit := 0x2C
  const COLON: Unit := 0x3A
  const OPEN_ARRAY: Unit := 0x5B
  const CLOSE_ARRAY: Unit := 0x5D
  const OPEN_OBJECT: Unit := 0x7B
  const CLOSE_OBJECT: Unit := 0x7D

  function KeysOf(ms: seq<Member>): (ks: seq<Text>)
    ensures |ks| == |ms| && forall i :: 0 <= i < |ms| ==> ks[i] == ms[i].key
  {
    seq(|ms|, i requires 0 <= i < |ms| => ms[i].key)
  }

  /** Where value[k] finds its member. */
  function Position(ms: seq<Member>, k: Text): (i: nat)
    requires k in KeysOf(ms)
    ensures i < |ms| && ms[i].key == k
  {
    if ms[0].key == k then 0
    else
      assert KeysOf(ms)[1..] == KeysOf(ms[1..]);
      1 + Position(ms[1..], k)
  }

  /** Object keys are distinct, and numbers are shortest decimals. */
  ghost predicate WellFormed(v: Json) {
    match v
    case Num(x) => ValidNumber(x)
    case Arr(items) => forall i :: 0 <= i < |items| ==> WellFormed(items[i])
    case Obj(ms) => DistinctTexts(KeysOf(ms)) && forall i :: 0 <= i < |ms| ==> WellFormed(ms[i].value)
    case _ => true
  }

  function Join(parts: seq<Text>): Text {
    if parts == [] then []
    else if |parts| == 1 then parts[0]
    else parts[0] + [COMMA] + Join(parts[1..])
  }

  function Canonicalize(v: Json): Text
    requires WellFormed(v)
  {
    match v
    case Undefined => NULL_WORD
    case Null => NULL_WORD
    case Bool(b) => if b then TRUE_WORD else FALSE_WORD
    case Num(x) => if x.NonFinite? then NULL_WORD else FiniteText(x)
    case Str(s) => Quoted(s)
    case Arr(items) => [OPEN_ARRAY] + Join(seq(|items|, i requires 0 <= i < |items| => Canonicalize(items[i]))) + [CLOSE_ARRAY]
    case Obj(ms) =>
      var keys := SortKeys(KeysOf(ms));
      [OPEN_OBJECT] + Join(seq(|keys|, i requires 0 <= i < |keys| =>
        assert keys[i] in keys;
        MemberText(keys[i], Canonicalize(ms[Position(ms, keys[i])].value)))) + [CLOSE_OBJECT]
  }

  function MemberText(key: Text, value: Text): Text {
    Quoted(key) + [COLON] + value
  }

  // ---------------------------------------------------------------------
  // An independent meaning: equality up to the order of object members
  // ---------------------------------------------------------------------

  /** JSON has one value for all of these. */
  predicate Nullish(v: Json) {
    v.Undefined? || v.Null? || (v.Num? && v.number.NonFinite?)
  }

  ghost predicate SameMembers(ms: seq<Member>, ns: seq<Member>) {
    forall k :: k in KeysOf(ms) <==> k in KeysOf(ns)
  }

  ghost predicate SameValue(a: Json, b: Json) {
    match a
    case Bool(p) => b == a
    case Str(s) => b == a
    case Num(x) => if Nullish(a) then Nullish(b) else b.Num? && Unsigned(x) == Unsigned(b.number)
    case Arr(items) => b.Arr? && |items| == |b.items| && forall i :: 0 <= i < |items| ==> SameValue(items[i], b.items[i])
    case Obj(ms) =>
      && b.Obj? && SameMembers(ms, b.members)
      && forall i, j :: 0 <= i < |ms| && 0 <= j < |b.members| && ms[i].key == b.members[j].key ==>
            SameValue(ms[i].value, b.members[j].value)
    case _ => Nullish(b)
  }

  // ---------------------------------------------------------------------
  // Reading canonical text
  // ---------------------------------------------------------------------

  function NumberSpan(t: Text): (n: nat)
    ensures n <= |t|
  {
    if t == [] || !IsNumberUnit(t[0]) then 0 else 1 + NumberSpan(t[1..])
  }

  function ParseValue(t: Text): (r: Parsed<Json>)
    ensures r.Good? ==> |r.rest| < |t|
    decreases |t|, 0
  {
    if t == [] then Bad
    else if t[0] == QUOTE then
      var s := ReadString(t[1..]);
      if s.Good? then Good(Str(s.value), s.rest) else Bad
    else if t[0] == OPEN_ARRAY then
      if |t| >= 2 && t[1] == CLOSE_ARRAY then Good(Arr([]), t[2..])
      else
        var p := ParseItems(t[1..]);
        if p.Good? then Good(Arr(p.value), p.rest) else Bad
    else if t[0] == OPEN_OBJECT then
      if |t| >= 2 && t[1] == CLOSE_OBJECT then Good(Obj([]), t[2..])
      else
        var p := ParseMembers(t[1..]);
        if p.Good? then Good(Obj(p.value), p.rest) else Bad
    else if NULL_WORD <= t then Good(Null, t[4..])
    else if TRUE_WORD <= t then Good(Bool(true), t[4..])
    else if FALSE_WORD <= t then Good(Bool(false), t[5..])
    else
      var n := NumberSpan(t);
      if n == 0 then Bad else Good(Num(ReadFinite(t[..n])), t[n..])
  }

  /** One or more values, up to the closing bracket. */
  function ParseItems(t: Text): (r: Parsed<seq<Json>>)
    ensures r.Good? ==> |r.rest| < |t|
    decreases |t|, 1
  {
    var v := ParseValue(t);
    if v.Bad? || v.rest == [] then Bad
    else if v.rest[0] == CLOSE_ARRAY then Good([v.value], v.rest[1..])
    else if v.rest[0] == COMMA then
      var more := ParseItems(v.rest[1..]);
      if more.Good? then Good([v.value] + more.value, more.rest) else Bad
    else Bad
  }

  function ParseMember(t: Text): (r: Parsed<Member>)
    ensures r.Good? ==> |r.rest| < |t|
    decreases |t|, 1
  {
    if t == [] || t[0] != QUOTE then Bad
    else
      var k := ReadString(t[1..]);
      if k.Bad? || k.rest == [] || k.rest[0] != COLON then Bad
      else
        var v := ParseValue(k.rest[1..]);
        if v.Good? then Good(Member(k.value, v.value), v.rest) else Bad
  }

  /** One or more members, up to the closing brace. */
  function ParseMembers(t: Text): (r: Parsed<seq<Member>>)
    ensures r.Good? ==> |r.rest| < |t|
    decreases |t|, 2
  {
    var m := ParseMember(t);
    if m.Bad? || m.rest == [] then Bad
    else if m.rest[0] == CLOSE_OBJECT then Good([m.value], m.rest[1..])
    else if m.rest[0] == COMMA then
      var more := ParseMembers(m.rest[1..]);
      if more.Good? then Good([m.value] + more.value, more.rest) else Bad
    else Bad
  }

  /** What canonical text says: members sorted by key, nothing undefined, zeros unsigned. */
  function Normal(v: Json): Json {
    match v
    case Undefined => Null
    case Num(x) => if x.NonFinite? then Null else Num(Unsigned(x))
    case Arr(items) => Arr(seq(|items|, i requires 0 <= i < |items| => Normal(items[i])))
    case Obj(ms) =>
      var keys := SortKeys(KeysOf(ms));
      Obj(seq(|keys|, i requires 0 <= i < |keys| =>
        assert keys[i] in keys;
        Member(keys[i], Normal(ms[Position(ms, keys[i])].value))))
    case _ => v
  }

  /** What may follow a value in canonical text. */
  predicate Ends(r: Text) {
    r == [] || r[0] == COMMA || r[0] == CLOSE_ARRAY || r[0] == CLOSE_OBJECT
  }

  /** The text p is read as v, and reading stops right after it. */
  ghost predicate Reads(p: Text, v: Json) {
    forall r :: Ends(r) ==> ParseValue(p + r) == Good(v, r)
  }

  ghost predicate ReadsMember(p: Text, m: Member) {
    forall r :: Ends(r) ==> ParseMember(p + r) == Good(m, r)
  }

  lemma ReadsStart(p: Text, v: Json)
    requires Reads(p, v)
    ensures p != [] && p[0] != CLOSE_ARRAY && p[0] != CLOSE_OBJECT
  {
    assert ParseValue(p + []) == Good(v, []);
    assert p + [] == p;
  }

  lemma {:induction false} ItemsRead(parts: seq<Text>, vs: seq<Json>, r: Text)
    requires |parts| == |vs| > 0 && forall i :: 0 <= i < |vs| ==> Reads(parts[i], vs[i])
    ensures ParseItems(Join(parts) + [CLOSE_ARRAY] + r) == Good(vs, r)
  {
    hide ParseValue;
    assert Reads(parts[0], vs[0]);
    if |parts| == 1 {
      assert Join(parts) + [CLOSE_ARRAY] + r == parts[0] + ([CLOSE_ARRAY] + r);
      assert ParseValue(parts[0] + ([CLOSE_ARRAY] + r)) == Good(vs[0], [CLOSE_ARRAY] + r);
      assert ([CLOSE_ARRAY] + r)[1..] == r;
      assert vs == [vs[0]];
    } else {
      var rest := Join(parts[1..]) + [CLOSE_ARRAY] + r;
      ItemsRead(parts[1..], vs[1..], r);
      JoinMore(parts, CLOSE_ARRAY, r);
      assert ParseValue(parts[0] + ([COMMA] + rest)) == Good(vs[0], [COMMA] + rest);
      assert ([COMMA] + rest)[1..] == rest;
      assert vs == [vs[0]] + vs[1..];
    }
  }

  lemma JoinMore(parts: seq<Text>, close: Unit, r: Text)
    requires |parts| > 1
    ensures Join(parts) + [close] + r == parts[0] + ([COMMA] + (Join(parts[1..]) + [close] + r))
  {
    var more := Join(parts[1..]);
    assert Join(parts) == parts[0] + [COMMA] + more;
    hide Join;
    Reassociate(parts[0], [COMMA], more, [close], r);
  }

  lemma Reassociate(a: Text, b: Text, c: Text, d: Text, e: Text)
    ensures a + b + c + d + e == a + (b + (c + d + e))
  {
    Concat3(a, b, c);
    Concat3(a, b + c, d);
    Concat3(a, b + c + d, e);
    Concat3(b, c, d);
    Concat3(b, c + d, e);
  }

  lemma Concat3(a: Text, b: Text, c: Text)
    ensures a + b + c == a + (b + c)
  {}

  lemma {:induction false} MembersRead(parts: seq<Text>, ms: seq<Member>, r: Text)
    requires |parts| == |ms| > 0 && forall i :: 0 <= i < |ms| ==> ReadsMember(parts[i], ms[i])
    ensures ParseMembers(Join(parts) + [CLOSE_OBJECT] + r) == Good(ms, r)
  {
    hide ParseMember;
    assert ReadsMember(parts[0], ms[0]);
    if |parts| == 1 {
      assert Join(parts) + [CLOSE_OBJECT] + r == parts[0] + ([CLOSE_OBJECT] + r);
      assert ParseMember(parts[0] + ([CLOSE_OBJECT] + r)) == Good(ms[0], [CLOSE_OBJECT] + r);
      assert ([CLOSE_OBJECT] + r)[1..] == r;
      assert ms == [ms[0]];
    } else {
      var rest := Join(parts[1..]) + [CLOSE_OBJECT] + r;
      MembersRead(parts[1..], ms[1..], r);
      JoinMore(parts, CLOSE_OBJECT, r);
      assert ParseMember(parts[0] + ([COMMA] + rest)) == Good(ms[0], [COMMA] + rest);
      assert ([COMMA] + rest)[1..] == rest;
      assert ms == [ms[0]] + ms[1..];
    }
  }

  lemma QuotedThen(key: Text, colon: Text, p: Text, r: Text)
    ensures var t := Quoted(key) + colon + p + r;
            t != [] && t[0] == QUOTE && t[1..] == Escape(key) + [QUOTE] + (colon + (p + r))
  {
    hide Escape;
  }

  lemma MemberReads(key: Text, p: Text, v: Json)
    requires Reads(p, v)
    ensures ReadsMember(MemberText(key, p), Member(key, v))
  {
    hide ParseValue, Escape, ReadString;
    forall r | Ends(r) ensures ParseMember(MemberText(key, p) + r) == Good(Member(key, v), r) {
      var after := [COLON] + (p + r);
      QuotedThen(key, [COLON], p, r);
      StringRoundTrip(key, after);
      assert after[1..] == p + r;
      assert ParseValue(p + r) == Good(v, r);
    }
  }

  lemma {:induction false} SpanIs(p: Text, r: Text)
    requires AllNumberUnits(p) && (r == [] || !IsNumberUnit(r[0]))
    ensures NumberSpan(p + r) == |p|
  {
    hide IsNumberUnit;
    if p == [] {
      assert p + r == r;
    } else {
      assert (p + r)[1..] == p[1..] + r;
      SpanIs(p[1..], r);
    }
  }

  lemma ParseNumber(t: Text)
    requires t != [] && IsNumberUnit(t[0])
    ensures ParseValue(t) == Good(Num(ReadFinite(t[..NumberSpan(t)])), t[NumberSpan(t)..])
  {
    hide ReadString, ParseItems, ParseMembers, ReadFinite;
    assert NumberSpan(t) > 0;
    assert t[0] != NULL_WORD[0] && t[0] != TRUE_WORD[0] && t[0] != FALSE_WORD[0];
  }

  lemma NumberReads(x: Number)
    requires ValidNumber(x) && !x.NonFinite?
    ensures Reads(FiniteText(x), Num(Unsigned(x)))
  {
    var p := FiniteText(x);
    FiniteTextUnits(x);
    FiniteRoundTrip(x);
    hide FiniteText, ReadFinite, ParseValue;
    forall r | Ends(r) ensures ParseValue(p + r) == Good(Num(Unsigned(x)), r) {
      ParseNumber(p + r);
      SpanIs(p, r);
      assert (p + r)[..|p|] == p && (p + r)[|p|..] == r;
      assert (p + r)[0] == p[0];
    }
  }

  lemma WordReads(word: Text, v: Json)
    requires (word == NULL_WORD && v == Null) || (word == TRUE_WORD && v == Bool(true)) || (word == FALSE_WORD && v == Bool(false))
    ensures Reads(word, v)
  {
    forall r | Ends(r) ensures ParseValue(word + r) == Good(v, r) {
      assert (word + r)[..|word|] == word && (word + r)[|word|..] == r;
      assert (word + r)[0] == word[0];
    }
  }

  lemma StringReads(s: Text)
    ensures Reads(Quoted(s), Str(s))
  {
    forall r | Ends(r) ensures ParseValue(Quoted(s) + r) == Good(Str(s), r) {
      var t := Quoted(s) + r;
      assert t[0] == QUOTE && t[1..] == Escape(s) + [QUOTE] + r;
      StringRoundTrip(s, r);
    }
  }

  lemma JoinStart(parts: seq<Text>)
    requires parts != [] && parts[0] != []
    ensures Join(parts) != [] && Join(parts)[0] == parts[0][0]
  {}

  lemma JoinNothing(parts: seq<Text>)
    requires parts == []
    ensures Join(parts) == []
  {}

  lemma MemberStart(p: Text, m: Member)
    requires ReadsMember(p, m)
    ensures p != [] && p[0] == QUOTE
  {
    assert ParseMember(p + []) == Good(m, []);
    assert p + [] == p;
  }

  lemma ArrayThen(parts: seq<Text>, vs: seq<Json>, r: Text)
    requires |parts| == |vs| && forall i :: 0 <= i < |vs| ==> Reads(parts[i], vs[i])
    ensures ParseValue([OPEN_ARRAY] + Join(parts) + [CLOSE_ARRAY] + r) == Good(Arr(vs), r)
  {
    hide ParseItems, ParseMembers, ReadString, Join, Reads;
    var t := [OPEN_ARRAY] + Join(parts) + [CLOSE_ARRAY] + r;
    assert t[0] == OPEN_ARRAY && t[1..] == Join(parts) + [CLOSE_ARRAY] + r;
    if vs == [] {
      JoinNothing(parts);
      assert t[1] == CLOSE_ARRAY && t[2..] == r;
    } else {
      ReadsStart(parts[0], vs[0]);
      JoinStart(parts);
      assert t[1] == parts[0][0];
      ItemsRead(parts, vs, r);
    }
  }

  lemma ArrayReads(parts: seq<Text>, vs: seq<Json>)
    requires |parts| == |vs| && forall i :: 0 <= i < |vs| ==> Reads(parts[i], vs[i])
    ensures Reads([OPEN_ARRAY] + Join(parts) + [CLOSE_ARRAY], Arr(vs))
  {
    hide ParseValue, Join;
    forall r | Ends(r) ensures ParseValue([OPEN_ARRAY] + Join(parts) + [CLOSE_ARRAY] + r) == Good(Arr(vs), r) {
      ArrayThen(parts, vs, r);
    }
  }

  lemma ObjectThen(parts: seq<Text>, ms: seq<Member>, r: Text)
    requires |parts| == |ms| && forall i :: 0 <= i < |ms| ==> ReadsMember(parts[i], ms[i])
    ensures ParseValue([OPEN_OBJECT] + Join(parts) + [CLOSE_OBJECT] + r) == Good(Obj(ms), r)
  {
    hide ParseItems, ParseMembers, ReadString, Join, ReadsMember;
    var t := [OPEN_OBJECT] + Join(parts) + [CLOSE_OBJECT] + r;
    assert t[0] == OPEN_OBJECT && t[1..] == Join(parts) + [CLOSE_OBJECT] + r;
    if ms == [] {
      JoinNothing(parts);
      assert t[1] == CLOSE_OBJECT && t[2..] == r;
    } else {
      MemberStart(parts[0], ms[0]);
      JoinStart(parts);
      assert t[1] == QUOTE;
      MembersRead(parts, ms, r);
    }
  }

  lemma ObjectReads(parts: seq<Text>, ms: seq<Member>)
    requires |parts| == |ms| && forall i :: 0 <= i < |ms| ==> ReadsMember(parts[i], ms[i])
    ensures Reads([OPEN_OBJECT] + Join(parts) + [CLOSE_OBJECT], Obj(ms))
  {
    hide ParseValue, Join, ReadsMember;
    forall r | Ends(r) ensures ParseValue([OPEN_OBJECT] + Join(parts) + [CLOSE_OBJECT] + r) == Good(Obj(ms), r) {
      ObjectThen(parts, ms, r);
    }
  }

  /** Canonical text is read back as the normal form of the value, whatever follows it: the encoding
      is uniquely decodable. */
  lemma {:induction false} CanonicalReads(v: Json)
    requires WellFormed(v)
    ensures Reads(Canonicalize(v), Normal(v))
    decreases v
  {
    hide Reads, ReadsMember, FiniteText, Quoted, Join, NULL_WORD, TRUE_WORD, FALSE_WORD, MemberText, SortKeys;
    match v
    case Undefined => WordReads(NULL_WORD, Null);
    case Null => WordReads(NULL_WORD, Null);
    case Bool(b) => WordReads(if b then TRUE_WORD else FALSE_WORD, v);
    case Num(x) =>
      if x.NonFinite? {
        WordReads(NULL_WORD, Null);
      } else {
        NumberReads(x);
      }
    case Str(s) => StringReads(s);
    case Arr(items) =>
      var parts := seq(|items|, i requires 0 <= i < |items| => Canonicalize(items[i]));
      var vs := seq(|items|, i requires 0 <= i < |items| => Normal(items[i]));
      forall i | 0 <= i < |items| ensures Reads(parts[i], vs[i]) {
        CanonicalReads(items[i]);
      }
      ArrayReads(parts, vs);
    case Obj(ms) =>
      var keys := SortKeys(KeysOf(ms));
      assert forall i :: 0 <= i < |keys| ==> keys[i] in keys;
      var parts := seq(|keys|, i requires 0 <= i < |keys| => MemberText(keys[i], Canonicalize(ms[Position(ms, keys[i])].value)));
      var members := seq(|keys|, i requires 0 <= i < |keys| => Member(keys[i], Normal(ms[Position(ms, keys[i])].value)));
      forall i | 0 <= i < |keys| ensures ReadsMember(parts[i], members[i]) {
        var m := ms[Position(ms, keys[i])];
        CanonicalReads(m.value);
        MemberReads(keys[i], Canonicalize(m.value), Normal(m.value));
      }
      ObjectReads(parts, members);
  }

  // ---------------------------------------------------------------------
  // Canonical texts agree exactly when the values do
  // ---------------------------------------------------------------------

  lemma KeyAt(ms: seq<Member>, i: nat)
    requires i < |ms| && DistinctTexts(KeysOf(ms))
    ensures ms[i].key in SortKeys(KeysOf(ms)) && Position(ms, ms[i].key) == i
  {
    hide Position, SortKeys, KeysOf;
    var p := Position(ms, KeysOf(ms)[i]);
    assert KeysOf(ms)[p] == KeysOf(ms)[i];
  }

  lemma {:induction false} NormalDecides(a: Json, b: Json)
    requires WellFormed(a) && WellFormed(b) && Normal(a) == Normal(b)
    ensures SameValue(a, b)
    decreases a
  {
    match a
    case Arr(items) =>
      var other := b.items;
      forall i | 0 <= i < |items| ensures SameValue(items[i], other[i]) {
        assert Normal(a).items[i] == Normal(b).items[i];
        NormalDecides(items[i], other[i]);
      }
    case Obj(ms) =>
      var ns := b.members;
      SameSortedKeys(ms, ns, Normal(a).members, Normal(b).members);
      forall i, j | 0 <= i < |ms| && 0 <= j < |ns| && ms[i].key == ns[j].key ensures SameValue(ms[i].value, ns[j].value) {
        KeyAt(ms, i);
        KeyAt(ns, j);
        var k :| 0 <= k < |SortKeys(KeysOf(ms))| && SortKeys(KeysOf(ms))[k] == ms[i].key;
        assert Normal(a).members[k].value == Normal(b).members[k].value;
        NormalDecides(ms[i].value, ns[j].value);
      }
    case _ =>
  }

  lemma SameSortedKeys(ms: seq<Member>, ns: seq<Member>, a: seq<Member>, b: seq<Member>)
    requires a == b && |a| == |ms| && |b| == |ns|
    requires forall i :: 0 <= i < |ms| ==> a[i].key == SortKeys(KeysOf(ms))[i]
    requires forall i :: 0 <= i < |ns| ==> b[i].key == SortKeys(KeysOf(ns))[i]
    ensures SortKeys(KeysOf(ms)) == SortKeys(KeysOf(ns)) && SameMembers(ms, ns)
  {
    hide SortKeys;
    assert SortKeys(KeysOf(ms)) == SortKeys(KeysOf(ns));
  }

  lemma SameKeysSort(ms: seq<Member>, ns: seq<Member>)
    requires SameMembers(ms, ns) && DistinctTexts(KeysOf(ms)) && DistinctTexts(KeysOf(ns))
    ensures SortKeys(KeysOf(ms)) == SortKeys(KeysOf(ns))
  {
    SortKeysSorted(KeysOf(ms));
    SortKeysSorted(KeysOf(ns));
    SortedUnique(SortKeys(KeysOf(ms)), SortKeys(KeysOf(ns)));
  }

  lemma {:induction false} SameValueSameText(a: Json, b: Json)
    requires WellFormed(a) && WellFormed(b) && SameValue(a, b)
    ensures Canonicalize(a) == Canonicalize(b)
    decreases a
  {
    hide Quoted, MemberText, Join, SortKeys, NULL_WORD;
    match a
    case Num(x) =>
    case Arr(items) =>
      forall i | 0 <= i < |items| ensures Canonicalize(items[i]) == Canonicalize(b.items[i]) {
        SameValueSameText(items[i], b.items[i]);
      }
      assert seq(|items|, i requires 0 <= i < |items| => Canonicalize(items[i])) ==
             seq(|b.items|, i requires 0 <= i < |b.items| => Canonicalize(b.items[i]));
    case Obj(ms) =>
      var ns := b.members;
      SameKeysSort(ms, ns);
      var keys := SortKeys(KeysOf(ms));
      assert forall i :: 0 <= i < |keys| ==> keys[i] in keys;
      forall i | 0 <= i < |keys|
        ensures Canonicalize(ms[Position(ms, keys[i])].value) == Canonicalize(ns[Position(ns, keys[i])].value)
      {
        SameValueSameText(ms[Position(ms, keys[i])].value, ns[Position(ns, keys[i])].value);
      }
      assert seq(|keys|, i requires 0 <= i < |keys| => MemberText(keys[i], Canonicalize(ms[Position(ms, keys[i])].value))) ==
             seq(|keys|, i requires 0 <= i < |keys| => MemberText(keys[i], Canonicalize(ns[Position(ns, keys[i])].value)));
    case _ =>
  }

  /** Two values have the same canonical text exactly when they are equal up to the order of object
      members (with every null-like value equal to null and the two zeros equal). */
  lemma CanonicalIff(a: Json, b: Json)
    requires WellFormed(a) && WellFormed(b)
    ensures Canonicalize(a) == Canonicalize(b) <==> SameValue(a, b)
  {
    if Canonicalize(a) == Canonicalize(b) {
      CanonicalReads(a);
      CanonicalReads(b);
      hide Canonicalize, Normal, ParseValue, SameValue;
      assert ParseValue(Canonicalize(a) + []) == Good(Normal(a), []);
      assert ParseValue(Canonicalize(b) + []) == Good(Normal(b), []);
      NormalDecides(a, b);
    }
    if SameValue(a, b) {
      SameValueSameText(a, b);
    }
  }
}
