// src/domain/auditReceipts.ts and src/analytics/vectorMath.ts: known values of the hashes and what
// each part of a receipt is.
module HashLaws {
  import opened Numbers
  import opened Hashes
  import opened JsonString
  import opened Canonical
  import opened AuditReceipts
  import Radix

  /** The operand conversion keeps the residue and gives a signed 32-bit integer. */
  lemma ToInt32Law(x: int)
    ensures -0x8000_0000 <= ToInt32(x) < 0x8000_0000 && (x - ToInt32(x)) % 0x1_0000_0000 == 0
  {
    ToInt32Residue(x);
    ModAdd(ToInt32(x), x, -ToInt32(x), TWO32);
  }

  lemma {:induction false} XorZero(a: nat)
    ensures Xor(a, 0) == a
  {
    if a != 0 {
      XorZero(a / 2);
    }
  }

  lemma XorOffset()
    ensures Xor(0x811c9dc5, 0x61) == 0x811c9da4
  {
    hide Xor;
    XorZero(0x102393b);
    XorStep(0x2047277, 0x1);
    XorStep(0x408e4ee, 0x3);
    XorStep(0x811c9dc, 0x6);
    XorStep(0x102393b8, 0xc);
    XorStep(0x20472771, 0x18);
    XorStep(0x408e4ee2, 0x30);
    XorStep(0x811c9dc5, 0x61);
  }

  lemma ProductResidue()
    ensures (0x811c9da4 * 16777619) % 0x1_0000_0000 == 0xe40c292c
  {
    assert 0x811c9da4 * 16777619 == 8461672 * 0x1_0000_0000 + 0xe40c292c;
  }

  /** The empty text and "a" (the test vectors of draft-eastlake-fnv for 32-bit FNV-1a). */
  lemma FnvVectors()
    ensures Fnv1a([]) == 0x811c9dc5 && Fnv1a([0x61]) == 0xe40c292c
  {
    hide Xor;
    XorOffset();
    ProductResidue();
    assert [] + [0x61] == [0x61];
    FnvAppend([], 0x61);
  }

  lemma DjbVectors()
    ensures Djb2([]) == 5381 && Djb2([0x61]) == 177604
  {
    hide Xor;
    XorZero(0x56b);
    XorStep(0xad6, 0x1);
    XorStep(0x15ad, 0x3);
    XorStep(0x2b5a, 0x6);
    XorStep(0x56b4, 0xc);
    XorStep(0xad69, 0x18);
    XorStep(0x15ad2, 0x30);
    XorStep(0x2b5a5, 0x61);
    Djb2Append([], 0x61);
    assert [] + [0x61] == [0x61];
  }

  /** The generator is x -> 1664525 x + 1013904223 modulo 2^32, and its states are mapped evenly onto [-1, 1]. */
  lemma GeneratorLaw(seed: Word, n: nat)
    ensures Lcg(seed, 0) == seed && Lcg(seed, n + 1) == (1664525 * Lcg(seed, n) + 1013904223) % 0x1_0000_0000
    ensures (Coordinate(seed) + 1.0) * 4294967295.0 == 2.0 * seed as real
  {}

  // ---------------------------------------------------------------------
  // Receipts
  // ---------------------------------------------------------------------

  /** The fields of a receipt: the caller's own, the hashes of the canonical texts, and the explicit key if
      there is one; the bodies are enclosed unless that is switched off. */
  lemma ReceiptFields(args: ReceiptInput, ts: Text, counter: nat)
    requires ValidInput(args)
    ensures var r := Receipt(args, ts, counter);
            && r.ts == ts && r.vendorId == args.vendorId && r.vendorName == args.vendorName && r.action == args.action
            && r.latencyMs == args.latencyMs && r.verified
            && r.inputHash == HashText(Canonicalize(args.input)) && r.outputDigest == HashText(Canonicalize(args.output))
            && (args.idempotencyKey.Some? ==> r.idempotencyKey == args.idempotencyKey.value)
            && (args.idempotencyKey.None? ==>
                  r.idempotencyKey == HashText(args.vendorId + [0x3A, 0x3A] + args.action + [0x3A, 0x3A] + r.inputHash))
            && (r.inspect == None <==> args.includeInspect == Some(false))
            && (r.inspect.Some? ==> r.inspect.value == (args.input, args.output))
  {
    hide Canonicalize, HashText, ReceiptId;
  }

  ghost function KeyOf(args: ReceiptInput, ts: Text, n: nat): Text
    requires ValidInput(args)
  {
    Receipt(args, ts, n).idempotencyKey
  }

  /** Without an explicit key the replay key reacts to every single unit of the vendor and of the action. */
  lemma ReplayKeyReacts(a: ReceiptInput, ts: Text, n: nat, before: Text, c: Unit, d: Unit, after: Text)
    requires ValidInput(a) && a.idempotencyKey.None?
    ensures KeyOf(a.(vendorId := before + [c] + after), ts, n) == KeyOf(a.(vendorId := before + [d] + after), ts, n) <==> c == d
    ensures KeyOf(a.(action := before + [c] + after), ts, n) == KeyOf(a.(action := before + [d] + after), ts, n) <==> c == d
  {
    hide Canonicalize, HashText, ReceiptId;
    var hash := HashText(Canonicalize(a.input));
    var tail := after + [0x3A, 0x3A] + a.action + [0x3A, 0x3A] + hash;
    assert forall x: Unit :: before + [x] + after + [0x3A, 0x3A] + a.action + [0x3A, 0x3A] + hash == before + [x] + tail;
    OneUnitChangesHash(before, c, d, tail);
    var front, rest := a.vendorId + [0x3A, 0x3A] + before, after + [0x3A, 0x3A] + hash;
    assert forall x: Unit :: a.vendorId + [0x3A, 0x3A] + (before + [x] + after) + [0x3A, 0x3A] + hash == front + [x] + rest;
    OneUnitChangesHash(front, c, d, rest);
    ReceiptFields(a.(vendorId := before + [c] + after), ts, n);
    ReceiptFields(a.(vendorId := before + [d] + after), ts, n);
    ReceiptFields(a.(action := before + [c] + after), ts, n);
    ReceiptFields(a.(action := before + [d] + after), ts, n);
  }

  /** The digits of a time stamp, in order. */
  lemma {:induction false} OnlyDigitsIs(ts: Text)
    ensures OnlyDigits(ts) == DigitsOf(ts)
    decreases |ts|
  {
    if ts == [] {
    } else {
      OnlyDigitsIs(ts[1..]);
      FilterFront(ts[0], ts[1..]);
      assert ts == [ts[0]] + ts[1..];
    }
  }

  function DigitsOf(ts: Text): Text {
    if ts == [] then []
    else DigitsOf(ts[..|ts| - 1]) + if 48 <= ts[|ts| - 1] <= 57 then [ts[|ts| - 1]] else []
  }

  lemma {:induction false} FilterFront(c: Unit, ts: Text)
    ensures DigitsOf([c] + ts) == (if 48 <= c <= 57 then [c] else []) + DigitsOf(ts)
    decreases |ts|
  {
    if ts == [] {
      assert [c] + ts == [c] && [c][..0] == [];
    } else {
      var n := |ts| - 1;
      FilterFront(c, ts[..n]);
      assert ([c] + ts)[..n + 1] == [c] + ts[..n];
    }
  }

  /** The id: "rcpt_", the first fourteen digits of the time stamp, "_", the counter in base 36. */
  lemma ReceiptIdText(ts: Text, counter: nat)
    ensures var d, digits := DigitsOf(ts), Radix.Digits(counter, 36);
            var stamp := if |d| <= 14 then d else d[..14];
            && |ReceiptId(ts, counter)| == 6 + |stamp| + |digits|
            && ReceiptId(ts, counter)[..5] == [0x72, 0x63, 0x70, 0x74, 0x5F]
            && ReceiptId(ts, counter)[5..5 + |stamp|] == stamp
            && ReceiptId(ts, counter)[5 + |stamp|] == 0x5F
            && forall i :: 0 <= i < |digits| ==>
                 ReceiptId(ts, counter)[6 + |stamp| + i] as int == (if digits[i] < 10 then 48 + digits[i] else 87 + digits[i])
  {
    OnlyDigitsIs(ts);
    hide OnlyDigits, DigitsOf, Radix.Digits;
  }

  /** The hex text of a hash: eight digits whose value, read in base 16, is the hash. */
  lemma HexTextValue(h: Word) returns (ds: seq<nat>)
    ensures |HexText(h)| == |ds| == 8 && Radix.Value(ds, 16) == h
    ensures forall i :: 0 <= i < 8 ==> ds[i] < 16 && HexText(h)[i] as int == (if ds[i] < 10 then 48 + ds[i] else 87 + ds[i])
  {
    HexDigitsBound(h);
    ds := Radix.PadStart(Radix.Digits(h, 16), 8);
    Radix.ValueOfPadded(h, 16, 8);
  }

  /** Positional value, most significant digit first. */
  lemma ValueLaw(ds: seq<nat>, d: nat, base: nat)
    ensures Radix.Value([], base) == 0 && Radix.Value(ds + [d], base) == base * Radix.Value(ds, base) + d
  {
    assert (ds + [d])[..|ds|] == ds;
  }
}
