// src/domain/auditReceipts.ts: receipts with hashes, a derived replay key and a running counter.
module AuditReceipts {
  import opened Numbers
  import opened Hashes
  import opened JsonString
  import opened Canonical
  import Radix

  datatype ReceiptInput = ReceiptInput(
    vendorId: Text,
    vendorName: Text,
    action: Text,
    input: Json,
    output: Json,
    latencyMs: real,
    idempotencyKey: Option<Text>,
    includeInspect: Option<bool>)

  datatype AuditReceipt = AuditReceipt(
    receiptId: Text,
    ts: Text,
    vendorId: Text,
    vendorName: Text,
    action: Text,
    inputHash: Text,
    outputDigest: Text,
    idempotencyKey: Text,
    latencyMs: real,
    verified: bool,
    inspect: Option<(Json, Json)>)

  const RECEIPT_PREFIX: Text := [0x72, 0x63, 0x70, 0x74, 0x5F]
  const UNDERSCORE: Unit := 0x5F

  function DigitsText(ds: seq<nat>): (t: Text)
    requires forall i :: 0 <= i < |ds| ==> ds[i] < 36
    ensures |t| == |ds| && forall i :: 0 <= i < |ds| ==> t[i] == DigitUnit(ds[i])
  {
    seq(|ds|, i requires 0 <= i < |ds| => DigitUnit(ds[i]))
  }

  function TextDigits(t: Text): (ds: seq<nat>)
    ensures |ds| == |t|
  {
    seq(|t|, i requires 0 <= i < |t| => UnitDigit(t[i]))
  }

  lemma TextDigitsRoundTrip(ds: seq<nat>)
    requires forall i :: 0 <= i < |ds| ==> ds[i] < 36
    ensures TextDigits(DigitsText(ds)) == ds
  {}

  /** Eight lower-case hexadecimal digits. */
  function HexText(h: Word): Text {
    DigitsText(Radix.PadStart(Radix.Digits(h, 16), 8))
  }

  lemma HexDigitsBound(h: Word)
    ensures |Radix.Digits(h, 16)| <= 8
  {
    assert Radix.Power(16, 4) == 0x1_0000;
    assert Radix.Power(16, 6) == 0x100_0000;
    assert Radix.Power(16, 8) == TWO32;
    Radix.DigitsFit(h, 16, 8);
  }

  /** The hex text of a hash always has eight units and determines the hash. */
  lemma HexExact(h: Word, g: Word)
    ensures |HexText(h)| == 8
    ensures HexText(h) == HexText(g) <==> h == g
  {
    HexDigitsBound(h);
    TextDigitsRoundTrip(Radix.PadStart(Radix.Digits(h, 16), 8));
    TextDigitsRoundTrip(Radix.PadStart(Radix.Digits(g, 16), 8));
    Radix.ValueOfPadded(h, 16, 8);
    Radix.ValueOfPadded(g, 16, 8);
  }

  function HashText(s: Text): Text {
    HexText(Fnv1a(s))
  }

  function DerivedKey(vendorId: Text, action: Text, inputHash: Text): Text {
    HashText(vendorId + [COLON, COLON] + action + [COLON, COLON] + inputHash)
  }

  predicate IsDigitUnit(c: Unit) {
    0x30 <= c <= 0x39
  }

  /** ts.replace(/[^0-9]/g, ""). */
  function OnlyDigits(ts: Text): (r: Text)
    ensures forall i :: 0 <= i < |r| ==> IsDigitUnit(r[i])
  {
    if ts == [] then []
    else if IsDigitUnit(ts[0]) then [ts[0]] + OnlyDigits(ts[1..])
    else OnlyDigits(ts[1..])
  }

  function Stamp(ts: Text): (r: Text)
    ensures forall i :: 0 <= i < |r| ==> IsDigitUnit(r[i])
  {
    var d := OnlyDigits(ts);
    if |d| <= 14 then d else d[..14]
  }

  function ReceiptId(ts: Text, counter: nat): Text {
    RECEIPT_PREFIX + Stamp(ts) + [UNDERSCORE] + DigitsText(Radix.Digits(counter, 36))
  }

  lemma SeparatorPlace(t: Text, a: Text, b: Text, c: Text, d: Text)
    requires t == a + [UNDERSCORE] + b && t == c + [UNDERSCORE] + d
    requires forall i :: 0 <= i < |c| ==> IsDigitUnit(c[i])
    ensures |c| <= |a|
  {
    assert t[|a|] == UNDERSCORE;
    assert forall i :: 0 <= i < |c| ==> t[i] == c[i];
  }

  /** A text splits in one way into digits, a separator and the rest. */
  lemma SplitUnique(a: Text, b: Text, c: Text, d: Text)
    requires a + [UNDERSCORE] + b == c + [UNDERSCORE] + d
    requires forall i :: 0 <= i < |a| ==> IsDigitUnit(a[i])
    requires forall i :: 0 <= i < |c| ==> IsDigitUnit(c[i])
    ensures a == c && b == d
  {
    var t := a + [UNDERSCORE] + b;
    SeparatorPlace(t, a, b, c, d);
    SeparatorPlace(t, c, d, a, b);
    assert t[..|a|] == a && t[..|c|] == c;
    assert t[|a| + 1..] == b && t[|c| + 1..] == d;
  }

  /** The counter is read back from its base-36 text. */
  lemma CounterExact(n: nat, m: nat)
    ensures DigitsText(Radix.Digits(n, 36)) == DigitsText(Radix.Digits(m, 36)) <==> n == m
  {
    TextDigitsRoundTrip(Radix.Digits(n, 36));
    TextDigitsRoundTrip(Radix.Digits(m, 36));
    Radix.ValueOfDigits(n, 36);
    Radix.ValueOfDigits(m, 36);
  }

  lemma DropPrefix(p: Text, a: Text, u: Text, b: Text)
    ensures (p + a + u + b)[|p|..] == a + u + b
  {}

  /** Whatever the clock says, receipts with different counters have different ids. */
  lemma ReceiptIdsDiffer(ts: Text, n: nat, ts': Text, m: nat)
    ensures ReceiptId(ts, n) == ReceiptId(ts', m) <==> n == m && Stamp(ts) == Stamp(ts')
  {
    hide Stamp, DigitsText, IsDigitUnit;
    var a, b := DigitsText(Radix.Digits(n, 36)), DigitsText(Radix.Digits(m, 36));
    DropPrefix(RECEIPT_PREFIX, Stamp(ts), [UNDERSCORE], a);
    DropPrefix(RECEIPT_PREFIX, Stamp(ts'), [UNDERSCORE], b);
    CounterExact(n, m);
    if ReceiptId(ts, n) == ReceiptId(ts', m) {
      SplitUnique(Stamp(ts), a, Stamp(ts'), b);
    }
  }

  ghost predicate ValidInput(args: ReceiptInput) {
    WellFormed(args.input) && WellFormed(args.output)
  }

  /** The receipt for the counter-th call. */
  ghost function Receipt(args: ReceiptInput, ts: Text, counter: nat): AuditReceipt
    requires ValidInput(args)
  {
    var inputHash := HashText(Canonicalize(args.input));
    AuditReceipt(
      ReceiptId(ts, counter), ts, args.vendorId, args.vendorName, args.action,
      inputHash, HashText(Canonicalize(args.output)),
      if args.idempotencyKey.Some? then args.idempotencyKey.value else DerivedKey(args.vendorId, args.action, inputHash),
      args.latencyMs, true,
      if args.includeInspect == Some(false) then None else Some((args.input, args.output)))
  }

  /** The module-wide state: one counter for all receipts. */
  class Receipts {
    var counter: nat

    constructor ()
      ensures counter == 0
    {
      counter := 0;
    }

    method BuildReceipt(args: ReceiptInput, ts: Text) returns (receipt: AuditReceipt)
      requires ValidInput(args)
      modifies this
      ensures counter == old(counter) + 1
      ensures receipt == Receipt(args, ts, counter)
    {
      counter := counter + 1;
      var inputHash := ComputeFnv1a(Canonicalize(args.input));
      var outputHash := ComputeFnv1a(Canonicalize(args.output));
      var key;
      match args.idempotencyKey {
        case Some(given) => key := given;
        case None =>
          var derived := ComputeFnv1a(args.vendorId + [COLON, COLON] + args.action + [COLON, COLON] + HexText(inputHash));
          key := HexText(derived);
      }
      receipt := AuditReceipt(
        ReceiptId(ts, counter), ts, args.vendorId, args.vendorName, args.action,
        HexText(inputHash), HexText(outputHash), key, args.latencyMs, true,
        if args.includeInspect == Some(false) then None else Some((args.input, args.output)));
    }
  }

  datatype Call = Call(args: ReceiptInput, ts: Text)

  ghost predicate ValidCalls(calls: seq<Call>) {
    forall i :: 0 <= i < |calls| ==> ValidInput(calls[i].args)
  }

  /** The receipts of a run of calls. */
  ghost function Issued(counter: nat, calls: seq<Call>): (r: seq<AuditReceipt>)
    requires ValidCalls(calls)
    ensures |r| == |calls|
  {
    if calls == [] then []
    else
      var n := |calls| - 1;
      Issued(counter, calls[..n]) + [Receipt(calls[n].args, calls[n].ts, counter + |calls|)]
  }

  lemma {:induction false} IssuedAt(counter: nat, calls: seq<Call>, i: nat)
    requires ValidCalls(calls) && i < |calls|
    ensures Issued(counter, calls)[i] == Receipt(calls[i].args, calls[i].ts, counter + i + 1)
  {
    hide Receipt;
    if i < |calls| - 1 {
      IssuedAt(counter, calls[..|calls| - 1], i);
    }
  }

  /** Over any run and any clock, even one that stands still or goes back, no two receipts share an id. */
  lemma IdsDistinct(counter: nat, calls: seq<Call>, i: nat, j: nat)
    requires ValidCalls(calls) && i < j < |calls|
    ensures Issued(counter, calls)[i].receiptId != Issued(counter, calls)[j].receiptId
  {
    hide ReceiptId, Canonicalize, HashText;
    IssuedAt(counter, calls, i);
    IssuedAt(counter, calls, j);
    ReceiptIdsDiffer(calls[i].ts, counter + i + 1, calls[j].ts, counter + j + 1);
  }

  /** Two calls of one vendor and action without an explicit key get the same replay key and the same
      input hash whenever their inputs are equal up to the order of object members, at any two
      points of any two runs. */
  lemma ReplayKeyStable(a: ReceiptInput, b: ReceiptInput, ts: Text, ts': Text, n: nat, m: nat)
    requires ValidInput(a) && ValidInput(b)
    requires a.vendorId == b.vendorId && a.action == b.action && SameValue(a.input, b.input)
    requires a.idempotencyKey.None? && b.idempotencyKey.None?
    ensures Receipt(a, ts, n).inputHash == Receipt(b, ts', m).inputHash
    ensures Receipt(a, ts, n).idempotencyKey == Receipt(b, ts', m).idempotencyKey
  {
    CanonicalIff(a.input, b.input);
    hide Canonicalize, SameValue, HashText, ReceiptId, WellFormed;
  }

  /** Canonical texts that differ in a single code unit have different hash texts. */
  lemma OneUnitChangesHash(before: Text, c: Unit, d: Unit, after: Text)
    ensures HashText(before + [c] + after) == HashText(before + [d] + after) <==> c == d
  {
    FnvOneUnit(before, c, d, after);
    HexExact(Fnv1a(before + [c] + after), Fnv1a(before + [d] + after));
  }
}
