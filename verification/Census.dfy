// src/connectors/censusLoader.ts: household totals and margins of error per bucket.  Margins combine
// in quadrature and are rounded to an integer after every record.
module Census {
  import opened Numbers
  import opened OrderedMap

  /** The parts of a record that matter here: the value of the chosen dimension, the households and
      the margin (absent when it did not parse). */
  datatype Record = Record(key: string, households: int, margin: Option<int>)

  datatype Bucket = Bucket(total: int, moe: nat)

  function Square(x: int): nat {
    x * x
  }

  /** r is Math.round(Math.sqrt(k)): the root of an integer is never half-way between integers. */
  predicate IsRoundedRoot(k: nat, r: nat) {
    k <= Square(r) + r && (r > 0 ==> k > Square(r) - r)
  }

  function RoundedRootFrom(k: nat, r: nat): (s: nat)
    requires r > 0 ==> k > Square(r) - r
    ensures IsRoundedRoot(k, s)
    decreases k - r
  {
    if k <= Square(r) + r then r
    else
      assert Square(r + 1) - (r + 1) == Square(r) + r;
      RoundedRootFrom(k, r + 1)
  }

  function RoundedRoot(k: nat): (r: nat)
    ensures IsRoundedRoot(k, r)
  {
    RoundedRootFrom(k, 0)
  }

  /** Against an exact real root, rounding is off by at most one half. */
  lemma RoundedRootIsClosest(k: nat, x: real)
    requires x >= 0.0 && x * x == k as real
    ensures Round(x) == RoundedRoot(k)
  {
    var r := RoundedRoot(k);
    var q := r as real;
    assert (Square(r) + r) as real == q * q + q;
    HalfSquares(q);
    SquareReal(r);
    if x >= q + 0.5 {
      SquareStep(q + 0.5, x);
    }
    if r > 0 && x < q - 0.5 {
      SquareStep(x, q - 0.5);
    }
  }

  lemma HalfSquares(q: real)
    ensures (q + 0.5) * (q + 0.5) == q * q + q + 0.25 && (q - 0.5) * (q - 0.5) == q * q - q + 0.25
  {}

  lemma SquareStep(a: real, b: real)
    requires 0.0 <= a <= b
    ensures a * a <= b * b
  {
    MulMonotone(a, b, a);
    MulMonotone(a, b, b);
  }

  // ---------------------------------------------------------------------
  // Margins
  // ---------------------------------------------------------------------

  function MarginOf(rec: Record): int {
    match rec.margin
    case Some(m) => m
    case None => 0
  }

  /** The margin of a bucket after its records, in order. */
  function Combined(ms: seq<int>): nat {
    if ms == [] then 0 else RoundedRoot(Square(Combined(ms[..|ms| - 1])) + Square(ms[|ms| - 1]))
  }

  function SumOfSquares(ms: seq<int>): nat {
    if ms == [] then 0 else SumOfSquares(ms[..|ms| - 1]) + Square(ms[|ms| - 1])
  }

  function Abs(x: int): nat {
    if x >= 0 then x else -x
  }

  function SumOfAbs(ms: seq<int>): nat {
    if ms == [] then 0 else SumOfAbs(ms[..|ms| - 1]) + Abs(ms[|ms| - 1])
  }

  lemma SquareOrderInt(a: nat, b: nat)
    ensures Square(a) <= Square(b) <==> a <= b
  {
    if a <= b {
      assert a * a <= a * b <= b * b;
    } else {
      assert b * b <= a * b < a * a;
    }
  }

  /** Rounding is exact on squares and monotone around them. */
  lemma RootAgainstSquare(k: nat, n: nat)
    ensures Square(n) <= k ==> n <= RoundedRoot(k)
    ensures k <= Square(n) ==> RoundedRoot(k) <= n
  {
    var r := RoundedRoot(k);
    if r < n {
      assert Square(r + 1) == Square(r) + r + r + 1;
      SquareOrderInt(r + 1, n);
    } else if n < r {
      assert Square(r - 1) == Square(r) - r - r + 1;
      SquareOrderInt(n, r - 1);
    }
  }

  /** The integer form of "r is within e/2 of the root of s". */
  predicate Within(r: nat, s: nat, e: nat) {
    4 * s <= Square(2 * r + e) && (2 * r >= e ==> Square(2 * r - e) <= 4 * s)
  }

  function Times(a: int, b: int): int {
    a * b
  }

  lemma TimesFacts(a: int, b: int, e: nat)
    ensures Times(a, e + 1) == Times(a, e) + a && Times(a + 1, e) == Times(a, e) + e
    ensures a <= b ==> Times(a, e) <= Times(b, e)
    ensures Square(e + 1) == Square(e) + 2 * e + 1
  {}

  lemma ExpandPlus(r: int, e: int)
    ensures Square(2 * r + e) == 4 * Square(r) + 4 * Times(r, e) + Square(e)
  {}

  lemma ExpandMinus(r: int, e: int)
    ensures Square(2 * r - e) == 4 * Square(r) - 4 * Times(r, e) + Square(e)
  {}

  lemma ExpandDifference(a: int, b: int)
    ensures Square(a - b) == Square(a) - 2 * Times(a, b) + Square(b)
    ensures Square(2 * a) == 4 * Square(a) && Times(a, a) == Square(a)
  {}

  lemma UpperStep(r: nat, s: nat, e: nat, m2: nat, r': nat)
    requires 4 * s <= Square(2 * r + e) && r <= r' && Square(r) + m2 <= Square(r') + r'
    ensures 4 * (s + m2) <= Square(2 * r' + (e + 1))
  {
    hide Square, Times;
    ExpandPlus(r, e);
    ExpandPlus(r', e + 1);
    TimesFacts(r, r', e);
    TimesFacts(r', r', e);
  }

  lemma LowerSame(r: nat, s: nat, e: nat)
    requires 2 * r >= e + 1 && Square(2 * r - e) <= 4 * s
    ensures Square(2 * r - (e + 1)) <= 4 * s
  {
    SquareOrderInt(2 * r - (e + 1), 2 * r - e);
  }

  lemma LowerGrown(r: nat, s: nat, e: nat, m2: nat, r': nat)
    requires 2 * r >= e && Square(2 * r - e) <= 4 * s && r < r' && Square(r) + m2 > Square(r') - r'
    ensures Square(2 * r' - (e + 1)) <= 4 * (s + m2)
  {
    hide Square, Times;
    ExpandMinus(r, e);
    ExpandMinus(r', e + 1);
    TimesFacts(r, r, e);
    TimesFacts(r + 1, r', e);
    TimesFacts(r', r', e);
  }

  lemma LowerSmall(r: nat, e: nat, m2: nat, r': nat)
    requires 2 * r < e && 2 * r' >= e + 1 && Square(r) + m2 > Square(r') - r'
    ensures Square(2 * r' - (e + 1)) <= 4 * m2
  {
    hide Square, Times;
    var d := r' - (r + 1);
    SquareOrderInt(2 * r' - (e + 1), 2 * d);
    ExpandDifference(d, 0);
    ExpandDifference(r', r + 1);
    ExpandDifference(r, r);
    TimesFacts(r', r', r);
    TimesFacts(r + 1, r', r);
    TimesFacts(r, r, r);
  }

  lemma StepWithin(r: nat, s: nat, e: nat, m2: nat)
    requires Within(r, s, e)
    ensures Within(RoundedRoot(Square(r) + m2), s + m2, e + 1)
  {
    hide Square;
    var k := Square(r) + m2;
    var r' := RoundedRoot(k);
    RootAgainstSquare(k, r);
    UpperStep(r, s, e, m2, r');
    if 2 * r' >= e + 1 {
      if 2 * r < e {
        LowerSmall(r, e, m2, r');
      } else if r' == r {
        LowerSame(r, s, e);
      } else {
        LowerGrown(r, s, e, m2, r');
      }
    }
  }

  lemma FirstExact(m: int)
    ensures Combined([m]) == Abs(m) && SumOfSquares([m]) == Square(Abs(m))
  {
    assert [m][..0] == [];
    assert Combined([]) == 0 && SumOfSquares([]) == 0;
    assert Square(0) + Square(m) == Square(Abs(m));
    RootAgainstSquare(Square(Abs(m)), Abs(m));
  }

  lemma {:induction false} MarginError(ms: seq<int>)
    requires ms != []
    ensures Within(Combined(ms), SumOfSquares(ms), |ms| - 1)
  {
    if |ms| == 1 {
      assert ms == [ms[0]];
      FirstExact(ms[0]);
      assert Square(2 * Abs(ms[0])) == 4 * Square(Abs(ms[0]));
    } else {
      hide Square, Within, RoundedRoot;
      var init, m := ms[..|ms| - 1], ms[|ms| - 1];
      MarginError(init);
      StepWithin(Combined(init), SumOfSquares(init), |init| - 1, Square(m));
    }
  }

  /** The margin of n records is within (n-1)/2 of the exact root x of the sum of squares. */
  lemma MarginErrorReal(ms: seq<int>, x: real)
    requires ms != [] && x >= 0.0 && x * x == SumOfSquares(ms) as real
    ensures Combined(ms) as real - (|ms| - 1) as real / 2.0 <= x <= Combined(ms) as real + (|ms| - 1) as real / 2.0
  {
    MarginError(ms);
    hide Combined, SumOfSquares;
    WithinReal(Combined(ms), SumOfSquares(ms), |ms| - 1, x);
  }

  lemma WithinReal(r: nat, s: nat, e: nat, x: real)
    requires Within(r, s, e) && x >= 0.0 && x * x == s as real
    ensures r as real - e as real / 2.0 <= x <= r as real + e as real / 2.0
  {
    SquareReal(2 * r + e);
    SquareReal(2 * r - e);
    assert (2.0 * x) * (2.0 * x) == 4.0 * (x * x);
    SquareOrder(2.0 * x, (2 * r + e) as real);
    if 2 * r >= e {
      SquareOrder((2 * r - e) as real, 2.0 * x);
    }
  }

  lemma SquareReal(n: int)
    ensures Square(n) as real == (n as real) * (n as real)
  {}

  /** The margin of a bucket is at least every single margin and at most their sum. */
  lemma {:induction false} MarginBounds(ms: seq<int>, i: nat)
    requires i < |ms|
    ensures Abs(ms[i]) <= Combined(ms) <= SumOfAbs(ms)
  {
    var init, m := ms[..|ms| - 1], ms[|ms| - 1];
    var r := Combined(init);
    if |ms| > 1 {
      MarginBounds(init, if i < |init| then i else 0);
    } else {
      assert init == [] && Combined([]) == 0 && SumOfAbs([]) == 0;
    }
    hide Combined, RoundedRoot, IsRoundedRoot;
    var k := Square(r) + Square(m);
    RootAgainstSquare(k, r);
    RootAgainstSquare(k, Abs(m));
    RootAgainstSquare(k, r + Abs(m));
    PythagorasSum(r, m);
    CombinedLast(ms);
  }

  lemma CombinedLast(ms: seq<int>)
    requires ms != []
    ensures Combined(ms) == RoundedRoot(Square(Combined(ms[..|ms| - 1])) + Square(ms[|ms| - 1]))
  {}

  lemma PythagorasSum(r: nat, m: int)
    ensures Square(r) + Square(m) <= Square(r + Abs(m)) && Square(m) == Square(Abs(m))
  {
    assert Square(r + Abs(m)) == Square(r) + Square(Abs(m)) + 2 * (r * Abs(m));
  }

  // ---------------------------------------------------------------------
  // Buckets
  // ---------------------------------------------------------------------

  const EMPTY: Bucket := Bucket(0, 0)

  function AddTo(b: Bucket, rec: Record): Bucket {
    Bucket(b.total + rec.households, RoundedRoot(Square(b.moe) + Square(MarginOf(rec))))
  }

  function Aggregate(records: seq<Record>): Entries<string, Bucket> {
    if records == [] then []
    else
      var rec, m := records[|records| - 1], Aggregate(records[..|records| - 1]);
      Put(m, rec.key, AddTo(GetOr(m, rec.key, EMPTY), rec))
  }

  method AggregateByDimension(records: seq<Record>) returns (totals: Entries<string, Bucket>)
    ensures totals == Aggregate(records)
  {
    totals := [];
    for i := 0 to |records|
      invariant totals == Aggregate(records[..i])
    {
      var rec := records[i];
      var existing := GetOr(totals, rec.key, Bucket(0, 0));
      totals := Put(totals, rec.key, Bucket(existing.total + rec.households, RoundedRoot(Square(existing.moe) + Square(MarginOf(rec)))));
      assert records[..i + 1][..i] == records[..i];
    }
    assert records[..|records|] == records;
  }

  /** The records of one bucket, in order. */
  function OfKey(records: seq<Record>, key: string): seq<Record> {
    if records == [] then []
    else
      var last := records[|records| - 1];
      OfKey(records[..|records| - 1], key) + if last.key == key then [last] else []
  }

  function Households(records: seq<Record>): int {
    if records == [] then 0 else Households(records[..|records| - 1]) + records[|records| - 1].households
  }

  function Margins(records: seq<Record>): (ms: seq<int>)
    ensures |ms| == |records|
  {
    seq(|records|, i requires 0 <= i < |records| => MarginOf(records[i]))
  }

  function Fold(records: seq<Record>): Bucket {
    Bucket(Households(records), Combined(Margins(records)))
  }

  lemma AppendRecord(records: seq<Record>, rec: Record)
    ensures Households(records + [rec]) == Households(records) + rec.households
    ensures Combined(Margins(records + [rec])) == RoundedRoot(Square(Combined(Margins(records))) + Square(MarginOf(rec)))
  {
    assert (records + [rec])[..|records|] == records;
    var ms := Margins(records + [rec]);
    assert ms[..|ms| - 1] == Margins(records);
  }

  /** Each bucket holds the household sum and the combined margin of exactly its own records. */
  lemma {:induction false} BucketExact(records: seq<Record>, key: string)
    ensures var mine := OfKey(records, key);
            Get(Aggregate(records), key) == if mine == [] then None else Some(Fold(mine))
  {
    if records != [] {
      hide Combined, Margins, RoundedRoot, Square, Households, AddTo, Put;
      var init, rec := records[..|records| - 1], records[|records| - 1];
      BucketExact(init, key);
      NothingCombined();
      var m := Aggregate(init);
      GetPut(m, rec.key, AddTo(GetOr(m, rec.key, EMPTY), rec), key);
      if rec.key == key {
        AppendRecord(OfKey(init, key), rec);
        AddToFold(OfKey(init, key), rec);
      } else {
        assert OfKey(records, key) == OfKey(init, key);
      }
    }
  }

  lemma AddToFold(records: seq<Record>, rec: Record)
    ensures AddTo(Fold(records), rec) == Fold(records + [rec])
  {
    hide Combined, Margins, RoundedRoot, Square, Households;
    AppendRecord(records, rec);
  }

  lemma NothingCombined()
    ensures Fold([]) == EMPTY
  {
    assert Margins([]) == [];
  }

  function TotalOf(m: Entries<string, Bucket>): int {
    if m == [] then 0 else m[0].1.total + TotalOf(m[1..])
  }

  lemma {:induction false} PutTotal(m: Entries<string, Bucket>, key: string, b: Bucket)
    ensures TotalOf(Put(m, key, b)) == TotalOf(m) - GetOr(m, key, EMPTY).total + b.total
  {
    if m == [] {
      assert [(key, b)][1..] == [];
    } else if m[0].0 == key {
      assert ([(key, b)] + m[1..])[1..] == m[1..];
    } else {
      PutTotal(m[1..], key, b);
      assert ([m[0]] + Put(m[1..], key, b))[1..] == Put(m[1..], key, b);
    }
  }

  /** No household is lost or counted twice, and no bucket appears twice. */
  lemma {:induction false} TotalsConserved(records: seq<Record>)
    ensures TotalOf(Aggregate(records)) == Households(records) && Distinct(Keys(Aggregate(records)))
  {
    if records != [] {
      hide Distinct, Keys, RoundedRoot;
      var init, rec := records[..|records| - 1], records[|records| - 1];
      TotalsConserved(init);
      var m := Aggregate(init);
      PutTotal(m, rec.key, AddTo(GetOr(m, rec.key, EMPTY), rec));
      PutDistinct(m, rec.key, AddTo(GetOr(m, rec.key, EMPTY), rec));
    } else {
      NoKeys();
    }
  }

  lemma NoKeys()
    ensures Distinct(Keys<string, Bucket>([]))
  {}
}
