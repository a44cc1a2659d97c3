// src/connectors/censusLoader.ts: what single records do to the buckets.
module CensusLaws {
  import opened Numbers
  import opened Sequences
  import opened OrderedMap
  import opened Census

  lemma RootOfSquare(m: int)
    ensures RoundedRoot(Square(m)) == if m >= 0 then m else -m
  {
    assert Square(m) == Square(Abs(m));
    RootAgainstSquare(Square(Abs(m)), Abs(m));
  }

  /** The first record of a bucket gives it its own households and margin; one without a margin counts as 0. */
  lemma FirstRecord(rec: Record)
    ensures Get(Aggregate([rec]), rec.key) ==
            Some(Bucket(rec.households, if rec.margin.None? then 0 else if rec.margin.value >= 0 then rec.margin.value else -rec.margin.value))
  {
    assert [rec][..0] == [];
    hide RoundedRoot;
    RootOfSquare(MarginOf(rec));
    assert Square(0) == 0;
    GetPut([], rec.key, AddTo(EMPTY, rec), rec.key);
  }

  /** One more record adds its households to its own bucket and to no other.  The new margin is the rounded
      root of the two squares. */
  lemma NextRecord(records: seq<Record>, rec: Record, key: string) returns (margin: int)
    ensures margin == if rec.margin.None? then 0 else rec.margin.value
    ensures key != rec.key ==> Get(Aggregate(records + [rec]), key) == Get(Aggregate(records), key)
    ensures var before, after := GetOr(Aggregate(records), rec.key, Bucket(0, 0)), Get(Aggregate(records + [rec]), rec.key);
            && after.Some? && after.value.total == before.total + rec.households
            && IsRoundedRoot(before.moe * before.moe + margin * margin, after.value.moe)
            && (margin == 0 ==> after.value.moe == before.moe)
  {
    margin := MarginOf(rec);
    assert (records + [rec])[..|records|] == records;
    var m := Aggregate(records);
    var before := GetOr(m, rec.key, EMPTY);
    GetPut(m, rec.key, AddTo(before, rec), key);
    GetPut(m, rec.key, AddTo(before, rec), rec.key);
    hide Aggregate, Put, Get, RoundedRoot;
    RootOfSquare(before.moe);
  }

  /** Margins of 3 and 4 combine to 5. */
  lemma ThreeFourFive(key: string, a: int, b: int)
    ensures Get(Aggregate([Record(key, a, Some(3)), Record(key, b, Some(4))]), key) == Some(Bucket(a + b, 5))
  {
    var r, s := Record(key, a, Some(3)), Record(key, b, Some(4));
    FirstRecord(r);
    assert [r] + [s] == [r, s];
    hide Aggregate, RoundedRoot;
    var margin := NextRecord([r], s, key);
  }

  /** What "the nearest integer to the root" means, in squares. */
  lemma NearestRoot(k: nat, r: nat)
    ensures IsRoundedRoot(k, r) <==> 4 * k <= (2 * r + 1) * (2 * r + 1) && (r > 0 ==> (2 * r - 1) * (2 * r - 1) < 4 * k)
  {
    assert (2 * r + 1) * (2 * r + 1) == 4 * (r * r + r) + 1;
    assert (2 * r - 1) * (2 * r - 1) == 4 * (r * r - r) + 1;
  }

  /** The records of a key are those that a scan finds; sums of households, squares and sizes go record by record. */
  lemma {:induction false} OfKeyIsScan(records: seq<Record>, key: string)
    ensures OfKey(records, key) == Filter(records, (r: Record) => r.key == key)
  {
    if records != [] {
      OfKeyIsScan(records[..|records| - 1], key);
    }
  }

  lemma SumsLaw(records: seq<Record>, rec: Record, ms: seq<int>, m: int)
    ensures Households([]) == 0 && Households(records + [rec]) == Households(records) + rec.households
    ensures SumOfSquares([]) == 0 && SumOfSquares(ms + [m]) == SumOfSquares(ms) + m * m
    ensures SumOfAbs([]) == 0 && SumOfAbs(ms + [m]) == SumOfAbs(ms) + if m >= 0 then m else -m
  {
    assert (records + [rec])[..|records|] == records;
    assert (ms + [m])[..|ms|] == ms;
  }

  /** The buckets stand in the order in which their keys first occur. */
  lemma NextKey(records: seq<Record>, rec: Record)
    ensures Keys(Aggregate([])) == []
    ensures Keys(Aggregate(records + [rec])) ==
            if exists i :: 0 <= i < |records| && records[i].key == rec.key then Keys(Aggregate(records)) else Keys(Aggregate(records)) + [rec.key]
  {
    assert (records + [rec])[..|records|] == records;
    var m := Aggregate(records);
    KeysPut(m, rec.key, AddTo(GetOr(m, rec.key, EMPTY), rec));
    GetIsKey(m, rec.key);
    BucketExact(records, rec.key);
    hide Put, Get, Keys, RoundedRoot, Aggregate, OfKey;
    OfKeyIsScan(records, rec.key);
    ScanFinds(records, rec.key);
  }

  lemma ScanFinds(records: seq<Record>, key: string)
    ensures Filter(records, (r: Record) => r.key == key) != [] <==> exists i :: 0 <= i < |records| && records[i].key == key
  {
    var found := Filter(records, (r: Record) => r.key == key);
    if found != [] {
      assert found[0] in found;
      var i :| 0 <= i < |records| && records[i] == found[0];
    }
    if i :| 0 <= i < |records| && records[i].key == key {
      assert records[i] in found;
    }
  }
}
