// src/analytics/audienceMath.ts: pairwise overlap, set-operation reach folds,
// concentration and the journey funnel.
module AudienceMath {
  import opened Numbers
  import opened Sequences

  datatype Signal = Signal(signalId: string, category: string, size: Option<real>)

  function Reach(s: Signal): real {
    if s.size.Some? then s.size.value else 0.0
  }

  function PairOverlap(a: Signal, b: Signal): real {
    var ra, rb := Reach(a), Reach(b);
    if ra == 0.0 || rb == 0.0 then 0.0
    else
      var aff := if a.category == b.category then 0.55 else 0.20;
      aff * (Min(ra, rb) / Max(ra, rb)) * Min(ra, rb)
  }

  function PoolOverlap(next: Signal, pool: seq<Signal>): real {
    if pool == [] then 0.0
    else PoolOverlap(next, pool[..|pool| - 1]) + PairOverlap(next, pool[|pool| - 1])
  }

  // ---------------------------------------------------------------------
  // Union
  // ---------------------------------------------------------------------

  /** The unrounded inclusion-exclusion union, in list order. */
  function UnionSum(ss: seq<Signal>): real {
    if ss == [] then 0.0
    else if |ss| == 1 then Reach(ss[0])
    else
      var n := |ss| - 1;
      UnionSum(ss[..n]) + Max(0.0, Reach(ss[n]) - PoolOverlap(ss[n], ss[..n]))
  }

  function UnionReach(ss: seq<Signal>): int {
    Round(UnionSum(ss))
  }

  method ComputeUnionReach(ss: seq<Signal>) returns (r: int)
    ensures r == UnionReach(ss)
  {
    if |ss| == 0 {
      return 0;
    }
    var acc := Reach(ss[0]);
    var pool := [ss[0]];
    assert ss[..1] == pool;
    for i := 1 to |ss|
      invariant pool == ss[..i] && acc == UnionSum(ss[..i])
    {
      var next := ss[i];
      var overlap := 0.0;
      for j := 0 to |pool|
        invariant overlap == PoolOverlap(next, pool[..j])
      {
        assert pool[..j + 1][..j] == pool[..j];
        overlap := overlap + PairOverlap(next, pool[j]);
      }
      assert pool[..|pool|] == pool;
      assert ss[..i + 1][..i] == ss[..i];
      acc := acc + Max(0.0, Reach(next) - overlap);
      pool := pool + [next];
    }
    assert ss[..|ss|] == ss;
    r := Round(acc);
  }

  lemma PairOverlapBounds(a: Signal, b: Signal)
    requires Reach(a) >= 0.0 && Reach(b) >= 0.0
    ensures 0.0 <= PairOverlap(a, b) <= 0.55 * Min(Reach(a), Reach(b))
  {
    var ra, rb := Reach(a), Reach(b);
    if ra != 0.0 && rb != 0.0 {
      var lo, hi := Min(ra, rb), Max(ra, rb);
      var aff := if a.category == b.category then 0.55 else 0.20;
      DivBounds(lo, hi, 0.0);
      DivBounds(lo, hi, 1.0);
      MulNonNegative(aff, lo / hi);
      MulNonNegative(aff * (lo / hi), lo);
      MulMonotone(aff * (lo / hi), 0.55, lo);
    }
  }

  lemma PairOverlapProduct(a: Signal, b: Signal)
    requires Reach(a) >= 0.0 && Reach(b) >= 0.0
    ensures PairOverlap(a, b) * Max(Reach(a), Reach(b)) <= 0.55 * (Min(Reach(a), Reach(b)) * Min(Reach(a), Reach(b)))
  {
    var ra, rb := Reach(a), Reach(b);
    if ra != 0.0 && rb != 0.0 {
      var lo, hi := Min(ra, rb), Max(ra, rb);
      var aff := if a.category == b.category then 0.55 else 0.20;
      var q := lo / hi;
      DivBounds(lo, hi, 0.0);
      calc {
        aff * q * lo * hi;
        aff * lo * (q * hi);
        aff * (lo * lo);
      }
      MulNonNegative(lo, lo);
      MulMonotone(aff, 0.55, lo * lo);
    }
  }

  ghost predicate NonNegativeReach(ss: seq<Signal>) {
    forall s :: s in ss ==> Reach(s) >= 0.0
  }

  lemma {:induction false} PoolOverlapNonNegative(next: Signal, pool: seq<Signal>)
    requires Reach(next) >= 0.0 && NonNegativeReach(pool)
    ensures PoolOverlap(next, pool) >= 0.0
  {
    if pool != [] {
      PoolOverlapNonNegative(next, pool[..|pool| - 1]);
      PairOverlapBounds(next, pool[|pool| - 1]);
    }
  }

  /** The union is at least its first member and at most the sum of all. */
  lemma {:induction false} UnionBounds(ss: seq<Signal>)
    requires NonNegativeReach(ss)
    ensures ss != [] ==> Reach(ss[0]) <= UnionSum(ss)
    ensures 0.0 <= UnionSum(ss) <= SumBy(ss, Reach)
  {
    if |ss| == 1 {
      assert SumBy(ss[..0], Reach) == 0.0;
    } else if |ss| > 1 {
      var n := |ss| - 1;
      UnionBounds(ss[..n]);
      PoolOverlapNonNegative(ss[n], ss[..n]);
    }
  }

  lemma {:induction false} UnionGrows(ss: seq<Signal>, k: nat)
    requires 1 <= k <= |ss|
    ensures UnionSum(ss[..k]) <= UnionSum(ss)
  {
    if k == |ss| {
      assert ss[..k] == ss;
    } else {
      var n := |ss| - 1;
      UnionGrows(ss[..n], k);
      assert ss[..n][..k] == ss[..k];
    }
  }

  // ---------------------------------------------------------------------
  // The union of up to four signals is at least its largest member.  A further member r adds
  // max(0, r - overlap); for the union to stay below r the overlap, at most
  // 0.55 * (sum of squares) / r, must exceed the union so far.
  // ---------------------------------------------------------------------

  function Square(s: Signal): real {
    Reach(s) * Reach(s)
  }

  ghost predicate Covers(u: real, ss: seq<Signal>) {
    forall s :: s in ss ==> Reach(s) <= u
  }

  lemma PoolOverlapAppend(next: Signal, pool: seq<Signal>, p: Signal)
    ensures PoolOverlap(next, pool + [p]) == PoolOverlap(next, pool) + PairOverlap(next, p)
  {
    assert (pool + [p])[..|pool|] == pool;
  }

  lemma UnionAppend(ss: seq<Signal>, x: Signal)
    requires ss != []
    ensures UnionSum(ss + [x]) == UnionSum(ss) + Max(0.0, Reach(x) - PoolOverlap(x, ss))
  {
    assert (ss + [x])[..|ss|] == ss;
  }

  lemma PairOverlapOfLargest(next: Signal, p: Signal)
    requires 0.0 <= Reach(p) <= Reach(next)
    ensures PairOverlap(next, p) * Reach(next) <= 0.55 * Square(p)
  {
    PairOverlapProduct(next, p);
  }

  lemma {:induction false} PoolOverlapOfLargest(next: Signal, pool: seq<Signal>)
    requires NonNegativeReach(pool) && Covers(Reach(next), pool)
    ensures PoolOverlap(next, pool) * Reach(next) <= 0.55 * SumBy(pool, Square)
  {
    hide PairOverlap, Square;
    if pool != [] {
      var n := |pool| - 1;
      PoolOverlapOfLargest(next, pool[..n]);
      PairOverlapOfLargest(next, pool[n]);
      Distribute(PoolOverlap(next, pool[..n]), PairOverlap(next, pool[n]), Reach(next));
    }
  }

  lemma Distribute(x: real, y: real, z: real)
    ensures (x + y) * z == x * z + y * z
  {}

  /** u: the union so far; b: the next reach; o: its overlap; q: the sum of squares so far. */
  lemma CoverStep(u: real, b: real, o: real, q: real)
    requires 0.0 <= u && 0.55 * q <= u * u
    requires u < b ==> o * b <= 0.55 * q
    ensures u + Max(0.0, b - o) >= b
  {
    if u < b {
      MulMonotone(u, b, u);
      assert o * b <= u * u <= u * b;
      Cancel(o, u, b);
    }
  }

  lemma Cancel(x: real, y: real, b: real)
    requires b > 0.0 && x * b <= y * b
    ensures x <= y
  {
    if x > y {
      MulPositive(x - y, b);
      Distribute(x, -y, b);
    }
  }

  lemma CoverNext(ss: seq<Signal>, x: Signal)
    requires ss != [] && NonNegativeReach(ss) && Reach(x) >= 0.0
    requires Covers(UnionSum(ss), ss) && RoomAbove(ss)
    ensures Covers(UnionSum(ss + [x]), ss + [x])
  {
    hide PairOverlap, Square, SumBy, PoolOverlap, UnionSum;
    UnionBounds(ss);
    if UnionSum(ss) < Reach(x) {
      PoolOverlapOfLargest(x, ss);
    }
    CoverStep(UnionSum(ss), Reach(x), PoolOverlap(x, ss), SumBy(ss, Square));
    UnionAppend(ss, x);
  }

  /** a >= b >= d are three reaches and u a lower bound that leaves room above the largest. */
  lemma Energy(a: real, b: real, d: real, u: real)
    requires a >= b >= d >= 0.0 && u >= a + 0.35 * b
    ensures u * u >= 0.55 * (a * a + b * b + d * d)
  {
    var w := a + 0.35 * b;
    var aa, ab, bb, dd := a * a, a * b, b * b, d * d;
    assert aa >= ab && ab >= bb by {
      MulMonotone(b, a, a);
      MulMonotone(b, a, b);
    }
    assert bb >= dd >= 0.0 by {
      MulMonotone(d, b, d);
      MulMonotone(d, b, b);
      MulNonNegative(d, d);
    }
    assert u * u >= w * w by {
      MulMonotone(w, u, w);
      MulMonotone(w, u, u);
    }
    assert w * w == aa + 0.7 * ab + 0.1225 * bb by {
      Distribute(a, 0.35 * b, w);
    }
  }

  lemma PairUnion(ss: seq<Signal>)
    requires |ss| == 2 && NonNegativeReach(ss)
    ensures UnionSum(ss) >= Max(Reach(ss[0]), Reach(ss[1])) + 0.45 * Min(Reach(ss[0]), Reach(ss[1]))
  {
    assert ss[..1] == [ss[0]];
    assert [ss[0]][..0] == [];
    assert PoolOverlap(ss[1], [ss[0]]) == PairOverlap(ss[1], ss[0]);
    PairOverlapBounds(ss[1], ss[0]);
  }

  lemma TripleUnionBound(x: Signal, y: Signal, z: Signal)
    requires Reach(x) >= 0.0 && Reach(y) >= 0.0 && Reach(z) >= 0.0
    ensures var hi, lo, c, u := Max(Reach(x), Reach(y)), Min(Reach(x), Reach(y)), Reach(z), UnionSum([x, y, z]);
            && (c >= hi ==> u >= c + 0.35 * hi)
            && (hi > c > lo ==> u >= hi + 0.35 * c)
            && (c <= lo ==> u >= hi + 0.35 * lo)
  {
    assert PoolOverlap(z, []) == 0.0;
    hide PairOverlap, UnionSum, PoolOverlap;
    PairUnion([x, y]);
    UnionAppend([x, y], z);
    assert [x, y] + [z] == [x, y, z] && [x] + [y] == [x, y] && [] + [x] == [x];
    PoolOverlapAppend(z, [x], y);
    PoolOverlapAppend(z, [], x);
    PairOverlapBounds(z, x);
    PairOverlapBounds(z, y);
  }

  lemma TripleUnion(x: Signal, y: Signal, z: Signal)
    requires Reach(x) >= 0.0 && Reach(y) >= 0.0 && Reach(z) >= 0.0
    ensures 0.55 * (Square(x) + Square(y) + Square(z)) <= UnionSum([x, y, z]) * UnionSum([x, y, z])
  {
    hide UnionSum, PoolOverlap, PairOverlap;
    TripleUnionBound(x, y, z);
    var hi, lo, c := Max(Reach(x), Reach(y)), Min(Reach(x), Reach(y)), Reach(z);
    var u := UnionSum([x, y, z]);
    if c >= hi {
      Energy(c, hi, lo, u);
    } else if c > lo {
      Energy(hi, c, lo, u);
    } else {
      Energy(hi, lo, c, u);
    }
  }

  lemma SumOfSquares(x: Signal, y: Signal, z: Signal)
    ensures SumBy([x], Square) == Square(x)
    ensures SumBy([x, y], Square) == Square(x) + Square(y)
    ensures SumBy([x, y, z], Square) == Square(x) + Square(y) + Square(z)
  {
    assert [] + [x] == [x] && [x] + [y] == [x, y] && [x, y] + [z] == [x, y, z];
    assert SumBy([], Square) == 0.0;
    hide Square, SumBy;
    SumByAppend([], x, Square);
    SumByAppend([x], y, Square);
    SumByAppend([x, y], z, Square);
  }

  /** A further member, however large, overlaps no more than the union so far. */
  ghost predicate RoomAbove(ss: seq<Signal>) {
    0.55 * SumBy(ss, Square) <= UnionSum(ss) * UnionSum(ss)
  }

  lemma RoomAboveOne(x: Signal)
    requires Reach(x) >= 0.0
    ensures RoomAbove([x])
  {
    SumOfSquares(x, x, x);
    MulNonNegative(Reach(x), Reach(x));
  }

  lemma RoomAboveTwo(x: Signal, y: Signal)
    requires Reach(x) >= 0.0 && Reach(y) >= 0.0
    ensures RoomAbove([x, y])
  {
    PairUnion([x, y]);
    hide UnionSum, PoolOverlap, PairOverlap, SumBy;
    SumOfSquares(x, y, y);
    Energy(Max(Reach(x), Reach(y)), Min(Reach(x), Reach(y)), 0.0, UnionSum([x, y]));
  }

  lemma RoomAboveThree(x: Signal, y: Signal, z: Signal)
    requires Reach(x) >= 0.0 && Reach(y) >= 0.0 && Reach(z) >= 0.0
    ensures RoomAbove([x, y, z])
  {
    hide UnionSum, PoolOverlap, PairOverlap, Square, SumBy;
    SumOfSquares(x, y, z);
    TripleUnion(x, y, z);
  }

  lemma RoomAboveUpToThree(ss: seq<Signal>)
    requires 1 <= |ss| <= 3 && NonNegativeReach(ss)
    ensures RoomAbove(ss)
  {
    hide RoomAbove;
    if |ss| == 1 {
      RoomAboveOne(ss[0]);
      assert ss == [ss[0]];
    } else if |ss| == 2 {
      RoomAboveTwo(ss[0], ss[1]);
      assert ss == [ss[0], ss[1]];
    } else {
      RoomAboveThree(ss[0], ss[1], ss[2]);
      assert ss == [ss[0], ss[1], ss[2]];
    }
  }

  /** Up to four signals: the union reaches at least as many as its largest member. */
  lemma {:induction false} UnionCoversLargest(ss: seq<Signal>)
    requires 1 <= |ss| <= 4 && NonNegativeReach(ss)
    ensures Covers(UnionSum(ss), ss)
  {
    if |ss| >= 2 {
      var init, x := ss[..|ss| - 1], ss[|ss| - 1];
      assert ss == init + [x];
      UnionCoversLargest(init);
      RoomAboveUpToThree(init);
      hide RoomAbove, UnionSum;
      CoverNext(init, x);
    }
  }

  function Sized(r: real): Signal {
    Signal("", "interest", Some(r))
  }

  function Zeros(n: nat): seq<Signal> {
    if n == 0 then [] else Zeros(n - 1) + [Sized(0.0)]
  }

  lemma {:induction false} ZerosAreZero(n: nat)
    ensures |Zeros(n)| == n && forall s :: s in Zeros(n) ==> Reach(s) == 0.0
  {
    if n > 0 {
      ZerosAreZero(n - 1);
    }
  }

  lemma {:induction false} ZerosAddNothing(ss: seq<Signal>, n: nat)
    requires ss != []
    ensures UnionSum(ss + Zeros(n)) == UnionSum(ss)
  {
    hide UnionSum, PoolOverlap;
    if n == 0 {
      assert ss + Zeros(0) == ss;
    } else {
      ZerosAddNothing(ss, n - 1);
      var before := ss + Zeros(n - 1);
      assert ss + Zeros(n) == before + [Sized(0.0)];
      UnionAppend(before, Sized(0.0));
      ZeroOverlap(Sized(0.0), before);
    }
  }

  lemma {:induction false} ZeroOverlap(z: Signal, pool: seq<Signal>)
    requires Reach(z) == 0.0
    ensures PoolOverlap(z, pool) == 0.0
  {
    if pool != [] {
      ZeroOverlap(z, pool[..|pool| - 1]);
    }
  }

  function Shrinking(): seq<Signal> {
    [Sized(100.0), Sized(100.0), Sized(100.0), Sized(128.0), Sized(158.0)]
  }

  lemma SizedOverlaps()
    ensures PairOverlap(Sized(100.0), Sized(100.0)) == 55.0
    ensures PairOverlap(Sized(128.0), Sized(100.0)) > 42.9
    ensures PairOverlap(Sized(158.0), Sized(100.0)) > 34.8
    ensures PairOverlap(Sized(158.0), Sized(128.0)) > 57.0
  {
    assert PairOverlap(Sized(128.0), Sized(100.0)) == 0.55 * (100.0 / 128.0) * 100.0;
    assert PairOverlap(Sized(158.0), Sized(100.0)) == 0.55 * (100.0 / 158.0) * 100.0;
    assert PairOverlap(Sized(158.0), Sized(128.0)) == 0.55 * (128.0 / 158.0) * 128.0;
  }

  lemma TripleOverlap(x: Signal, a: Signal)
    ensures PoolOverlap(x, [a]) == PairOverlap(x, a)
    ensures PoolOverlap(x, [a, a]) == 2.0 * PairOverlap(x, a)
    ensures PoolOverlap(x, [a, a, a]) == 3.0 * PairOverlap(x, a)
  {
    PoolOverlapAppend(x, [], a);
    PoolOverlapAppend(x, [a], a);
    PoolOverlapAppend(x, [a, a], a);
    assert [] + [a] == [a] && [a] + [a] == [a, a] && [a, a] + [a] == [a, a, a];
  }

  /** With five members the bound is lost: 100, 100, 100, 128, 158 give a union of 145. */
  lemma FiveShrink()
    ensures UnionSum(Shrinking()) == 145.0
  {
    var a, b, c := Sized(100.0), Sized(128.0), Sized(158.0);
    assert UnionSum([a]) == 100.0;
    SizedOverlaps();
    hide PairOverlap, UnionSum, PoolOverlap;
    assert [a] + [a] == [a, a] && [a, a] + [a] == [a, a, a];
    assert [a, a, a] + [b] == [a, a, a, b] && [a, a, a, b] + [c] == Shrinking();
    TripleOverlap(a, a);
    TripleOverlap(b, a);
    TripleOverlap(c, a);
    PoolOverlapAppend(c, [a, a, a], b);
    UnionAppend([a], a);
    UnionAppend([a, a], a);
    UnionAppend([a, a, a], b);
    UnionAppend([a, a, a, b], c);
  }

  ghost predicate AlwaysCovers(n: nat) {
    forall ss :: |ss| == n && NonNegativeReach(ss) ==> Covers(UnionSum(ss), ss)
  }

  /** The exact condition: the union of n signals is never below its largest member
      if and only if n is at most four. */
  lemma UnionCoversLargestIff(n: nat)
    requires n >= 1
    ensures AlwaysCovers(n) <==> n <= 4
  {
    if n <= 4 {
      forall ss | |ss| == n && NonNegativeReach(ss) ensures Covers(UnionSum(ss), ss) {
        UnionCoversLargest(ss);
      }
    } else {
      ShrinkingWitness(n);
    }
  }

  lemma WitnessShape(n: nat)
    ensures var ss := Shrinking() + Zeros(n); |ss| == n + 5 && NonNegativeReach(ss) && Sized(158.0) in ss
  {
    ZerosAreZero(n);
    hide Zeros;
    var ss := Shrinking() + Zeros(n);
    assert ss[4] == Sized(158.0);
  }

  lemma ShrinkingWitness(n: nat)
    requires n >= 5
    ensures !AlwaysCovers(n)
  {
    WitnessShape(n - 5);
    FiveShrink();
    ZerosAddNothing(Shrinking(), n - 5);
    hide UnionSum, Zeros, PoolOverlap, PairOverlap, Shrinking, NonNegativeReach;
    assert !Covers(UnionSum(Shrinking() + Zeros(n - 5)), Shrinking() + Zeros(n - 5));
  }

  // ---------------------------------------------------------------------
  // What unionReach returns, for head counts
  // ---------------------------------------------------------------------

  ghost predicate Count(x: real) {
    IsInteger(x) && x >= 0.0
  }

  ghost predicate AllCounts(ss: seq<Signal>) {
    forall s :: s in ss ==> Count(Reach(s))
  }

  lemma CountsNonNegative(ss: seq<Signal>)
    requires AllCounts(ss)
    ensures NonNegativeReach(ss)
  {}

  lemma UnionCount(ss: seq<Signal>)
    requires AllCounts(ss)
    ensures Count(UnionReach(ss) as real) && UnionReach(ss) as real <= SumBy(ss, Reach)
    ensures forall s :: s in ss && Reach(s) <= UnionSum(ss) ==> Reach(s) <= UnionReach(ss) as real
  {
    CountsNonNegative(ss);
    UnionBounds(ss);
    SumIsCount(ss);
    hide UnionSum, SumBy;
    RoundWithin(UnionSum(ss), SumBy(ss, Reach).Floor);
    RoundWithin(UnionSum(ss), 0);
    forall s | s in ss && Reach(s) <= UnionSum(ss) ensures Reach(s) <= UnionReach(ss) as real {
      RoundWithin(UnionSum(ss), Reach(s).Floor);
    }
  }

  lemma {:induction false} SumIsCount(ss: seq<Signal>)
    requires AllCounts(ss)
    ensures Count(SumBy(ss, Reach))
  {
    if ss != [] {
      var n := |ss| - 1;
      SumIsCount(ss[..n]);
      CountAdd(SumBy(ss[..n], Reach), Reach(ss[n]));
      hide Count;
    }
  }

  lemma CountAdd(a: real, b: real)
    requires Count(a) && Count(b)
    ensures Count(a + b)
  {
    assert a + b == (a.Floor + b.Floor) as real;
  }

  /** For head counts the reported union is at least its first member and at most the sum of all. */
  lemma UnionReachBounds(ss: seq<Signal>)
    requires AllCounts(ss) && ss != []
    ensures Reach(ss[0]) <= UnionReach(ss) as real <= SumBy(ss, Reach)
  {
    CountsNonNegative(ss);
    UnionBounds(ss);
    UnionCount(ss);
    assert ss[0] in ss;
  }

  /** Further members never lower the reported union, whatever the reaches. */
  lemma UnionReachGrows(ss: seq<Signal>, k: nat)
    requires 1 <= k <= |ss|
    ensures UnionReach(ss[..k]) <= UnionReach(ss)
  {
    UnionGrows(ss, k);
    RoundMonotone(UnionSum(ss[..k]), UnionSum(ss));
  }

  ghost predicate ReportedCovers(n: nat) {
    forall ss :: |ss| == n && AllCounts(ss) ==> Covers(UnionReach(ss) as real, ss)
  }

  /** The reported union of n head counts is never below its largest member if and only if n <= 4. */
  lemma UnionReachCoversIff(n: nat)
    requires n >= 1
    ensures ReportedCovers(n) <==> n <= 4
  {
    hide UnionSum, PoolOverlap, SumBy;
    if n <= 4 {
      forall ss | |ss| == n && AllCounts(ss) ensures Covers(UnionReach(ss) as real, ss) {
        CountsNonNegative(ss);
        UnionCoversLargest(ss);
        UnionCount(ss);
      }
    } else {
      var ss := Shrinking() + Zeros(n - 5);
      WitnessReported(n - 5);
      assert !Covers(UnionReach(ss) as real, ss);
    }
  }

  lemma WitnessReported(n: nat)
    ensures var ss := Shrinking() + Zeros(n);
            |ss| == n + 5 && AllCounts(ss) && UnionReach(ss) == 145 && Sized(158.0) in ss
  {
    FiveShrink();
    ZerosAddNothing(Shrinking(), n);
    ZerosAreZero(n);
    WitnessShape(n);
    WitnessCounts();
    hide UnionSum, Zeros, PoolOverlap, Shrinking, PairOverlap, NonNegativeReach;
    var ss := Shrinking() + Zeros(n);
    forall s | s in ss ensures Count(Reach(s)) {
      assert s in Shrinking() || s in Zeros(n);
    }
    assert UnionSum(ss) == 145.0;
  }

  lemma WitnessCounts()
    ensures AllCounts(Shrinking())
  {}

  // ---------------------------------------------------------------------
  // Intersection and exclusion
  // ---------------------------------------------------------------------

  /** The share of the running reach r that a signal of reach b keeps. */
  function KeepRate(r: real, b: real, overlap: real): real {
    Max(0.0, Min(1.0, if r > 0.0 && b > 0.0 then overlap / Min(r, b) else 0.0))
  }

  function Decayed(r: real, b: real, overlap: real): real {
    Round(r * KeepRate(r, b, overlap)) as real
  }

  /** One step of the intersection fold: the running reach r, carried by a proxy of the
      base signal's category, against the next signal. */
  function IntersectStep(r: real, category: string, next: Signal): real {
    Decayed(r, Reach(next), PairOverlap(Signal("", category, Some(r)), next))
  }

  function IntersectFold(base: real, category: string, ss: seq<Signal>): real {
    if ss == [] then base
    else IntersectStep(IntersectFold(base, category, ss[..|ss| - 1]), category, ss[|ss| - 1])
  }

  function IntersectReach(base: real, template: Option<Signal>, ss: seq<Signal>): real {
    if ss == [] || template.None? then base else IntersectFold(base, template.value.category, ss)
  }

  method ComputeIntersectReach(base: real, template: Option<Signal>, ss: seq<Signal>) returns (r: real)
    ensures r == IntersectReach(base, template, ss)
  {
    if |ss| == 0 || template.None? {
      return base;
    }
    hide PairOverlap, Decayed;
    r := base;
    for i := 0 to |ss|
      invariant r == IntersectFold(base, template.value.category, ss[..i])
    {
      assert ss[..i + 1][..i] == ss[..i];
      var baseProxy := Signal("", template.value.category, Some(r));
      r := Decayed(r, Reach(ss[i]), PairOverlap(baseProxy, ss[i]));
    }
    assert ss[..|ss|] == ss;
  }

  function ExcludeFold(base: real, baseSet: seq<Signal>, ss: seq<Signal>): real {
    if ss == [] then base
    else Max(0.0, ExcludeFold(base, baseSet, ss[..|ss| - 1]) - Round(PoolOverlap(ss[|ss| - 1], baseSet)) as real)
  }

  function ExcludeReach(base: real, baseSet: seq<Signal>, ss: seq<Signal>): real {
    if ss == [] || baseSet == [] then base else ExcludeFold(base, baseSet, ss)
  }

  method ComputeExcludeReach(base: real, baseSet: seq<Signal>, ss: seq<Signal>) returns (r: real)
    ensures r == ExcludeReach(base, baseSet, ss)
  {
    if |ss| == 0 || |baseSet| == 0 {
      return base;
    }
    r := base;
    for i := 0 to |ss|
      invariant r == ExcludeFold(base, baseSet, ss[..i])
    {
      assert ss[..i + 1][..i] == ss[..i];
      var overlap := 0.0;
      for j := 0 to |baseSet|
        invariant overlap == PoolOverlap(ss[i], baseSet[..j])
      {
        assert baseSet[..j + 1][..j] == baseSet[..j];
        overlap := overlap + PairOverlap(ss[i], baseSet[j]);
      }
      assert baseSet[..|baseSet|] == baseSet;
      r := Max(0.0, r - Round(overlap) as real);
    }
    assert ss[..|ss|] == ss;
  }

  /** What the overlap of two positive reaches satisfies. */
  ghost predicate OverlapOf(r: real, b: real, overlap: real) {
    && 0.0 <= overlap <= 0.55 * Min(r, b)
    && overlap * Max(r, b) <= 0.55 * (Min(r, b) * Min(r, b))
  }

  /** One intersection step keeps at most 55% of the smaller side, rounded. */
  lemma IntersectStepBounds(r: real, category: string, next: Signal)
    requires Count(r) && Count(Reach(next))
    ensures Count(IntersectStep(r, category, next))
    ensures IntersectStep(r, category, next) <= Min(r, Reach(next))
  {
    var proxy := Signal("", category, Some(r));
    PairOverlapBounds(proxy, next);
    PairOverlapProduct(proxy, next);
    assert OverlapOf(r, Reach(next), PairOverlap(proxy, next));
    hide PairOverlap, OverlapOf, Decayed;
    DecayedBounds(r, Reach(next), PairOverlap(proxy, next));
  }

  lemma DecayedBounds(r: real, b: real, overlap: real)
    requires Count(r) && Count(b) && OverlapOf(r, b, overlap)
    ensures Count(Decayed(r, b, overlap)) && Decayed(r, b, overlap) <= Min(r, b)
  {
    KeepWithin(r, b, overlap);
    hide OverlapOf, KeepRate;
    RoundCount(r * KeepRate(r, b, overlap), Min(r, b));
  }

  lemma KeepWithin(r: real, b: real, overlap: real)
    requires r >= 0.0 && b >= 0.0 && OverlapOf(r, b, overlap)
    ensures 0.0 <= r * KeepRate(r, b, overlap) <= Min(r, b)
  {
    if r > 0.0 && b > 0.0 {
      StepWithin(r, b, overlap, overlap / Min(r, b));
      hide OverlapOf;
      assert KeepRate(r, b, overlap) == overlap / Min(r, b);
    } else {
      assert KeepRate(r, b, overlap) == 0.0;
    }
  }

  lemma RoundCount(x: real, m: real)
    requires 0.0 <= x <= m && Count(m)
    ensures Count(Round(x) as real) && Round(x) as real <= m
  {
    RoundWithin(x, m.Floor);
    RoundWithin(x, 0);
  }

  lemma StepWithin(r: real, b: real, overlap: real, rate: real)
    requires r > 0.0 && b > 0.0 && rate == overlap / Min(r, b) && OverlapOf(r, b, overlap)
    ensures 0.0 <= rate <= 1.0 && 0.0 <= r * rate <= Min(r, b)
  {
    var m := Min(r, b);
    DivBounds(overlap, m, 0.0);
    DivBounds(overlap, m, 1.0);
    MulNonNegative(r, rate);
    if r <= b {
      assert r * rate == overlap;
    } else {
      calc {
        (r * rate) * m;
        r * (rate * m);
        overlap * r;
      }
      MulNonNegative(m, m);
      Cancel(r * rate, m, m);
    }
  }

  lemma {:induction false} IntersectBounds(base: real, category: string, ss: seq<Signal>)
    requires Count(base) && forall s :: s in ss ==> Count(Reach(s))
    ensures var r := IntersectFold(base, category, ss);
            Count(r) && r <= base && forall s :: s in ss ==> r <= Reach(s)
  {
    if ss != [] {
      var n := |ss| - 1;
      IntersectBounds(base, category, ss[..n]);
      IntersectStepBounds(IntersectFold(base, category, ss[..n]), category, ss[n]);
      hide IntersectStep;
      assert ss == ss[..n] + [ss[n]];
    }
  }

  lemma {:induction false} ExcludeBounds(base: real, baseSet: seq<Signal>, ss: seq<Signal>)
    requires Count(base) && NonNegativeReach(baseSet) && NonNegativeReach(ss)
    ensures var r := ExcludeFold(base, baseSet, ss); Count(r) && r <= base
  {
    if ss != [] {
      var n := |ss| - 1;
      ExcludeBounds(base, baseSet, ss[..n]);
      PoolOverlapNonNegative(ss[n], baseSet);
      hide PoolOverlap;
      RoundWithin(PoolOverlap(ss[n], baseSet), 0);
      var r, o := ExcludeFold(base, baseSet, ss[..n]), Round(PoolOverlap(ss[n], baseSet));
      assert r - o as real == (r.Floor - o) as real;
    }
  }
}
