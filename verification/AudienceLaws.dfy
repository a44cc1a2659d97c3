// src/analytics/audienceMath.ts: the set operations on reaches in closed form.
module AudienceLaws {
  import opened Numbers
  import opened Sequences
  import opened AudienceMath

  /** 55% for signals of one category, 20% otherwise. */
  function Share(a: Signal, b: Signal): real {
    if a.category == b.category then 0.55 else 0.20
  }

  /** The overlap of two signals, without a quotient: overlap times the larger is the share of the smaller squared. */
  lemma PairOverlapLaw(a: Signal, b: Signal)
    requires Reach(a) > 0.0 && Reach(b) > 0.0
    ensures PairOverlap(a, b) * Max(Reach(a), Reach(b)) ==
            (if a.category == b.category then 0.55 else 0.20) * (Min(Reach(a), Reach(b)) * Min(Reach(a), Reach(b)))
  {
    var lo, hi := Min(Reach(a), Reach(b)), Max(Reach(a), Reach(b));
    DivBounds(lo, hi, 0.0);
    Requotient(Share(a, b), lo, hi, lo / hi);
  }

  lemma NoOverlap(a: Signal, b: Signal)
    requires Reach(a) == 0.0 || Reach(b) == 0.0
    ensures PairOverlap(a, b) == 0.0
  {}

  lemma {:induction false} PoolIsSum(next: Signal, pool: seq<Signal>)
    ensures PoolOverlap(next, pool) == SumBy(pool, (p: Signal) => PairOverlap(next, p))
  {
    hide PairOverlap;
    if pool != [] {
      PoolIsSum(next, pool[..|pool| - 1]);
    }
  }

  /** The union: the first member, then what each further member has beyond its overlaps with all before it. */
  lemma UnionTerms(ss: seq<Signal>, x: Signal)
    ensures UnionReach([]) == 0 && UnionReach([x]) == Round(Reach(x)) && UnionReach(ss) == Round(UnionSum(ss))
    ensures ss != [] ==>
              UnionSum(ss + [x]) == UnionSum(ss) + Max(0.0, Reach(x) - SumBy(ss, (p: Signal) => PairOverlap(x, p)))
  {
    PoolIsSum(x, ss);
    if ss != [] {
      UnionAppend(ss, x);
    }
  }

  // ---------------------------------------------------------------------
  // Intersection
  // ---------------------------------------------------------------------

  lemma KeptShare(share: real, base: real, lo: real, hi: real, overlap: real, next: real)
    requires base > 0.0 && next > 0.0 && lo == Min(base, next) && hi == Max(base, next)
    requires 0.0 <= share <= 1.0 && overlap == share * (lo / hi) * lo
    ensures base * KeepRate(base, next, overlap) * hi == share * (base * lo)
  {
    var q := lo / hi;
    DivBounds(lo, hi, 0.0);
    DivBounds(lo, hi, 1.0);
    assert q * hi == lo;
    MulMonotone(share, 1.0, q);
    MulNonNegative(share, q);
    var rate := share * q;
    CancelLo(rate, lo);
    assert KeepRate(base, next, overlap) == rate;
    assert base * rate * hi == share * base * (q * hi);
  }

  lemma CancelLo(rate: real, lo: real)
    requires lo > 0.0
    ensures rate * lo / lo == rate
  {}

  lemma FoldOne(base: real, category: string, next: Signal)
    ensures IntersectFold(base, category, []) == base
    ensures IntersectFold(base, category, [next]) == IntersectStep(base, category, next)
  {
    hide IntersectStep;
    assert [next][..0] == [];
  }

  lemma FoldAppend(base: real, category: string, ss: seq<Signal>, next: Signal)
    ensures IntersectFold(base, category, ss + [next]) == IntersectStep(IntersectFold(base, category, ss), category, next)
  {
    hide IntersectStep;
    assert (ss + [next])[..|ss|] == ss;
  }

  lemma StepUnfolds(base: real, category: string, next: Signal)
    ensures IntersectStep(base, category, next) ==
            Decayed(base, Reach(next), PairOverlap(Signal("", category, Some(base)), next))
  {
    hide Decayed, PairOverlap, Reach;
  }

  lemma DecayedIs(r: real, b: real, overlap: real)
    ensures Decayed(r, b, overlap) == Round(r * KeepRate(r, b, overlap)) as real
  {
    hide KeepRate, Round;
  }

  lemma StepOne(base: real, category: string, next: Signal) returns (x: real)
    requires base > 0.0 && Reach(next) > 0.0
    ensures x * Max(base, Reach(next)) == (if category == next.category then 0.55 else 0.20) * (base * Min(base, Reach(next)))
    ensures IntersectStep(base, category, next) == Round(x) as real
  {
    hide KeepRate, Decayed, IntersectStep, Round;
    var b, proxy := Reach(next), Signal("", category, Some(base));
    var overlap := PairOverlap(proxy, next);
    assert Reach(proxy) == base;
    x := base * KeepRate(base, b, overlap);
    assert overlap == Share(proxy, next) * (Min(base, b) / Max(base, b)) * Min(base, b);
    KeptShare(Share(proxy, next), base, Min(base, b), Max(base, b), overlap, b);
    StepUnfolds(base, category, next);
    DecayedIs(base, b, overlap);
  }

  /** One more signal keeps, of a running reach r, the rounded share r * share * smaller / larger. */
  lemma IntersectOne(base: real, t: Signal, next: Signal) returns (x: real)
    requires base > 0.0 && Reach(next) > 0.0
    ensures x * Max(base, Reach(next)) == (if t.category == next.category then 0.55 else 0.20) * (base * Min(base, Reach(next)))
    ensures IntersectReach(base, Some(t), [next]) == Round(x) as real
  {
    FoldOne(base, t.category, next);
    hide IntersectStep, IntersectFold, Reach, Round;
    x := StepOne(base, t.category, next);
  }

  lemma IntersectNone(base: real, t: Signal, next: Signal)
    requires base == 0.0 || Reach(next) == 0.0
    ensures IntersectReach(base, Some(t), [next]) == 0.0
  {
    FoldOne(base, t.category, next);
    hide PairOverlap, IntersectFold;
  }

  /** Further signals are taken one at a time; without signals or without a template the base stays. */
  lemma IntersectChain(base: real, t: Signal, ss: seq<Signal>, x: Signal)
    ensures IntersectReach(base, Some(t), []) == base && IntersectReach(base, None, ss) == base
    ensures IntersectReach(base, Some(t), ss + [x]) == IntersectReach(IntersectReach(base, Some(t), ss), Some(t), [x])
  {
    hide IntersectStep;
    FoldAppend(base, t.category, ss, x);
    FoldOne(IntersectFold(base, t.category, ss), t.category, x);
    FoldOne(base, t.category, x);
  }

  // ---------------------------------------------------------------------
  // Exclusion
  // ---------------------------------------------------------------------

  /** What excluding s removes from the base set. */
  function Removed(baseSet: seq<Signal>): Signal -> real {
    (s: Signal) => Round(SumBy(baseSet, (p: Signal) => PairOverlap(s, p))) as real
  }

  lemma RemovedIs(baseSet: seq<Signal>, s: Signal)
    ensures Removed(baseSet)(s) == Round(PoolOverlap(s, baseSet)) as real
  {
    PoolIsSum(s, baseSet);
  }

  lemma RemovedNonNegative(baseSet: seq<Signal>, s: Signal)
    requires NonNegativeReach(baseSet) && Reach(s) >= 0.0
    ensures Removed(baseSet)(s) >= 0.0
  {
    RemovedIs(baseSet, s);
    PoolOverlapNonNegative(s, baseSet);
    RoundWithin(PoolOverlap(s, baseSet), 0);
  }

  lemma {:induction false} ExcludeFoldIs(base: real, baseSet: seq<Signal>, ss: seq<Signal>)
    requires base >= 0.0 && NonNegativeReach(baseSet) && NonNegativeReach(ss)
    ensures ExcludeFold(base, baseSet, ss) == Max(0.0, base - SumBy(ss, Removed(baseSet)))
  {
    hide PoolOverlap, Removed, Reach;
    if ss != [] {
      var init, s := ss[..|ss| - 1], ss[|ss| - 1];
      assert ss == init + [s];
      ExcludeFoldIs(base, baseSet, init);
      RemovedIs(baseSet, s);
      RemovedNonNegative(baseSet, s);
    }
  }

  /** Excluding signals takes off, for each of them, its rounded overlap with the whole base set, not below zero. */
  lemma ExcludeClosedForm(base: real, baseSet: seq<Signal>, ss: seq<Signal>)
    requires Count(base) && baseSet != [] && ss != [] && NonNegativeReach(baseSet) && NonNegativeReach(ss)
    ensures ExcludeReach(base, baseSet, ss) ==
            Max(0.0, base - SumBy(ss, (s: Signal) => Round(SumBy(baseSet, (p: Signal) => PairOverlap(s, p))) as real))
  {
    hide PairOverlap;
    ExcludeFoldIs(base, baseSet, ss);
  }

  /** The order of the exclusions does not matter. */
  lemma ExcludeOrderIndependent(base: real, baseSet: seq<Signal>, a: seq<Signal>, b: seq<Signal>)
    requires Count(base) && NonNegativeReach(baseSet) && NonNegativeReach(a) && multiset(a) == multiset(b)
    ensures ExcludeReach(base, baseSet, a) == ExcludeReach(base, baseSet, b)
  {
    forall s ensures s in a <==> s in b {
      PermutationMember(a, b, s);
    }
    if a != [] {
      assert a[0] in b;
      ExcludeFoldIs(base, baseSet, a);
      ExcludeFoldIs(base, baseSet, b);
      SumByPermutation(a, b, Removed(baseSet));
    } else {
      assert |multiset(b)| == 0;
    }
  }

  /** An excluded signal whose overlap rounds to at least one person lowers a positive reach. */
  lemma ExcludeLowers(base: real, baseSet: seq<Signal>, ss: seq<Signal>, i: nat)
    requires Count(base) && base > 0.0 && baseSet != [] && NonNegativeReach(baseSet) && NonNegativeReach(ss) && i < |ss|
    requires Round(SumBy(baseSet, (p: Signal) => PairOverlap(ss[i], p))) >= 1
    ensures ExcludeReach(base, baseSet, ss) < base
  {
    ExcludeFoldIs(base, baseSet, ss);
    forall s | s in ss ensures Removed(baseSet)(s) >= 0.0 {
      RemovedNonNegative(baseSet, s);
    }
    hide ExcludeFold, PairOverlap, NonNegativeReach;
    OneOfSum(ss, ss[i], Removed(baseSet));
    RemovedIs(baseSet, ss[i]);
    PoolIsSum(ss[i], baseSet);
  }

  /** Without exclusions or without a base set nothing is taken off. */
  lemma ExcludeNothing(base: real, baseSet: seq<Signal>, ss: seq<Signal>)
    ensures ExcludeReach(base, baseSet, []) == base && ExcludeReach(base, [], ss) == base
  {}
}
