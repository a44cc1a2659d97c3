// src/analytics/audienceMath.ts: concentration of a selection and the journey funnel.
module AudienceReports {
  import opened Numbers
  import opened Sequences
  import opened Ranking

  datatype AffinityRow = AffinityRow(key: string, share: real, selectionShare: real, index: int)

  function Share(r: AffinityRow): real {
    r.selectionShare
  }

  function NegShare(r: AffinityRow): real {
    -r.selectionShare
  }

  predicate IsLive(r: AffinityRow) {
    r.selectionShare > 0.0
  }

  /** The rows with a positive selection share, largest first. */
  function Ranked(rows: seq<AffinityRow>): seq<AffinityRow> {
    SortBy(Filter(rows, IsLive), NegShare)
  }

  /** k is the length of the shortest prefix carrying 80%, or of the whole list if none does. */
  ghost predicate FirstReaching(sorted: seq<AffinityRow>, k: nat) {
    && k <= |sorted|
    && (forall j {:trigger sorted[..j]} :: 0 <= j < k ==> SumBy(sorted[..j], Share) < 0.8)
    && (SumBy(sorted[..k], Share) >= 0.8 || k == |sorted|)
  }

  method ConcentrationOf(rows: seq<AffinityRow>) returns (k: nat)
    ensures FirstReaching(Ranked(rows), k)
  {
    hide SortBy;
    var sorted := Ranked(rows);
    var cum := 0.0;
    for i := 0 to |sorted|
      invariant cum == SumBy(sorted[..i], Share)
      invariant forall j {:trigger sorted[..j]} :: 0 <= j <= i ==> SumBy(sorted[..j], Share) < 0.8
    {
      assert sorted[..i + 1] == sorted[..i] + [sorted[i]];
      SumByAppend(sorted[..i], sorted[i], Share);
      cum := cum + sorted[i].selectionShare;
      if cum >= 0.8 {
        return i + 1;
      }
    }
    return |sorted|;
  }

  // The exchange argument.  With t the share of the row just after the best m, a selection of m
  // rows carries at most m * t plus what its rows exceed t by, and only the best m exceed t.

  function Excess(t: real): AffinityRow -> real {
    (r: AffinityRow) => Max(0.0, r.selectionShare - t)
  }

  function Times(n: nat, t: real): real {
    if n == 0 then 0.0 else Times(n - 1, t) + t
  }

  lemma {:induction false} ShareByExcess(sel: seq<AffinityRow>, t: real)
    ensures SumBy(sel, Share) <= Times(|sel|, t) + SumBy(sel, Excess(t))
  {
    if sel != [] {
      ShareByExcess(sel[..|sel| - 1], t);
    }
  }

  lemma {:induction false} ExcessOfLarge(s: seq<AffinityRow>, t: real)
    requires forall r :: r in s ==> r.selectionShare >= t
    ensures SumBy(s, Share) == Times(|s|, t) + SumBy(s, Excess(t))
  {
    if s != [] {
      ExcessOfLarge(s[..|s| - 1], t);
    }
  }

  lemma {:induction false} ExcessOfSmall(s: seq<AffinityRow>, t: real)
    requires forall r :: r in s ==> r.selectionShare <= t
    ensures SumBy(s, Excess(t)) == 0.0
  {
    if s != [] {
      ExcessOfSmall(s[..|s| - 1], t);
    }
  }

  lemma {:induction false} ExcessOfLive(rows: seq<AffinityRow>, t: real)
    requires t > 0.0
    ensures SumBy(rows, Excess(t)) == SumBy(Filter(rows, IsLive), Excess(t))
  {
    if rows != [] {
      var n := |rows| - 1;
      ExcessOfLive(rows[..n], t);
      if IsLive(rows[n]) {
        SumByAppend(Filter(rows[..n], IsLive), rows[n], Excess(t));
      }
    }
  }

  lemma AboveAndBelow(sorted: seq<AffinityRow>, m: nat)
    requires SortedBy(sorted, NegShare) && m < |sorted|
    ensures forall r :: r in sorted[..m] ==> r.selectionShare >= Share(sorted[m])
    ensures forall r :: r in sorted[m..] ==> r.selectionShare <= Share(sorted[m])
  {
    forall r | r in sorted[..m] ensures r.selectionShare >= Share(sorted[m]) {
      var i :| 0 <= i < m && sorted[i] == r;
      assert NegShare(sorted[i]) <= NegShare(sorted[m]);
    }
    forall r | r in sorted[m..] ensures r.selectionShare <= Share(sorted[m]) {
      var i :| m <= i < |sorted| && sorted[i] == r;
      assert NegShare(sorted[m]) <= NegShare(sorted[i]);
    }
  }

  /** In a list sorted by share, the best m rows exceed the next share t by as much as all rows do. */
  lemma PrefixExcess(sorted: seq<AffinityRow>, m: nat)
    requires SortedBy(sorted, NegShare) && m < |sorted|
    ensures SumBy(sorted[..m], Share) == Times(m, Share(sorted[m])) + SumBy(sorted, Excess(Share(sorted[m])))
  {
    hide SortedBy, SumBy, Excess, Times;
    var t := Share(sorted[m]);
    AboveAndBelow(sorted, m);
    ExcessOfLarge(sorted[..m], t);
    ExcessOfSmall(sorted[m..], t);
    assert sorted == sorted[..m] + sorted[m..];
    SumByConcat(sorted[..m], sorted[m..], Excess(t));
  }

  lemma Exchange(rows: seq<AffinityRow>, sorted: seq<AffinityRow>, sel: seq<AffinityRow>)
    requires SortedBy(sorted, NegShare) && multiset(sorted) == multiset(Filter(rows, IsLive))
    requires multiset(sel) <= multiset(rows) && |sel| < |sorted| && Share(sorted[|sel|]) > 0.0
    ensures SumBy(sel, Share) <= SumBy(sorted[..|sel|], Share)
  {
    var t := Share(sorted[|sel|]);
    assert forall r :: Excess(t)(r) >= 0.0;
    hide Filter, SumBy, Excess, SortedBy, Share;
    PrefixExcess(sorted, |sel|);
    ShareByExcess(sel, t);
    SumBySubset(sel, rows, Excess(t));
    ExcessOfLive(rows, t);
    SumByPermutation(Filter(rows, IsLive), sorted, Excess(t));
  }

  /** No choice of m rows carries more than the m largest. */
  lemma TopRowsCarryMost(rows: seq<AffinityRow>, sel: seq<AffinityRow>)
    requires multiset(sel) <= multiset(rows) && |sel| < |Ranked(rows)|
    ensures SumBy(sel, Share) <= SumBy(Ranked(rows)[..|sel|], Share)
  {
    hide Filter, SortBy, SumBy, SortedBy;
    var live, best := Filter(rows, IsLive), Ranked(rows)[|sel|];
    SortSorted(live, NegShare);
    assert best in multiset(Ranked(rows)) && best in multiset(live) && best in live;
    Exchange(rows, Ranked(rows), sel);
  }

  /** The reported concentration is optimal: fewer rows never carry 80%, in any choice. */
  lemma ConcentrationOptimal(rows: seq<AffinityRow>, k: nat, sel: seq<AffinityRow>)
    requires FirstReaching(Ranked(rows), k)
    requires multiset(sel) <= multiset(rows) && |sel| < k
    ensures SumBy(sel, Share) < 0.8
  {
    hide Ranked;
    TopRowsCarryMost(rows, sel);
  }

  /** And if the live rows carry 80% at all, k of them do: k is the least size of such a selection. */
  lemma ConcentrationReached(rows: seq<AffinityRow>, k: nat, sel: seq<AffinityRow>)
    requires FirstReaching(Ranked(rows), k)
    requires multiset(sel) <= multiset(rows) && SumBy(sel, Share) >= 0.8
    ensures SumBy(Ranked(rows)[..k], Share) >= 0.8 && k <= |sel|
  {
    var ranked := Ranked(rows);
    if |sel| < k {
      ConcentrationOptimal(rows, k, sel);
    }
    if k == |ranked| {
      assert ranked[..k] == ranked;
      LiveCarryMost(rows, sel);
      SumByPermutation(Filter(rows, IsLive), ranked, Share);
    }
  }

  function Gain(r: AffinityRow): real {
    Max(0.0, r.selectionShare)
  }

  lemma {:induction false} ShareWithinGain(s: seq<AffinityRow>)
    ensures SumBy(s, Share) <= SumBy(s, Gain)
  {
    if s != [] {
      ShareWithinGain(s[..|s| - 1]);
    }
  }

  lemma {:induction false} GainOfLive(rows: seq<AffinityRow>)
    ensures SumBy(rows, Gain) == SumBy(Filter(rows, IsLive), Share)
  {
    if rows != [] {
      var n := |rows| - 1;
      GainOfLive(rows[..n]);
      if IsLive(rows[n]) {
        SumByAppend(Filter(rows[..n], IsLive), rows[n], Share);
      }
    }
  }

  lemma LiveCarryMost(rows: seq<AffinityRow>, sel: seq<AffinityRow>)
    requires multiset(sel) <= multiset(rows)
    ensures SumBy(sel, Share) <= SumBy(Filter(rows, IsLive), Share)
  {
    ShareWithinGain(sel);
    SumBySubset(sel, rows, Gain);
    GainOfLive(rows);
  }

  // ---------------------------------------------------------------------
  // Journey funnel
  // ---------------------------------------------------------------------

  datatype Stage = Stage(name: string, reach: real)

  datatype StageOut = StageOut(
    name: string,
    reach: real,
    preClampReach: real,
    conversionRate: real,
    cumulativeRate: real,
    droppedOff: real,
    clamped: bool)

  function Rate4(x: real): real {
    Round(x * 10000.0) as real / 10000.0
  }

  /** The least reach of the first stages: what survives the monotone clamp. */
  function RunningMin(stages: seq<Stage>): real
    requires stages != []
  {
    if |stages| == 1 then stages[0].reach
    else Min(RunningMin(stages[..|stages| - 1]), stages[|stages| - 1].reach)
  }

  /** Stage i of the funnel, described from the running minima alone. */
  ghost predicate StageCorrect(stages: seq<Stage>, i: nat, o: StageOut)
    requires i < |stages|
  {
    var here, base := RunningMin(stages[..i + 1]), stages[0].reach;
    && o.name == stages[i].name && o.preClampReach == stages[i].reach && o.reach == here
    && (o.clamped <==> here < stages[i].reach)
    && o.cumulativeRate == Rate4(if base > 0.0 then here / base else 0.0)
    && (i == 0 ==> o.conversionRate == 1.0 && o.droppedOff == 0.0)
    && (i > 0 ==>
          var prev := RunningMin(stages[..i]);
          && o.droppedOff == prev - here
          && o.conversionRate == Rate4(if prev > 0.0 then here / prev else 0.0))
  }

  method JourneyFunnel(stages: seq<Stage>) returns (out: seq<StageOut>)
    ensures |out| == |stages|
    ensures forall i :: 0 <= i < |out| ==> StageCorrect(stages, i, out[i])
  {
    assert Rate4(1.0) == 1.0;
    hide Rate4;
    out := [];
    var prev := if |stages| > 0 then stages[0].reach else 0.0;
    var base := prev;
    for i := 0 to |stages|
      invariant |out| == i
      invariant forall j :: 0 <= j < i ==> StageCorrect(stages, j, out[j])
      invariant i > 0 ==> prev == RunningMin(stages[..i])
      invariant |stages| > 0 ==> base == stages[0].reach && (i == 0 ==> prev == base)
    {
      var st := stages[i];
      var r, clamped := st.reach, false;
      if i > 0 && r > prev {
        r, clamped := prev, true;
      }
      var conv := if i == 0 then 1.0 else if prev > 0.0 then r / prev else 0.0;
      var cum := if base > 0.0 then r / base else 0.0;
      assert stages[..i + 1][..i] == stages[..i];
      out := out + [StageOut(st.name, r, st.reach, Rate4(conv), Rate4(cum),
                             if i == 0 then 0.0 else Max(0.0, prev - r), clamped)];
      prev := r;
    }
  }

  function Dropped(o: StageOut): real {
    o.droppedOff
  }

  /** The drop-offs telescope: what entered is what is left plus everything lost on the way. */
  lemma {:induction false} DropOffsTelescope(stages: seq<Stage>, out: seq<StageOut>)
    requires stages != [] && |out| == |stages|
    requires forall i :: 0 <= i < |out| ==> StageCorrect(stages, i, out[i])
    ensures SumBy(out, Dropped) == stages[0].reach - out[|out| - 1].reach
    ensures forall i {:trigger out[i]} :: 0 <= i < |out| ==> out[i].droppedOff >= 0.0
  {
    var n := |out| - 1;
    if n > 0 {
      var before, outBefore := stages[..n], out[..n];
      forall i | 0 <= i < n ensures StageCorrect(before, i, outBefore[i]) {
        assert StageCorrect(stages, i, out[i]);
        assert before[..i + 1] == stages[..i + 1] && before[..i] == stages[..i];
      }
      DropOffsTelescope(before, outBefore);
      assert StageCorrect(stages, n, out[n]) && StageCorrect(stages, n - 1, out[n - 1]);
      assert stages[..n + 1] == stages && stages[..n - 1 + 1] == before;
    } else {
      assert SumBy(out[..0], Dropped) == 0.0;
    }
  }
}
