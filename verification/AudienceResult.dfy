// src/domain/compositeScorer.ts: deduplication and ranking of the final result, and the
// map of leaf resolutions.
module AudienceResult {
  import opened Numbers
  import opened Sequences
  import opened CompositeScorer
  import opened QueryPolarity
  import R = Ranking
  import M = OrderedMap

  datatype RankedSignal = RankedSignal(
    id: string,
    name: string,
    matchScore: real,
    matchMethod: string,
    audienceSize: int,
    coverage: real)

  function ToRanked(s: ResolvedSignal): RankedSignal {
    RankedSignal(s.id, s.name, s.matchScore, s.matchMethod, s.audienceSize, s.coverage)
  }

  type SignalMap = M.Entries<string, RankedSignal>

  /** Per id the first signal of highest score. */
  function BestMap(signals: seq<ResolvedSignal>): SignalMap {
    if signals == [] then []
    else
      var before, s := BestMap(signals[..|signals| - 1]), signals[|signals| - 1];
      var existing := M.Get(before, s.id);
      if existing.None? || s.matchScore > existing.value.matchScore then M.Put(before, s.id, ToRanked(s)) else before
  }

  /** Per id the last signal. */
  function LastMap(signals: seq<ResolvedSignal>): SignalMap {
    if signals == [] then []
    else M.Put(LastMap(signals[..|signals| - 1]), signals[|signals| - 1].id, ToRanked(signals[|signals| - 1]))
  }

  function Delete(m: SignalMap, k: string): SignalMap {
    Filter(m, (e: (string, RankedSignal)) => e.0 != k)
  }

  function DeleteAll(m: SignalMap, ks: seq<string>): SignalMap {
    if ks == [] then m else Delete(DeleteAll(m, ks[..|ks| - 1]), ks[|ks| - 1])
  }

  function Values(m: SignalMap): (vs: seq<RankedSignal>)
    ensures |vs| == |m| && forall i :: 0 <= i < |m| ==> vs[i] == m[i].1
  {
    seq(|m|, i requires 0 <= i < |m| => m[i].1)
  }

  function NegScore(r: RankedSignal): real {
    -r.matchScore
  }

  function Matched(node: AudienceNode): seq<RankedSignal> {
    R.SortBy(Values(DeleteAll(BestMap(node.signals), M.Keys(LastMap(node.excludes)))), NegScore)
  }

  function Excluded(node: AudienceNode): seq<RankedSignal> {
    Values(LastMap(node.excludes))
  }

  datatype ConfidenceTier = High | Medium | Low | Narrow

  function Tier(size: int, confidence: real): ConfidenceTier {
    if size < AUDIENCE_FLOOR || confidence < 0.4 then Narrow
    else if confidence >= 0.75 && size >= 1_000_000 then High
    else if confidence >= 0.55 then Medium
    else Low
  }

  datatype Result = Result(
    estimatedSize: int,
    confidence: real,
    tier: ConfidenceTier,
    matchedSignals: seq<RankedSignal>,
    excludeSignals: seq<RankedSignal>)

  method ScoreQuery(root: QueryNode, res: Resolutions) returns (result: Result)
    ensures var node := Score(root, res);
            result == Result(MaxInt(node.size, AUDIENCE_FLOOR), node.confidence, Tier(node.size, node.confidence), Matched(node), Excluded(node))
    ensures result.estimatedSize == (if Score(root, res).size < 50_000 then 50_000 else Score(root, res).size)
    ensures result.tier == High <==> Score(root, res).size >= 1_000_000 && result.confidence >= 0.75
    ensures result.tier == Narrow <==> Score(root, res).size < 50_000 || result.confidence < 0.4
    ensures result.tier == Low <==> Score(root, res).size >= 50_000 && 0.4 <= result.confidence < 0.55
    ensures forall id :: ListsId(result.matchedSignals, id) <==>
                           SomeLeaf(root, res, AtLevel(0), id) && !SomeLeaf(root, res, Excluding, id)
    ensures forall id :: ListsId(result.excludeSignals, id) <==> SomeLeaf(root, res, Excluding, id)
  {
    hide Score, R.SortBy, ListsId, SomeLeaf;
    forall id
      ensures ListsId(Matched(Score(root, res)), id) <==> SomeLeaf(root, res, AtLevel(0), id) && !SomeLeaf(root, res, Excluding, id)
      ensures ListsId(Excluded(Score(root, res)), id) <==> SomeLeaf(root, res, Excluding, id)
    {
      MatchedIff(root, res, id);
    }
    var node := Score(root, res);
    var signalMap: SignalMap := [];
    for i := 0 to |node.signals|
      invariant signalMap == BestMap(node.signals[..i])
    {
      var rs := node.signals[i];
      assert node.signals[..i + 1][..i] == node.signals[..i];
      var existing := M.Get(signalMap, rs.id);
      if existing.None? || rs.matchScore > existing.value.matchScore {
        signalMap := M.Put(signalMap, rs.id, ToRanked(rs));
      }
    }
    assert node.signals[..|node.signals|] == node.signals;
    var excludeMap := CollectExcludes(node.excludes);
    signalMap := DeleteKeys(signalMap, M.Keys(excludeMap));
    result := Result(
      MaxInt(node.size, AUDIENCE_FLOOR),
      node.confidence,
      Tier(node.size, node.confidence),
      R.SortBy(Values(signalMap), NegScore),
      Values(excludeMap));
  }

  method CollectExcludes(excludes: seq<ResolvedSignal>) returns (excludeMap: SignalMap)
    ensures excludeMap == LastMap(excludes)
  {
    excludeMap := [];
    for i := 0 to |excludes|
      invariant excludeMap == LastMap(excludes[..i])
    {
      assert excludes[..i + 1][..i] == excludes[..i];
      excludeMap := M.Put(excludeMap, excludes[i].id, ToRanked(excludes[i]));
    }
    assert excludes[..|excludes|] == excludes;
  }

  method DeleteKeys(m: SignalMap, ks: seq<string>) returns (r: SignalMap)
    ensures r == DeleteAll(m, ks)
  {
    r := m;
    for i := 0 to |ks|
      invariant r == DeleteAll(m, ks[..i])
    {
      assert ks[..i + 1][..i] == ks[..i];
      r := Delete(r, ks[i]);
    }
    assert ks[..|ks|] == ks;
  }

  // ---------------------------------------------------------------------
  // What the final lists are
  // ---------------------------------------------------------------------

  /** signals[i] scores highest for its id and is the first to do so. */
  ghost predicate BestAt(signals: seq<ResolvedSignal>, i: nat) {
    && i < |signals|
    && (forall j :: 0 <= j < |signals| && signals[j].id == signals[i].id ==> signals[j].matchScore <= signals[i].matchScore)
    && (forall j :: 0 <= j < i && signals[j].id == signals[i].id ==> signals[j].matchScore < signals[i].matchScore)
  }

  ghost predicate IsBest(r: RankedSignal, signals: seq<ResolvedSignal>) {
    exists i: nat :: BestAt(signals, i) && r == ToRanked(signals[i])
  }

  ghost predicate HasId(id: string, signals: seq<ResolvedSignal>) {
    exists i :: 0 <= i < |signals| && signals[i].id == id
  }

  lemma BestUnique(r: RankedSignal, q: RankedSignal, signals: seq<ResolvedSignal>)
    requires IsBest(r, signals) && IsBest(q, signals) && r.id == q.id
    ensures r == q
  {}

  lemma BestKept(r: RankedSignal, signals: seq<ResolvedSignal>, s: ResolvedSignal)
    requires IsBest(r, signals) && (s.id == r.id ==> s.matchScore <= r.matchScore)
    ensures IsBest(r, signals + [s])
  {
    var i: nat :| BestAt(signals, i) && r == ToRanked(signals[i]);
    assert BestAt(signals + [s], i);
  }

  lemma BestReplaced(signals: seq<ResolvedSignal>, s: ResolvedSignal)
    requires forall i :: 0 <= i < |signals| && signals[i].id == s.id ==> signals[i].matchScore < s.matchScore
    ensures IsBest(ToRanked(s), signals + [s])
  {
    assert BestAt(signals + [s], |signals|);
  }

  lemma BestDominates(r: RankedSignal, signals: seq<ResolvedSignal>)
    requires IsBest(r, signals)
    ensures forall i :: 0 <= i < |signals| && signals[i].id == r.id ==> signals[i].matchScore <= r.matchScore
  {}

  lemma HasIdAppend(id: string, signals: seq<ResolvedSignal>, s: ResolvedSignal)
    ensures HasId(id, signals + [s]) <==> HasId(id, signals) || s.id == id
  {
    if HasId(id, signals) {
      var i :| 0 <= i < |signals| && signals[i].id == id;
      assert (signals + [s])[i].id == id;
    }
    assert (signals + [s])[|signals|] == s;
  }

  /** The map holds, for each id that occurs, its best signal. */
  lemma {:induction false} BestMapHolds(signals: seq<ResolvedSignal>, id: string)
    ensures M.Get(BestMap(signals), id).Some? <==> HasId(id, signals)
    ensures M.Get(BestMap(signals), id).Some? ==>
              IsBest(M.Get(BestMap(signals), id).value, signals) && M.Get(BestMap(signals), id).value.id == id
  {
    if signals != [] {
      hide M.Get, M.Put, IsBest, HasId;
      var init, s := signals[..|signals| - 1], signals[|signals| - 1];
      assert signals == init + [s];
      BestMapHolds(init, id);
      BestMapHolds(init, s.id);
      HasIdAppend(id, init, s);
      M.GetPut(BestMap(init), s.id, ToRanked(s), id);
      var existing, mine := M.Get(BestMap(init), s.id), M.Get(BestMap(init), id);
      if mine.Some? && (s.id == id ==> s.matchScore <= mine.value.matchScore) {
        BestKept(mine.value, init, s);
      }
      if existing.None? || existing.value.matchScore < s.matchScore {
        NewBest(init, s, existing);
      }
    }
  }

  lemma NewBest(signals: seq<ResolvedSignal>, s: ResolvedSignal, existing: Option<RankedSignal>)
    requires existing.None? ==> !HasId(s.id, signals)
    requires existing.Some? ==> IsBest(existing.value, signals) && existing.value.id == s.id && existing.value.matchScore < s.matchScore
    ensures IsBest(ToRanked(s), signals + [s])
  {
    if existing.Some? {
      BestDominates(existing.value, signals);
    }
    BestReplaced(signals, s);
  }

  lemma {:induction false} BestMapDistinct(signals: seq<ResolvedSignal>)
    ensures M.Distinct(M.Keys(BestMap(signals)))
  {
    if signals != [] {
      hide M.Get, M.Put, M.Keys;
      var s := signals[|signals| - 1];
      BestMapDistinct(signals[..|signals| - 1]);
      M.PutDistinct(BestMap(signals[..|signals| - 1]), s.id, ToRanked(s));
    }
  }

  lemma {:induction false} DeleteAllHolds(m: SignalMap, ks: seq<string>, e: (string, RankedSignal))
    ensures e in DeleteAll(m, ks) <==> e in m && e.0 !in ks
  {
    if ks != [] {
      var n := |ks| - 1;
      DeleteAllHolds(m, ks[..n], e);
      assert ks == ks[..n] + [ks[n]];
    }
  }

  lemma DistinctInit(m: SignalMap)
    requires m != [] && M.Distinct(M.Keys(m))
    ensures M.Distinct(M.Keys(m[..|m| - 1]))
    ensures forall e :: e in m[..|m| - 1] ==> e.0 != m[|m| - 1].0
  {
    hide M.Keys;
    M.KeysTake(m, |m| - 1);
    PrefixDistinct(M.Keys(m), |m| - 1);
    hide M.Distinct;
    forall e | e in m[..|m| - 1] ensures e.0 != m[|m| - 1].0 {
      var j :| 0 <= j < |m| - 1 && m[..|m| - 1][j] == e;
      M.DistinctLast(m, j);
    }
  }

  lemma PrefixDistinct(ks: seq<string>, n: nat)
    requires n <= |ks| && M.Distinct(ks)
    ensures M.Distinct(ks[..n])
  {}

  lemma DistinctAppend(m: SignalMap, e: (string, RankedSignal))
    requires M.Distinct(M.Keys(m)) && forall x :: x in m ==> x.0 != e.0
    ensures M.Distinct(M.Keys(m + [e]))
  {
    var more := m + [e];
    forall i, j | 0 <= i < j < |more| ensures M.Keys(more)[i] != M.Keys(more)[j] {
      if j < |m| {
        assert M.Keys(m)[i] != M.Keys(m)[j];
      } else {
        assert m[i] in m;
      }
    }
  }

  lemma DeleteAppend(m: SignalMap, e: (string, RankedSignal), k: string)
    ensures Delete(m + [e], k) == if e.0 != k then Delete(m, k) + [e] else Delete(m, k)
    ensures forall x :: x in Delete(m, k) ==> x in m
    ensures Delete([], k) == []
  {
    FilterAppend(m, e, (e: (string, RankedSignal)) => e.0 != k);
  }

  lemma {:induction false} DistinctFilter(m: SignalMap, k: string)
    requires M.Distinct(M.Keys(m))
    ensures M.Distinct(M.Keys(Delete(m, k)))
  {
    hide M.Keys, M.Distinct, Delete;
    if m != [] {
      var init, e := m[..|m| - 1], m[|m| - 1];
      assert m == init + [e];
      DistinctInit(m);
      DistinctFilter(init, k);
      DeleteAppend(init, e, k);
      if e.0 != k {
        DistinctAppend(Delete(init, k), e);
      }
    } else {
      NoKeys();
      DeleteAppend([], ("", RankedSignal("", "", 0.0, "", 0, 0.0)), k);
    }
  }

  lemma NoKeys()
    ensures M.Distinct(M.Keys<string, RankedSignal>([]))
  {}

  lemma {:induction false} DeleteAllDistinct(m: SignalMap, ks: seq<string>)
    requires M.Distinct(M.Keys(m))
    ensures M.Distinct(M.Keys(DeleteAll(m, ks)))
  {
    if ks != [] {
      hide Delete, M.Keys;
      DeleteAllDistinct(m, ks[..|ks| - 1]);
      DistinctFilter(DeleteAll(m, ks[..|ks| - 1]), ks[|ks| - 1]);
    }
  }

  lemma EntryIff(m: SignalMap, id: string, r: RankedSignal)
    requires M.Distinct(M.Keys(m))
    ensures (id, r) in m <==> M.Get(m, id) == Some(r)
  {
    if (id, r) in m {
      var i :| 0 <= i < |m| && m[i] == (id, r);
      M.GetAt(m, i);
    }
    if M.Get(m, id) == Some(r) {
      M.GetIsKey(m, id);
      var i :| 0 <= i < |M.Keys(m)| && M.Keys(m)[i] == id;
      M.GetAt(m, i);
      assert m[i] == (id, r);
    }
  }

  lemma {:induction false} LastMapKeys(signals: seq<ResolvedSignal>, id: string)
    ensures id in M.Keys(LastMap(signals)) <==> HasId(id, signals)
  {
    if signals != [] {
      hide M.Put, M.Keys, HasId;
      var init, s := signals[..|signals| - 1], signals[|signals| - 1];
      assert signals == init + [s];
      LastMapKeys(init, id);
      HasIdAppend(id, init, s);
      M.KeyInPut(LastMap(init), s.id, ToRanked(s), id);
    }
  }

  /** The matched list: exactly the best signal of each id that is not excluded. */
  lemma MatchedExactly(node: AudienceNode, r: RankedSignal)
    ensures r in Matched(node) <==> IsBest(r, node.signals) && !HasId(r.id, node.excludes)
  {
    var best, ks := BestMap(node.signals), M.Keys(LastMap(node.excludes));
    var kept := DeleteAll(best, ks);
    BestMapDistinct(node.signals);
    BestMapHolds(node.signals, r.id);
    EntryIff(best, r.id, r);
    DeleteAllHolds(best, ks, (r.id, r));
    LastMapKeys(node.excludes, r.id);
    R.SortSorted(Values(kept), NegScore);
    PermutationMember(R.SortBy(Values(kept), NegScore), Values(kept), r);
    hide R.SortBy, DeleteAll, BestMap, LastMap, M.Keys, M.Get, HasId, IsBest;
    if r in Values(kept) {
      var i :| 0 <= i < |kept| && Values(kept)[i] == r;
      assert kept[i] in kept;
      DeleteAllHolds(best, ks, kept[i]);
      KeyIsId(node.signals, kept[i]);
    }
    if (r.id, r) in kept {
      var i :| 0 <= i < |kept| && kept[i] == (r.id, r);
      assert Values(kept)[i] == r;
    }
    if IsBest(r, node.signals) {
      BestOccurs(r, node.signals);
      BestUnique(r, M.Get(best, r.id).value, node.signals);
    }
  }

  lemma BestOccurs(r: RankedSignal, signals: seq<ResolvedSignal>)
    requires IsBest(r, signals)
    ensures HasId(r.id, signals)
  {}

  lemma KeyIsId(signals: seq<ResolvedSignal>, e: (string, RankedSignal))
    requires e in BestMap(signals)
    ensures e.0 == e.1.id
  {
    BestMapDistinct(signals);
    EntryIff(BestMap(signals), e.0, e.1);
    BestMapHolds(signals, e.0);
  }

  /** Every id with a match and no exclusion is in the list. */
  lemma MatchedComplete(node: AudienceNode, id: string)
    requires HasId(id, node.signals) && !HasId(id, node.excludes)
    ensures exists r :: r in Matched(node) && r.id == id
  {
    BestMapHolds(node.signals, id);
    var r := M.Get(BestMap(node.signals), id).value;
    hide Matched, HasId;
    MatchedExactly(node, r);
  }

  ghost predicate ListsId(rs: seq<RankedSignal>, id: string) {
    exists r :: r in rs && r.id == id
  }

  /** Some leaf of the query, chosen by what stands above it, has a match with this id. */
  ghost predicate SomeLeaf(root: QueryNode, res: Resolutions, p: LeafUse -> bool, id: string) {
    SomeUse(LeafUses(root, TOP), res, p, id)
  }

  ghost predicate SomeUse(uses: seq<LeafUse>, res: Resolutions, p: LeafUse -> bool, id: string) {
    exists u :: u in uses && p(u) && HasId(id, MatchesOf(u.key, res))
  }

  lemma HasIdConcat(id: string, a: seq<ResolvedSignal>, b: seq<ResolvedSignal>)
    ensures HasId(id, a + b) <==> HasId(id, a) || HasId(id, b)
  {
    if s :| s in a && s.id == id {
      assert s in a + b;
    }
    if s :| s in b && s.id == id {
      assert s in a + b;
    }
  }

  lemma {:induction false} MatchesHaveId(uses: seq<LeafUse>, res: Resolutions, p: LeafUse -> bool, id: string)
    ensures HasId(id, Matches(uses, p, res)) <==> SomeUse(uses, res, p, id)
  {
    if uses != [] {
      var init, u := uses[..|uses| - 1], uses[|uses| - 1];
      assert uses == init + [u];
      MatchesHaveId(init, res, p, id);
      HasIdConcat(id, Matches(init, p, res), if p(u) then MatchesOf(u.key, res) else []);
      hide HasId, MatchesOf;
      UseAppend(init, u, res, p, id);
    }
  }

  lemma UseAppend(init: seq<LeafUse>, u: LeafUse, res: Resolutions, p: LeafUse -> bool, id: string)
    ensures SomeUse(init + [u], res, p, id) <==> SomeUse(init, res, p, id) || (p(u) && HasId(id, MatchesOf(u.key, res)))
  {
    hide HasId, MatchesOf;
    assert forall x :: x in init + [u] <==> x in init || x == u;
  }

  /** The query, from its leaves to its answer: an id is matched exactly when a leaf under no NOT matches
      it and no leaf that excludes (under exactly one NOT, with no OR above that NOT) does; it is listed
      as excluded exactly when such a leaf matches it. */
  lemma MatchedIff(root: QueryNode, res: Resolutions, id: string)
    ensures ListsId(Matched(Score(root, res)), id) <==> SomeLeaf(root, res, AtLevel(0), id) && !SomeLeaf(root, res, Excluding, id)
    ensures ListsId(Excluded(Score(root, res)), id) <==> SomeLeaf(root, res, Excluding, id)
  {
    var node := Score(root, res);
    RootPolarity(root, res);
    hide Score, Matched, Excluded, Matches, LeafUses, SomeUse, HasId, IsBest;
    MatchesHaveId(LeafUses(root, TOP), res, AtLevel(0), id);
    MatchesHaveId(LeafUses(root, TOP), res, Excluding, id);
    ExcludedExactly(node, id);
    if ListsId(Matched(node), id) {
      var r :| r in Matched(node) && r.id == id;
      MatchedExactly(node, r);
      BestOccurs(r, node.signals);
    }
    if HasId(id, node.signals) && !HasId(id, node.excludes) {
      MatchedComplete(node, id);
    }
  }

  /** The matched list is in descending score order and holds each id once. */
  lemma MatchedOrder(node: AudienceNode, i: nat, j: nat)
    requires i < j < |Matched(node)|
    ensures Matched(node)[i].matchScore >= Matched(node)[j].matchScore
    ensures Matched(node)[i].id != Matched(node)[j].id
  {
    var kept := DeleteAll(BestMap(node.signals), M.Keys(LastMap(node.excludes)));
    R.SortSorted(Values(kept), NegScore);
    assert NegScore(Matched(node)[i]) <= NegScore(Matched(node)[j]);
    BestMapDistinct(node.signals);
    DeleteAllDistinct(BestMap(node.signals), M.Keys(LastMap(node.excludes)));
    forall e | e in kept ensures e.0 == e.1.id {
      DeleteAllHolds(BestMap(node.signals), M.Keys(LastMap(node.excludes)), e);
      KeyIsId(node.signals, e);
    }
    hide DeleteAll, BestMap, LastMap;
    DistinctValues(kept);
    DistinctPermutation(Values(kept), Matched(node), i, j);
  }

  ghost predicate DistinctIds(rs: seq<RankedSignal>) {
    forall i, j :: 0 <= i < j < |rs| ==> rs[i].id != rs[j].id
  }

  lemma DistinctValues(m: SignalMap)
    requires M.Distinct(M.Keys(m)) && forall e :: e in m ==> e.0 == e.1.id
    ensures DistinctIds(Values(m))
  {
    forall i, j | 0 <= i < j < |m| ensures Values(m)[i].id != Values(m)[j].id {
      assert M.Keys(m)[i] != M.Keys(m)[j];
      assert m[i] in m && m[j] in m;
    }
  }

  lemma DistinctPermutation(a: seq<RankedSignal>, b: seq<RankedSignal>, i: nat, j: nat)
    requires multiset(a) == multiset(b) && DistinctIds(a) && i < j < |b|
    ensures b[i].id != b[j].id
  {
    if b[i].id == b[j].id {
      PermutationMember(a, b, b[i]);
      PermutationMember(a, b, b[j]);
      var k :| 0 <= k < |a| && a[k] == b[i];
      var l :| 0 <= l < |a| && a[l] == b[j];
      TwiceIn(b, i, j);
      OnceIn(a, k);
    }
  }

  lemma TwiceIn(b: seq<RankedSignal>, i: nat, j: nat)
    requires i < j < |b| && b[i] == b[j]
    ensures multiset(b)[b[i]] >= 2
  {
    assert b == b[..j] + [b[j]] + b[j + 1..];
    assert b[i] in b[..j];
    assert multiset(b) == multiset(b[..j]) + multiset{b[j]} + multiset(b[j + 1..]);
  }

  lemma OnceIn(a: seq<RankedSignal>, k: nat)
    requires DistinctIds(a) && k < |a|
    ensures multiset(a)[a[k]] == 1
  {
    assert a == a[..k] + [a[k]] + a[k + 1..];
    assert a[k] !in a[..k] && a[k] !in a[k + 1..];
    assert multiset(a) == multiset(a[..k]) + multiset{a[k]} + multiset(a[k + 1..]);
  }

  /** The excluded list holds exactly the ids of the exclusions, and no matched id. */
  lemma ExcludedExactly(node: AudienceNode, id: string)
    ensures (exists r :: r in Excluded(node) && r.id == id) <==> HasId(id, node.excludes)
    ensures HasId(id, node.excludes) ==> forall r :: r in Matched(node) ==> r.id != id
  {
    LastMapKeys(node.excludes, id);
    LastMapIds(node.excludes);
    forall r | r in Matched(node) && HasId(id, node.excludes) ensures r.id != id {
      MatchedExactly(node, r);
    }
    hide LastMap, Matched, HasId;
    var m := LastMap(node.excludes);
    if id in M.Keys(m) {
      var i :| 0 <= i < |M.Keys(m)| && M.Keys(m)[i] == id;
      assert Values(m)[i] in Values(m) && m[i] in m;
    }
    if r :| r in Excluded(node) && r.id == id {
      var i :| 0 <= i < |m| && Values(m)[i] == r;
      assert m[i] in m && M.Keys(m)[i] == id;
    }
  }

  lemma {:induction false} LastMapIds(signals: seq<ResolvedSignal>)
    ensures forall e :: e in LastMap(signals) ==> e.0 == e.1.id
  {
    if signals != [] {
      LastMapIds(signals[..|signals| - 1]);
      PutIds(LastMap(signals[..|signals| - 1]), ToRanked(signals[|signals| - 1]));
    }
  }

  lemma {:induction false} PutIds(m: SignalMap, r: RankedSignal)
    requires forall e :: e in m ==> e.0 == e.1.id
    ensures forall e :: e in M.Put(m, r.id, r) ==> e.0 == e.1.id
  {
    if m != [] {
      PutIds(m[1..], r);
    }
  }

  /** The reported size lies between the floor and the whole population. */
  lemma FinalSize(root: QueryNode, res: Resolutions)
    requires CoveragesOk(res)
    ensures AUDIENCE_FLOOR <= MaxInt(Score(root, res).size, AUDIENCE_FLOOR) <= US_ADULT_BASELINE
  {
    SizeInRange(root, res);
  }

  // ---------------------------------------------------------------------
  // The resolution map
  // ---------------------------------------------------------------------

  function TopScore(r: LeafResolution): real {
    if r.matches == [] then 0.0 else r.matches[0].matchScore
  }

  function ResolutionEntries(rs: seq<LeafResolution>): M.Entries<string, LeafResolution> {
    if rs == [] then []
    else
      var before, r := ResolutionEntries(rs[..|rs| - 1]), rs[|rs| - 1];
      var existing := M.Get(before, Key(r.dimension, r.value));
      if existing.None? || TopScore(r) > TopScore(existing.value) then M.Put(before, Key(r.dimension, r.value), r) else before
  }

  method BuildResolutionMap(rs: seq<LeafResolution>) returns (m: M.Entries<string, LeafResolution>)
    ensures m == ResolutionEntries(rs)
  {
    m := [];
    for i := 0 to |rs|
      invariant m == ResolutionEntries(rs[..i])
    {
      assert rs[..i + 1][..i] == rs[..i];
      var key := Key(rs[i].dimension, rs[i].value);
      var existing := M.Get(m, key);
      if existing.None? || TopScore(rs[i]) > TopScore(existing.value) {
        m := M.Put(m, key, rs[i]);
      }
    }
    assert rs[..|rs|] == rs;
  }

  /** rs[i] is for this key, has the highest top score of those, and is the first that has. */
  ghost predicate FirstBest(rs: seq<LeafResolution>, key: string, i: nat) {
    && i < |rs| && rs[i].dimension + "::" + rs[i].value == key
    && forall j :: 0 <= j < |rs| && rs[j].dimension + "::" + rs[j].value == key && j != i ==>
         if j < i then TopOf(rs[j]) < TopOf(rs[i]) else TopOf(rs[j]) <= TopOf(rs[i])
  }

  /** The score of the first match, or 0. */
  ghost function TopOf(r: LeafResolution): real {
    if |r.matches| > 0 then r.matches[0].matchScore else 0.0
  }

  ghost predicate Holds(rs: seq<LeafResolution>, key: string, got: Option<LeafResolution>) {
    match got
    case Some(r) => exists i: nat :: FirstBest(rs, key, i) && rs[i] == r
    case None => forall j :: 0 <= j < |rs| ==> rs[j].dimension + "::" + rs[j].value != key
  }

  lemma HoldsOther(rs: seq<LeafResolution>, r: LeafResolution, key: string, got: Option<LeafResolution>)
    requires Holds(rs, key, got)
    requires r.dimension + "::" + r.value != key || (got.Some? && TopOf(r) <= TopOf(got.value))
    ensures Holds(rs + [r], key, got)
  {
    if got.Some? {
      var i: nat :| FirstBest(rs, key, i) && rs[i] == got.value;
      assert FirstBest(rs + [r], key, i);
    }
  }

  lemma HoldsNew(rs: seq<LeafResolution>, r: LeafResolution, got: Option<LeafResolution>)
    requires Holds(rs, r.dimension + "::" + r.value, got) && (got.Some? ==> TopOf(got.value) < TopOf(r))
    ensures Holds(rs + [r], r.dimension + "::" + r.value, Some(r))
  {
    var key := r.dimension + "::" + r.value;
    if got.Some? {
      var i: nat :| FirstBest(rs, key, i) && rs[i] == got.value;
    }
    assert FirstBest(rs + [r], key, |rs|);
  }

  /** Each key holds the first of its own resolutions whose top score none of the others exceeds. */
  lemma {:induction false} ResolutionBest(rs: seq<LeafResolution>, key: string)
    ensures Holds(rs, key, M.Get(ResolutionEntries(rs), key))
  {
    if rs != [] {
      hide M.Get, M.Put, Holds;
      var init, r := rs[..|rs| - 1], rs[|rs| - 1];
      assert rs == init + [r];
      ResolutionBest(init, key);
      M.GetPut(ResolutionEntries(init), Key(r.dimension, r.value), r, key);
      var got := M.Get(ResolutionEntries(init), key);
      if Key(r.dimension, r.value) == key && (got.None? || TopScore(r) > TopScore(got.value)) {
        HoldsNew(init, r, got);
      } else {
        HoldsOther(init, r, key, got);
      }
    } else {
      NothingHeld(key);
    }
  }

  lemma NothingHeld(key: string)
    ensures Holds([], key, None)
  {}

  // ---------------------------------------------------------------------
  // Fields, tiers and order
  // ---------------------------------------------------------------------

  /** A ranked signal carries over what it is made from. */
  lemma RankedFields(s: ResolvedSignal)
    ensures var r := ToRanked(s);
            && r.id == s.id && r.name == s.name && r.matchScore == s.matchScore && r.matchMethod == s.matchMethod
            && r.audienceSize == s.audienceSize && r.coverage == s.coverage
  {}

  /** The thresholds of the four tiers. */
  lemma TierThresholds(size: int, confidence: real)
    ensures Tier(size, confidence) == High <==> size >= 1_000_000 && confidence >= 0.75
    ensures Tier(size, confidence) == Medium <==>
              size >= 50_000 && confidence >= 0.55 && !(size >= 1_000_000 && confidence >= 0.75)
    ensures Tier(size, confidence) == Low <==> size >= 50_000 && 0.4 <= confidence < 0.55
    ensures Tier(size, confidence) == Narrow <==> size < 50_000 || confidence < 0.4
  {}

  /** The ids of a list, each where it first occurs. */
  function Firsts(signals: seq<ResolvedSignal>): seq<string> {
    if signals == [] then []
    else
      var before, id := Firsts(signals[..|signals| - 1]), signals[|signals| - 1].id;
      if id in before then before else before + [id]
  }

  lemma {:induction false} KeysAreFirsts(signals: seq<ResolvedSignal>)
    ensures M.Keys(BestMap(signals)) == Firsts(signals)
    ensures M.Keys(LastMap(signals)) == Firsts(signals)
  {
    if signals != [] {
      hide M.Get, M.Put, M.Keys;
      var init, s := signals[..|signals| - 1], signals[|signals| - 1];
      KeysAreFirsts(init);
      M.KeysPut(BestMap(init), s.id, ToRanked(s));
      M.KeysPut(LastMap(init), s.id, ToRanked(s));
      M.GetIsKey(BestMap(init), s.id);
    }
  }

  ghost predicate LastAt(signals: seq<ResolvedSignal>, i: nat) {
    i < |signals| && forall j :: i < j < |signals| ==> signals[j].id != signals[i].id
  }

  lemma {:induction false} LastMapHolds(signals: seq<ResolvedSignal>, i: nat)
    requires LastAt(signals, i)
    ensures M.Get(LastMap(signals), signals[i].id) == Some(ToRanked(signals[i]))
  {
    hide M.Get, M.Put;
    var n := |signals| - 1;
    M.GetPut(LastMap(signals[..n]), signals[n].id, ToRanked(signals[n]), signals[i].id);
    if i < n {
      LastMapHolds(signals[..n], i);
    }
  }

  /** The excluded list: one entry for each excluded id, in the order in which the ids first occur, holding
      the last exclusion with that id. */
  lemma ExcludedList(node: AudienceNode, i: nat)
    ensures |Excluded(node)| == |Firsts(node.excludes)|
    ensures i < |Excluded(node)| ==> Excluded(node)[i].id == Firsts(node.excludes)[i]
    ensures LastAt(node.excludes, i) ==> ToRanked(node.excludes[i]) in Excluded(node)
  {
    var m := LastMap(node.excludes);
    KeysAreFirsts(node.excludes);
    LastMapIds(node.excludes);
    if LastAt(node.excludes, i) {
      LastMapHolds(node.excludes, i);
      FoundInValues(m, node.excludes[i].id);
    }
    hide LastMap;
    if i < |m| {
      assert m[i] in m;
    }
  }

  lemma {:induction false} FoundInValues(m: SignalMap, k: string)
    requires M.Get(m, k).Some?
    ensures M.Get(m, k).value in Values(m)
  {
    if m[0].0 == k {
      assert Values(m)[0] == M.Get(m, k).value;
    } else {
      FoundInValues(m[1..], k);
      assert Values(m) == [m[0].1] + Values(m[1..]);
    }
  }
}
