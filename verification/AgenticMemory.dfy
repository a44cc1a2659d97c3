// src/domain/agenticHelpers.ts: the bounded most-recent-first index of past workflows.
module AgenticMemory {
  import opened Numbers
  import opened Sequences
  import opened Ranking

  const MEMORY_MAX: nat := 50
  const RECALL_MAX: nat := 3

  /** The parts of an entry the index looks at. */
  datatype MemoryEntry = MemoryEntry(memoryId: string, industries: seq<string>, kpi: string, briefInput: string)

  /** What the key-value store does during one call: the stored index may have outlived its 30 days
      before it, and each access may fail. */
  datatype Faults = Faults(expired: bool, entryPutFails: bool, indexReadable: bool, indexPutFails: bool)

  function Without(idx: seq<MemoryEntry>, id: string): seq<MemoryEntry> {
    Filter(idx, (e: MemoryEntry) => e.memoryId != id)
  }

  function Take(idx: seq<MemoryEntry>, n: nat): (r: seq<MemoryEntry>)
    ensures r <= idx && |r| == if n < |idx| then n else |idx|
  {
    if |idx| <= n then idx else idx[..n]
  }

  /** The new entry first, its older version dropped, cut to the bound. */
  function Remembered(idx: seq<MemoryEntry>, entry: MemoryEntry): seq<MemoryEntry> {
    Take([entry] + Without(idx, entry.memoryId), MEMORY_MAX)
  }

  datatype Brief = Brief(industries: seq<string>, kpi: string)

  /** toLowerCase is a parameter. */
  function Overlap(m: MemoryEntry, brief: Brief, lower: string -> string): nat {
    var wanted := seq(|brief.industries|, i requires 0 <= i < |brief.industries| => lower(brief.industries[i]));
    |Filter(m.industries, (i: string) => lower(i) in wanted)|
  }

  function Similarity(m: MemoryEntry, brief: Brief, lower: string -> string): nat {
    Overlap(m, brief, lower) * 2 + if m.kpi == brief.kpi then 1 else 0
  }

  function Candidates(idx: seq<MemoryEntry>, brief: Brief, lower: string -> string): seq<MemoryEntry> {
    Filter(idx, (m: MemoryEntry) => Similarity(m, brief, lower) > 0)
  }

  function BySimilarity(brief: Brief, lower: string -> string): MemoryEntry -> real {
    (m: MemoryEntry) => -(Similarity(m, brief, lower) as real)
  }

  class Memory {
    /** The stored index; None before the first write. */
    var index: Option<seq<MemoryEntry>>

    constructor ()
      ensures Index() == []
    {
      index := None;
    }

    function Index(): seq<MemoryEntry>
      reads this
    {
      match index
      case Some(idx) => idx
      case None => []
    }

    method RememberWorkflow(entry: MemoryEntry, faults: Faults)
      modifies this
      ensures Index() == StepIndex(old(Index()), Call(entry, faults))
    {
      if faults.expired {
        index := None;
      }
      if faults.entryPutFails {
        return;
      }
      var idx: seq<MemoryEntry> := [];
      if faults.indexReadable {
        idx := Index();
      }
      idx := Take([entry] + Filter(idx, (e: MemoryEntry) => e.memoryId != entry.memoryId), MEMORY_MAX);
      if faults.indexPutFails {
        return;
      }
      index := Some(idx);
    }

    method RecallSimilar(brief: Brief, lower: string -> string, readable: bool) returns (matches: seq<MemoryEntry>)
      ensures var idx := if readable then Index() else [];
              var pool := Candidates(idx, brief, lower);
              && matches == Recalled(idx, brief, lower)
              && IsTop(matches, pool, BySimilarity(brief, lower))
              && |matches| == (if 3 < |pool| then 3 else |pool|)
              && forall r :: IsArrangement(r, pool, BySimilarity(brief, lower)) ==> matches == SliceTo(r, 3)
    {
      var idx: seq<MemoryEntry> := [];
      if readable {
        idx := Index();
      }
      var scored := Filter(idx, (m: MemoryEntry) => Similarity(m, brief, lower) > 0);
      matches := SliceTo(SortBy(scored, BySimilarity(brief, lower)), RECALL_MAX);
      assert scored == Candidates(idx, brief, lower);
      RecalledBest(idx, brief, lower);
    }
  }

  function Recalled(idx: seq<MemoryEntry>, brief: Brief, lower: string -> string): seq<MemoryEntry> {
    SliceTo(SortBy(Candidates(idx, brief, lower), BySimilarity(brief, lower)), RECALL_MAX)
  }

  /** r holds the entries of pool, most similar first, equally similar ones in pool order (that is,
      most recent first). */
  ghost predicate IsArrangement(r: seq<MemoryEntry>, pool: seq<MemoryEntry>, key: MemoryEntry -> real) {
    SortedBy(r, key) && SameByKey(r, pool, key)
  }

  lemma RecalledBest(idx: seq<MemoryEntry>, brief: Brief, lower: string -> string)
    ensures var pool := Candidates(idx, brief, lower);
            && IsTop(Recalled(idx, brief, lower), pool, BySimilarity(brief, lower))
            && |Recalled(idx, brief, lower)| == (if 3 < |pool| then 3 else |pool|)
            && forall r :: IsArrangement(r, pool, BySimilarity(brief, lower)) ==> Recalled(idx, brief, lower) == SliceTo(r, 3)
  {
    var pool, key := Candidates(idx, brief, lower), BySimilarity(brief, lower);
    TopOfSort(pool, key, RECALL_MAX);
    forall r | IsArrangement(r, pool, key) ensures r == SortBy(pool, key) {
      hide *;
      ArrangementIsSort(r, pool, key);
    }
  }

  // ---------------------------------------------------------------------
  // Runs
  // ---------------------------------------------------------------------

  datatype Call = Call(entry: MemoryEntry, faults: Faults)

  function StepIndex(idx: seq<MemoryEntry>, c: Call): seq<MemoryEntry> {
    var live := if c.faults.expired then [] else idx;
    if c.faults.entryPutFails || c.faults.indexPutFails then live
    else Remembered(if c.faults.indexReadable then live else [], c.entry)
  }

  function RunIndex(calls: seq<Call>): seq<MemoryEntry> {
    if calls == [] then [] else StepIndex(RunIndex(calls[..|calls| - 1]), calls[|calls| - 1])
  }

  /** The entries a run has really stored: a failed write stores nothing, and an expired or unreadable
      index forgets what came before. */
  function Stored(calls: seq<Call>): seq<MemoryEntry> {
    if calls == [] then [] else StoreStep(Stored(calls[..|calls| - 1]), calls[|calls| - 1])
  }

  function StoreStep(history: seq<MemoryEntry>, c: Call): seq<MemoryEntry> {
    var before := if c.faults.expired then [] else history;
    if c.faults.entryPutFails || c.faults.indexPutFails then before
    else if c.faults.indexReadable then before + [c.entry]
    else [c.entry]
  }

  /** The latest version of every id in a history, most recent first, without any bound. */
  function Latest(history: seq<MemoryEntry>): seq<MemoryEntry> {
    if history == [] then []
    else
      var e := history[|history| - 1];
      [e] + Without(Latest(history[..|history| - 1]), e.memoryId)
  }

  ghost predicate DistinctIds(idx: seq<MemoryEntry>) {
    forall i, j :: 0 <= i < j < |idx| ==> idx[i].memoryId != idx[j].memoryId
  }

  lemma WithoutAppend(idx: seq<MemoryEntry>, e: MemoryEntry, id: string)
    ensures Without(idx + [e], id) == if e.memoryId != id then Without(idx, id) + [e] else Without(idx, id)
  {
    FilterAppend(idx, e, (x: MemoryEntry) => x.memoryId != id);
  }

  /** Dropping one id from a list without repeats removes at most one entry. */
  lemma {:induction false} WithoutDistinct(idx: seq<MemoryEntry>, id: string)
    requires DistinctIds(idx)
    ensures DistinctIds(Without(idx, id)) && |Without(idx, id)| >= |idx| - 1
    ensures (forall i :: 0 <= i < |idx| ==> idx[i].memoryId != id) ==> Without(idx, id) == idx
  {
    if idx != [] {
      var n := |idx| - 1;
      var init, e := idx[..n], idx[n];
      assert idx == init + [e];
      WithoutAppend(init, e, id);
      WithoutDistinct(init, id);
      var rest := Without(init, id);
      hide Filter;
      forall i | 0 <= i < |rest| ensures rest[i].memoryId != e.memoryId {
        assert rest[i] in init;
        var j :| 0 <= j < n && init[j] == rest[i];
      }
    }
  }

  lemma WithoutHasNone(idx: seq<MemoryEntry>, id: string)
    ensures forall i :: 0 <= i < |Without(idx, id)| ==> Without(idx, id)[i].memoryId != id
  {
    var rest := Without(idx, id);
    assert forall i :: 0 <= i < |rest| ==> rest[i] in rest;
  }

  lemma {:induction false} LatestDistinct(history: seq<MemoryEntry>)
    ensures DistinctIds(Latest(history))
  {
    if history != [] {
      var init, e := history[..|history| - 1], history[|history| - 1];
      hide Filter;
      LatestDistinct(init);
      WithoutDistinct(Latest(init), e.memoryId);
      WithoutHasNone(Latest(init), e.memoryId);
    }
  }

  ghost predicate IsLastOf(history: seq<MemoryEntry>, i: int) {
    0 <= i < |history| && forall j :: i < j < |history| ==> history[j].memoryId != history[i].memoryId
  }

  /** The entry is the last one with its id. */
  ghost predicate IsLastVersion(history: seq<MemoryEntry>, e: MemoryEntry) {
    exists i :: IsLastOf(history, i) && history[i] == e
  }

  lemma LastVersionStep(history: seq<MemoryEntry>, last: MemoryEntry, e: MemoryEntry)
    ensures IsLastVersion(history + [last], e) <==> e == last || (IsLastVersion(history, e) && e.memoryId != last.memoryId)
  {
    var all, n := history + [last], |history|;
    if e == last {
      assert IsLastOf(all, n) && all[n] == e;
    } else if IsLastVersion(history, e) && e.memoryId != last.memoryId {
      var i :| IsLastOf(history, i) && history[i] == e;
      assert IsLastOf(all, i) && all[i] == e;
    }
    if e != last && IsLastVersion(all, e) {
      var i :| IsLastOf(all, i) && all[i] == e;
      assert all[n].memoryId != all[i].memoryId;
      assert IsLastOf(history, i) && history[i] == e by {
        assert forall j :: i < j < |history| ==> all[j] == history[j];
      }
    }
  }

  /** Latest holds exactly the last version of every id. */
  lemma {:induction false} LatestExact(history: seq<MemoryEntry>, e: MemoryEntry)
    ensures e in Latest(history) <==> IsLastVersion(history, e)
  {
    if history != [] {
      hide IsLastVersion;
      var init, last := history[..|history| - 1], history[|history| - 1];
      assert history == init + [last];
      LatestExact(init, e);
      LastVersionStep(init, last, e);
    }
  }

  lemma WithoutConcat(a: seq<MemoryEntry>, b: seq<MemoryEntry>, id: string)
    ensures Without(a + b, id) == Without(a, id) + Without(b, id)
  {
    FilterConcat(a, b, (e: MemoryEntry) => e.memoryId != id);
  }

  /** Cutting before an update loses nothing that the cut after it would keep. */
  lemma CutCommutes(full: seq<MemoryEntry>, entry: MemoryEntry)
    requires DistinctIds(full)
    ensures Remembered(Take(full, MEMORY_MAX), entry) == Remembered(full, entry)
  {
    hide Filter, DistinctIds, Without;
    if |full| > MEMORY_MAX {
      var kept, cut, id := full[..MEMORY_MAX], full[MEMORY_MAX..], entry.memoryId;
      assert full == kept + cut;
      WithoutConcat(kept, cut, id);
      DistinctPrefix(full, MEMORY_MAX);
      WithoutDistinct(kept, id);
      TakeConcat([entry] + Without(kept, id), Without(cut, id), MEMORY_MAX);
      assert ([entry] + Without(kept, id)) + Without(cut, id) == [entry] + (Without(kept, id) + Without(cut, id));
    }
  }

  lemma DistinctPrefix(full: seq<MemoryEntry>, n: nat)
    requires DistinctIds(full) && n <= |full|
    ensures DistinctIds(full[..n])
  {}

  lemma TakeConcat(a: seq<MemoryEntry>, b: seq<MemoryEntry>, n: nat)
    requires |a| >= n
    ensures Take(a + b, n) == Take(a, n)
  {}

  /** Over any run, with any storage faults, the bounded index is the first 50 of the unbounded
      most-recent-first list of what was stored: cutting at every step equals cutting once. */
  lemma {:induction false} IndexIsRecentHistory(calls: seq<Call>)
    ensures RunIndex(calls) == Take(Latest(Stored(calls)), MEMORY_MAX)
  {
    hide Take, Latest, StepIndex, StoreStep;
    if calls != [] {
      var init, c := calls[..|calls| - 1], calls[|calls| - 1];
      IndexIsRecentHistory(init);
      StepKeepsRecent(Stored(init), c);
    } else {
      NothingTaken();
    }
  }

  lemma StepKeepsRecent(history: seq<MemoryEntry>, c: Call)
    ensures StepIndex(Take(Latest(history), MEMORY_MAX), c) == Take(Latest(StoreStep(history, c)), MEMORY_MAX)
  {
    hide Take, Latest, Without, DistinctIds, Remembered;
    NothingTaken();
    var before := if c.faults.expired then [] else history;
    LatestDistinct(before);
    CutCommutes(Latest(before), c.entry);
    LatestAppend(before, c.entry);
    LatestAppend([], c.entry);
    assert [] + [c.entry] == [c.entry];
  }

  lemma NothingTaken()
    ensures Latest([]) == [] && Take([], MEMORY_MAX) == []
  {}

  lemma LatestAppend(history: seq<MemoryEntry>, e: MemoryEntry)
    ensures Latest(history + [e]) == [e] + Without(Latest(history), e.memoryId)
    ensures Take(Latest(history + [e]), MEMORY_MAX) == Remembered(Latest(history), e)
    ensures history == [] ==> Latest(history) == []
  {
    assert (history + [e])[..|history|] == history;
  }

  /** Recall after any run: the (at most three) most similar of the remembered entries with a positive
      score, most similar first, and none of the others is more similar. */
  lemma RecallExact(calls: seq<Call>, brief: Brief, lower: string -> string)
    ensures var matches, pool := Recalled(RunIndex(calls), brief, lower), Candidates(RunIndex(calls), brief, lower);
            IsTop(matches, pool, BySimilarity(brief, lower)) && |matches| == if 3 < |pool| then 3 else |pool|
  {
    TopOfSort(Candidates(RunIndex(calls), brief, lower), BySimilarity(brief, lower), RECALL_MAX);
  }

  /** What is recalled is always the last stored version of its id, never a superseded one. */
  lemma RecallIsStored(calls: seq<Call>, brief: Brief, lower: string -> string, m: MemoryEntry)
    requires m in Recalled(RunIndex(calls), brief, lower)
    ensures Similarity(m, brief, lower) > 0
    ensures IsLastVersion(Stored(calls), m)
  {
    var pool := Candidates(RunIndex(calls), brief, lower);
    var matches := Recalled(RunIndex(calls), brief, lower);
    RecallExact(calls, brief, lower);
    assert m in pool by {
      hide Recalled, Candidates, SortedBy, RunIndex;
      assert m in multiset(matches);
      assert m in multiset(pool);
    }
    hide Recalled, IsTop, RunIndex, Similarity;
    assert m in RunIndex(calls);
    IndexIsRecentHistory(calls);
    LatestExact(Stored(calls), m);
  }

  // ---------------------------------------------------------------------
  // What the scores and the steps mean
  // ---------------------------------------------------------------------

  ghost predicate Wanted(industry: string, brief: Brief, lower: string -> string) {
    exists i :: 0 <= i < |brief.industries| && lower(brief.industries[i]) == lower(industry)
  }

  lemma OverlapAppend(m: MemoryEntry, industry: string, brief: Brief, lower: string -> string)
    ensures Overlap(m.(industries := m.industries + [industry]), brief, lower) ==
            Overlap(m, brief, lower) + if Wanted(industry, brief, lower) then 1 else 0
  {
    var wanted := seq(|brief.industries|, i requires 0 <= i < |brief.industries| => lower(brief.industries[i]));
    FilterAppend(m.industries, industry, (i: string) => lower(i) in wanted);
    if Wanted(industry, brief, lower) {
      var i :| 0 <= i < |brief.industries| && lower(brief.industries[i]) == lower(industry);
      assert wanted[i] in wanted;
    }
  }

  /** One point for the same KPI and two for every industry that the brief shares, whatever its case. */
  lemma SimilarityLaw(m: MemoryEntry, industry: string, brief: Brief, lower: string -> string)
    ensures Similarity(m.(industries := []), brief, lower) == if m.kpi == brief.kpi then 1 else 0
    ensures Similarity(m.(industries := m.industries + [industry]), brief, lower) ==
            Similarity(m, brief, lower) + if Wanted(industry, brief, lower) then 2 else 0
  {
    OverlapAppend(m, industry, brief, lower);
    hide Wanted;
  }

  ghost predicate Shares(m: MemoryEntry, brief: Brief, lower: string -> string) {
    m.kpi == brief.kpi || exists j :: 0 <= j < |m.industries| && Wanted(m.industries[j], brief, lower)
  }

  lemma {:induction false} SharesIff(m: MemoryEntry, brief: Brief, lower: string -> string)
    ensures Similarity(m, brief, lower) > 0 <==> Shares(m, brief, lower)
    decreases |m.industries|
  {
    if m.industries == [] {
      assert m == m.(industries := []);
      SimilarityLaw(m, "", brief, lower);
    } else {
      var n := |m.industries| - 1;
      var init := m.(industries := m.industries[..n]);
      assert m == init.(industries := init.industries + [m.industries[n]]);
      SharesIff(init, brief, lower);
      SimilarityLaw(init, m.industries[n], brief, lower);
      hide Similarity, Wanted;
      SharesStep(init, m.industries[n], brief, lower);
    }
  }

  lemma SharesStep(m: MemoryEntry, industry: string, brief: Brief, lower: string -> string)
    ensures Shares(m.(industries := m.industries + [industry]), brief, lower) <==>
            Shares(m, brief, lower) || Wanted(industry, brief, lower)
  {
    hide Wanted;
    var more := m.(industries := m.industries + [industry]);
    assert more.industries[|m.industries|] == industry;
    if j :| 0 <= j < |m.industries| && Wanted(m.industries[j], brief, lower) {
      assert more.industries[j] == m.industries[j];
    }
  }

  /** Recall offers the entries that share an industry or the KPI, most similar first, and prefers
      none that is left out. */
  lemma RecallOrder(idx: seq<MemoryEntry>, brief: Brief, lower: string -> string, i: nat, j: nat, x: MemoryEntry)
    ensures x in Candidates(idx, brief, lower) <==> x in idx && Shares(x, brief, lower)
    ensures var r := Recalled(idx, brief, lower);
            && |r| <= 3
            && (i < j < |r| ==> Similarity(r[i], brief, lower) >= Similarity(r[j], brief, lower))
            && (i < |r| && x in idx && Shares(x, brief, lower) && x !in r ==> Similarity(x, brief, lower) <= Similarity(r[i], brief, lower))
  {
    SharesIff(x, brief, lower);
    var pool, key := Candidates(idx, brief, lower), BySimilarity(brief, lower);
    TopOfSort(pool, key, RECALL_MAX);
    hide Similarity, Shares, Recalled, SortBy;
    var r := Recalled(idx, brief, lower);
    RecalledBest(idx, brief, lower);
    if i < j < |r| {
      assert key(r[i]) <= key(r[j]);
    }
    if i < |r| && x in idx && Shares(x, brief, lower) && x !in r {
      TopOmits(r, pool, key, x, r[i]);
    }
  }

  function IdIsNot(id: string): MemoryEntry -> bool {
    (e: MemoryEntry) => e.memoryId != id
  }

  /** One call without faults: the entry first, then the older ones without its previous version, 50 at most. */
  lemma PlainCall(idx: seq<MemoryEntry>, entry: MemoryEntry)
    ensures var r := StepIndex(idx, Call(entry, Faults(false, false, true, false)));
            && r != [] && r[0] == entry
            && r[1..] <= Filter(idx, IdIsNot(entry.memoryId))
            && |r| == (if |Filter(idx, IdIsNot(entry.memoryId))| < 50 then |Filter(idx, IdIsNot(entry.memoryId))| + 1 else 50)
  {
    FilterSame(idx, (e: MemoryEntry) => e.memoryId != entry.memoryId, IdIsNot(entry.memoryId));
    var rest := Filter(idx, IdIsNot(entry.memoryId));
    hide Filter;
    assert Without(idx, entry.memoryId) == rest;
    assert ([entry] + rest)[1..] == rest;
  }

  /** One call with faults: a failed write changes nothing, an index that cannot be read or has expired
      is started again. */
  lemma FaultyCall(idx: seq<MemoryEntry>, c: Call)
    ensures !c.faults.expired && (c.faults.entryPutFails || c.faults.indexPutFails) ==> StepIndex(idx, c) == idx
    ensures c.faults.expired && (c.faults.entryPutFails || c.faults.indexPutFails) ==> StepIndex(idx, c) == []
    ensures !c.faults.entryPutFails && !c.faults.indexPutFails && (c.faults.expired || !c.faults.indexReadable) ==>
              StepIndex(idx, c) == [c.entry]
  {
    assert Filter([], (e: MemoryEntry) => e.memoryId != c.entry.memoryId) == [];
  }

  /** The index never holds more than 50 entries, and holds 50 once there are that many ids. */
  lemma IndexBound(calls: seq<Call>)
    ensures |RunIndex(calls)| == if |Latest(Stored(calls))| < 50 then |Latest(Stored(calls))| else 50
  {
    hide RunIndex, Latest, Stored;
    IndexIsRecentHistory(calls);
  }
}
