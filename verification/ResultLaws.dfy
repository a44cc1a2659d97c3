// src/domain/compositeScorer.ts: the order of equally good matches in the final result.
module ResultLaws {
  import opened Sequences
  import opened CompositeScorer
  import opened AudienceResult
  import R = Ranking
  import M = OrderedMap

  /** x stands before y. */
  ghost predicate Precedes<T(!new)>(s: seq<T>, x: T, y: T) {
    exists i, j :: 0 <= i < j < |s| && s[i] == x && s[j] == y
  }

  lemma PrecedesAppend<T(!new)>(s: seq<T>, z: T, x: T, y: T)
    ensures Precedes(s + [z], x, y) <==> Precedes(s, x, y) || (y == z && x in s)
  {
    var all := s + [z];
    if i, j :| 0 <= i < j < |s| && s[i] == x && s[j] == y {
      assert all[i] == x && all[j] == y;
    }
    if y == z && x in s {
      var i :| 0 <= i < |s| && s[i] == x;
      assert all[i] == x && all[|s|] == y;
    }
    if i, j :| 0 <= i < j < |all| && all[i] == x && all[j] == y {
      assert s[i] == x;
      if j < |s| {
        assert s[j] == y;
      }
    }
  }

  lemma NothingPrecedes<T(!new)>(x: T, y: T)
    ensures !Precedes([], x, y)
  {}

  lemma {:induction false} WithKeyMember<T(!new)>(s: seq<T>, key: T -> real, k: real, x: T)
    ensures x in R.WithKey(s, key, k) <==> x in s && key(x) == k
  {
    if s != [] {
      var init, z := s[..|s| - 1], s[|s| - 1];
      assert s == init + [z];
      WithKeyMember(init, key, k, x);
    }
  }

  lemma {:induction false} WithKeyPrecedes<T(!new)>(s: seq<T>, key: T -> real, x: T, y: T)
    requires key(x) == key(y)
    ensures Precedes(R.WithKey(s, key, key(x)), x, y) <==> Precedes(s, x, y)
  {
    hide Precedes;
    NothingPrecedes(x, y);
    if s != [] {
      var init, z, k := s[..|s| - 1], s[|s| - 1], key(x);
      assert s == init + [z];
      WithKeyPrecedes(init, key, x, y);
      WithKeyMember(init, key, k, x);
      PrecedesAppend(init, z, x, y);
      if key(z) == k {
        PrecedesAppend(R.WithKey(init, key, k), z, x, y);
      } else {
        assert R.WithKey(s, key, k) == R.WithKey(init, key, k);
      }
    }
  }

  /** Sorting keeps the order of equal keys. */
  lemma SortPrecedes<T(!new)>(s: seq<T>, key: T -> real, x: T, y: T)
    requires key(x) == key(y) && Precedes(R.SortBy(s, key), x, y)
    ensures Precedes(s, x, y)
  {
    hide Precedes, R.SortBy;
    R.SortStable(s, key, key(x));
    WithKeyPrecedes(s, key, x, y);
    WithKeyPrecedes(R.SortBy(s, key), key, x, y);
  }

  lemma {:induction false} FilterPrecedes<T(!new)>(s: seq<T>, p: T -> bool, x: T, y: T)
    requires Precedes(Filter(s, p), x, y)
    ensures Precedes(s, x, y)
  {
    hide Precedes, Filter;
    if s == [] {
      NothingFiltered(p);
      NothingPrecedes(x, y);
    } else {
      var init, z := s[..|s| - 1], s[|s| - 1];
      assert s == init + [z];
      FilterAppend(init, z, p);
      PrecedesAppend(Filter(init, p), z, x, y);
      PrecedesAppend(init, z, x, y);
      if Precedes(Filter(init, p), x, y) {
        FilterPrecedes(init, p, x, y);
      }
    }
  }

  lemma NothingFiltered<T(!new)>(p: T -> bool)
    ensures Filter([], p) == []
  {}

  lemma {:induction false} DeletePrecedes(m: SignalMap, ks: seq<string>, e: (string, RankedSignal), f: (string, RankedSignal))
    requires Precedes(DeleteAll(m, ks), e, f)
    ensures Precedes(m, e, f)
  {
    if ks != [] {
      hide Precedes;
      var n := |ks| - 1;
      FilterPrecedes(DeleteAll(m, ks[..n]), (x: (string, RankedSignal)) => x.0 != ks[n], e, f);
      DeletePrecedes(m, ks[..n], e, f);
    }
  }

  ghost predicate FirstAt(signals: seq<ResolvedSignal>, a: nat) {
    a < |signals| && forall c :: 0 <= c < a ==> signals[c].id != signals[a].id
  }

  /** Where each id first occurs. */
  ghost predicate ArePlaces(places: seq<nat>, signals: seq<ResolvedSignal>) {
    && |places| == |Firsts(signals)|
    && (forall i :: 0 <= i < |places| ==> FirstAt(signals, places[i]) && signals[places[i]].id == Firsts(signals)[i])
    && forall i, j :: 0 <= i < j < |places| ==> places[i] < places[j]
  }

  lemma {:induction false} InFirsts(signals: seq<ResolvedSignal>, id: string)
    ensures id in Firsts(signals) <==> exists c :: 0 <= c < |signals| && signals[c].id == id
  {
    if signals != [] {
      var init, s := signals[..|signals| - 1], signals[|signals| - 1];
      InFirsts(init, id);
      if c :| 0 <= c < |init| && init[c].id == id {
        assert signals[c].id == id;
      }
      if c :| 0 <= c < |signals| && signals[c].id == id && c < |init| {
        assert init[c].id == id;
      }
    }
  }

  lemma {:induction false} FirstPlaces(signals: seq<ResolvedSignal>) returns (places: seq<nat>)
    ensures ArePlaces(places, signals)
  {
    if signals == [] {
      places := [];
    } else {
      var n := |signals| - 1;
      var init, s := signals[..n], signals[n];
      var before := FirstPlaces(init);
      InFirsts(init, s.id);
      if s.id in Firsts(init) {
        places := before;
      } else {
        places := before + [n];
        assert FirstAt(signals, n);
      }
      forall i | 0 <= i < |before| ensures FirstAt(signals, before[i]) && signals[before[i]].id == Firsts(init)[i] {
        assert FirstAt(init, before[i]);
      }
    }
  }

  /** Matches of equal score are listed in the order in which their ids first occur among the query's signals. */
  lemma TiesKeepOrder(node: AudienceNode, i: nat, j: nat) returns (a: nat, b: nat)
    requires i < j < |Matched(node)| && Matched(node)[i].matchScore == Matched(node)[j].matchScore
    ensures a < b && FirstAt(node.signals, a) && FirstAt(node.signals, b)
    ensures node.signals[a].id == Matched(node)[i].id && node.signals[b].id == Matched(node)[j].id
  {
    var best, ks := BestMap(node.signals), M.Keys(LastMap(node.excludes));
    var kept, x, y := DeleteAll(best, ks), Matched(node)[i], Matched(node)[j];
    assert Precedes(Matched(node), x, y);
    hide DeleteAll, BestMap, LastMap, R.SortBy, FirstAt;
    SortPrecedes(Values(kept), NegScore, x, y);
    var p, q :| 0 <= p < q < |Values(kept)| && Values(kept)[p] == x && Values(kept)[q] == y;
    assert Precedes(kept, kept[p], kept[q]);
    DeletePrecedes(best, ks, kept[p], kept[q]);
    var k, l :| 0 <= k < l < |best| && best[k] == kept[p] && best[l] == kept[q];
    KeyIsId(node.signals, best[k]);
    KeyIsId(node.signals, best[l]);
    KeysAreFirsts(node.signals);
    var places := FirstPlaces(node.signals);
    a, b := places[k], places[l];
  }
}
