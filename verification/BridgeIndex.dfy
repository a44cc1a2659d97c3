// src/connectors/taxonomyBridgeLoader.ts: lookup indexes over the taxonomy bridge.
module BridgeIndex {
  import opened Sequences
  import M = OrderedMap
  import R = Ranking

  datatype MappingType = Strong | Moderate | Contextual

  datatype BridgeEntry = BridgeEntry(
    audienceTaxonomyId: string,
    contentTaxonomyId: string,
    audienceTier1: string,
    mappingType: MappingType,
    bidirectional: bool,
    contentTaxonomyName: string)

  type Buckets = M.Entries<string, seq<BridgeEntry>>

  datatype Index = Index(byAudienceId: Buckets, byContentId: Buckets, byAudienceTier1: Buckets)

  function Push(m: Buckets, key: string, e: BridgeEntry): Buckets {
    M.Put(m, key, M.GetOr(m, key, []) + [e])
  }

  function BucketsBy(entries: seq<BridgeEntry>, key: BridgeEntry -> string): Buckets {
    if entries == [] then []
    else
      var e := entries[|entries| - 1];
      Push(BucketsBy(entries[..|entries| - 1], key), key(e), e)
  }

  function AudienceId(e: BridgeEntry): string {
    e.audienceTaxonomyId
  }

  function ContentId(e: BridgeEntry): string {
    e.contentTaxonomyId
  }

  function Tier1(e: BridgeEntry): string {
    e.audienceTier1
  }

  function IndexOf(entries: seq<BridgeEntry>): Index {
    Index(BucketsBy(entries, AudienceId), BucketsBy(entries, ContentId), BucketsBy(entries, Tier1))
  }

  method BuildBridgeIndex(entries: seq<BridgeEntry>) returns (index: Index)
    ensures index == IndexOf(entries)
  {
    var byAudienceId: Buckets, byContentId: Buckets, byAudienceTier1: Buckets := [], [], [];
    for i := 0 to |entries|
      invariant Index(byAudienceId, byContentId, byAudienceTier1) == IndexOf(entries[..i])
    {
      var entry := entries[i];
      assert entries[..i + 1][..i] == entries[..i];
      byAudienceId := Push(byAudienceId, entry.audienceTaxonomyId, entry);
      byContentId := Push(byContentId, entry.contentTaxonomyId, entry);
      byAudienceTier1 := Push(byAudienceTier1, entry.audienceTier1, entry);
    }
    assert entries[..|entries|] == entries;
    index := Index(byAudienceId, byContentId, byAudienceTier1);
  }

  function Keyed(key: BridgeEntry -> string, k: string): BridgeEntry -> bool {
    (e: BridgeEntry) => key(e) == k
  }

  /** The entries with one key, in order: what a linear scan finds. */
  function Having(entries: seq<BridgeEntry>, key: BridgeEntry -> string, k: string): seq<BridgeEntry> {
    Filter(entries, Keyed(key, k))
  }

  /** A bucket is the linear scan for its key. */
  lemma {:induction false} BucketIsScan(entries: seq<BridgeEntry>, key: BridgeEntry -> string, k: string)
    ensures M.GetOr(BucketsBy(entries, key), k, []) == Having(entries, key, k)
  {
    if entries != [] {
      var init, e := entries[..|entries| - 1], entries[|entries| - 1];
      assert entries == init + [e];
      BucketIsScan(init, key, k);
      FilterAppend(init, e, Keyed(key, k));
      var m := BucketsBy(init, key);
      M.GetPut(m, key(e), M.GetOr(m, key(e), []) + [e], k);
    }
  }

  function Order(e: BridgeEntry): real {
    match e.mappingType
    case Strong => 0.0
    case Moderate => 1.0
    case Contextual => 2.0
  }

  function FindContentMappings(index: Index, audienceId: string, maxResults: int): seq<BridgeEntry> {
    R.SliceTo(R.SortBy(M.GetOr(index.byAudienceId, audienceId, []), Order), maxResults)
  }

  predicate IsBidirectional(e: BridgeEntry) {
    e.bidirectional
  }

  function FindAudienceMappings(index: Index, contentId: string): seq<BridgeEntry> {
    Filter(M.GetOr(index.byContentId, contentId, []), IsBidirectional)
  }

  /** Strong before moderate before contextual, input order inside each: any such arrangement of the
      scanned entries, cut to the limit, is what the lookup returns. */
  lemma ContentMappingsExact(entries: seq<BridgeEntry>, audienceId: string, maxResults: int, arranged: seq<BridgeEntry>)
    requires R.SortedBy(arranged, Order) && R.SameByKey(arranged, Having(entries, AudienceId, audienceId), Order)
    ensures FindContentMappings(IndexOf(entries), audienceId, maxResults) == R.SliceTo(arranged, maxResults)
  {
    BucketIsScan(entries, AudienceId, audienceId);
    R.ArrangementIsSort(arranged, Having(entries, AudienceId, audienceId), Order);
  }

  /** And nothing left out is a stronger match than anything returned. */
  lemma ContentMappingsBest(entries: seq<BridgeEntry>, audienceId: string, maxResults: int)
    ensures R.IsTop(FindContentMappings(IndexOf(entries), audienceId, maxResults), Having(entries, AudienceId, audienceId), Order)
  {
    BucketIsScan(entries, AudienceId, audienceId);
    R.TopOfSort(Having(entries, AudienceId, audienceId), Order, maxResults);
  }

  /** The reverse lookup is an in-order scan for bidirectional entries of the content id. */
  lemma AudienceMappingsExact(entries: seq<BridgeEntry>, contentId: string)
    ensures FindAudienceMappings(IndexOf(entries), contentId) == Filter(entries, Reverse(contentId))
  {
    BucketIsScan(entries, ContentId, contentId);
    var p, both := Keyed(ContentId, contentId), Reverse(contentId);
    forall e ensures both(e) <==> p(e) && IsBidirectional(e) {
      assert p(e) <==> ContentId(e) == contentId;
    }
    FilterTwice(entries, p, IsBidirectional, both);
  }

  function Reverse(contentId: string): BridgeEntry -> bool {
    (e: BridgeEntry) => e.contentTaxonomyId == contentId && e.bidirectional
  }

  lemma {:induction false} FilterTwice(
      s: seq<BridgeEntry>, p: BridgeEntry -> bool, q: BridgeEntry -> bool, both: BridgeEntry -> bool)
    requires forall e :: both(e) <==> p(e) && q(e)
    ensures Filter(Filter(s, p), q) == Filter(s, both)
  {
    if s != [] {
      var init, e := s[..|s| - 1], s[|s| - 1];
      assert s == init + [e];
      FilterTwice(init, p, q, both);
      FilterAppend(init, e, p);
      FilterAppend(init, e, both);
      FilterAppend(Filter(init, p), e, q);
    }
  }

  function OfType(audienceId: string, t: MappingType): BridgeEntry -> bool {
    (e: BridgeEntry) => e.audienceTaxonomyId == audienceId && e.mappingType == t
  }

  function ScanFor(audienceId: string): BridgeEntry -> bool {
    (e: BridgeEntry) => e.audienceTaxonomyId == audienceId
  }

  /** What one mapping type contributes at one place in the order: all of it or nothing. */
  lemma {:induction false} TypeAtKey(entries: seq<BridgeEntry>, audienceId: string, t: MappingType, k: real)
    ensures R.WithKey(Filter(entries, OfType(audienceId, t)), Order, k) ==
            if (t == Strong && k == 0.0) || (t == Moderate && k == 1.0) || (t == Contextual && k == 2.0)
            then Filter(entries, OfType(audienceId, t)) else []
  {
    if entries != [] {
      var init, e := entries[..|entries| - 1], entries[|entries| - 1];
      assert entries == init + [e];
      TypeAtKey(init, audienceId, t, k);
      FilterAppend(init, e, OfType(audienceId, t));
      if OfType(audienceId, t)(e) {
        R.WithKeyAppend(Filter(init, OfType(audienceId, t)), e, Order, k);
      }
    }
  }

  lemma {:induction false} ScanAtKey(entries: seq<BridgeEntry>, audienceId: string, k: real)
    ensures R.WithKey(Filter(entries, ScanFor(audienceId)), Order, k) ==
            if k == 0.0 then Filter(entries, OfType(audienceId, Strong))
            else if k == 1.0 then Filter(entries, OfType(audienceId, Moderate))
            else if k == 2.0 then Filter(entries, OfType(audienceId, Contextual))
            else []
  {
    if entries != [] {
      var init, e := entries[..|entries| - 1], entries[|entries| - 1];
      assert entries == init + [e];
      ScanAtKey(init, audienceId, k);
      FilterAppend(init, e, ScanFor(audienceId));
      FilterAppend(init, e, OfType(audienceId, Strong));
      FilterAppend(init, e, OfType(audienceId, Moderate));
      FilterAppend(init, e, OfType(audienceId, Contextual));
      if ScanFor(audienceId)(e) {
        R.WithKeyAppend(Filter(init, ScanFor(audienceId)), e, Order, k);
      }
    }
  }

  lemma {:induction false} WithKeyConcat(a: seq<BridgeEntry>, b: seq<BridgeEntry>, k: real)
    ensures R.WithKey(a + b, Order, k) == R.WithKey(a, Order, k) + R.WithKey(b, Order, k)
  {
    if b == [] {
      assert a + b == a;
    } else {
      var n := |b| - 1;
      assert a + b == (a + b[..n]) + [b[n]];
      R.WithKeyAppend(a + b[..n], b[n], Order, k);
      WithKeyConcat(a, b[..n], k);
    }
  }

  lemma ConcatSorted(a: seq<BridgeEntry>, b: seq<BridgeEntry>, c: seq<BridgeEntry>)
    requires (forall e :: e in a ==> e.mappingType == Strong) && (forall e :: e in b ==> e.mappingType == Moderate)
    requires forall e :: e in c ==> e.mappingType == Contextual
    ensures R.SortedBy(a + b + c, Order)
  {
    var all := a + b + c;
    forall i, j | 0 <= i < j < |all| ensures Order(all[i]) <= Order(all[j]) {
      assert i < |a| ==> all[i] in a;
      assert |a| <= i < |a| + |b| ==> all[i] in b;
      assert |a| <= j < |a| + |b| ==> all[j] in b;
      assert |a| + |b| <= j ==> all[j] in c;
      assert j < |a| ==> all[j] in a;
      assert |a| + |b| <= i ==> all[i] in c;
    }
  }

  /** The lookup: the strong entries for the id, then the moderate, then the contextual ones, each in
      input order, cut to the limit. */
  lemma StrongFirst(entries: seq<BridgeEntry>, audienceId: string, maxResults: int)
    ensures FindContentMappings(IndexOf(entries), audienceId, maxResults) ==
            R.SliceTo(Filter(entries, OfType(audienceId, Strong)) + Filter(entries, OfType(audienceId, Moderate))
                      + Filter(entries, OfType(audienceId, Contextual)), maxResults)
  {
    var a, b, c := Filter(entries, OfType(audienceId, Strong)), Filter(entries, OfType(audienceId, Moderate)), Filter(entries, OfType(audienceId, Contextual));
    assert forall e :: e in a ==> e.mappingType == Strong;
    assert forall e :: e in b ==> e.mappingType == Moderate;
    assert forall e :: e in c ==> e.mappingType == Contextual;
    hide *;
    ConcatSorted(a, b, c);
    forall k ensures R.WithKey(a + b + c, Order, k) == R.WithKey(Having(entries, AudienceId, audienceId), Order, k) {
      TypesInOrder(entries, audienceId, k);
    }
    Arranged(a + b + c, Having(entries, AudienceId, audienceId));
    ContentMappingsExact(entries, audienceId, maxResults, a + b + c);
  }

  lemma Arranged(r: seq<BridgeEntry>, s: seq<BridgeEntry>)
    requires forall k :: R.WithKey(r, Order, k) == R.WithKey(s, Order, k)
    ensures R.SameByKey(r, s, Order)
  {}

  lemma TypesInOrder(entries: seq<BridgeEntry>, audienceId: string, k: real)
    ensures R.WithKey(Filter(entries, OfType(audienceId, Strong)) + Filter(entries, OfType(audienceId, Moderate))
                      + Filter(entries, OfType(audienceId, Contextual)), Order, k)
              == R.WithKey(Having(entries, AudienceId, audienceId), Order, k)
  {
    hide *;
    var a, b, c := Filter(entries, OfType(audienceId, Strong)), Filter(entries, OfType(audienceId, Moderate)), Filter(entries, OfType(audienceId, Contextual));
    ScanIs(entries, audienceId);
    WithKeyConcat(a + b, c, k);
    WithKeyConcat(a, b, k);
    TypeAtKey(entries, audienceId, Strong, k);
    TypeAtKey(entries, audienceId, Moderate, k);
    TypeAtKey(entries, audienceId, Contextual, k);
    ScanAtKey(entries, audienceId, k);
  }

  lemma ScanIs(entries: seq<BridgeEntry>, audienceId: string)
    ensures Having(entries, AudienceId, audienceId) == Filter(entries, ScanFor(audienceId))
  {
    forall e ensures Keyed(AudienceId, audienceId)(e) <==> ScanFor(audienceId)(e) {
      assert Keyed(AudienceId, audienceId)(e) <==> AudienceId(e) == audienceId;
    }
    hide Filter;
    FilterSame(entries, Keyed(AudienceId, audienceId), ScanFor(audienceId));
  }

  function UnderTier(t: string): BridgeEntry -> bool {
    (e: BridgeEntry) => e.audienceTier1 == t
  }

  /** The third index: the entries under a first tier, in input order. */
  lemma TierBucket(entries: seq<BridgeEntry>, t: string)
    ensures M.GetOr(IndexOf(entries).byAudienceTier1, t, []) == Filter(entries, UnderTier(t))
  {
    BucketIsScan(entries, Tier1, t);
    forall e ensures Keyed(Tier1, t)(e) <==> UnderTier(t)(e) {
      assert Keyed(Tier1, t)(e) <==> Tier1(e) == t;
    }
    FilterSame(entries, Keyed(Tier1, t), UnderTier(t));
  }
}
