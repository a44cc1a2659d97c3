// src/domain/capabilityService.ts: the capability document behind a key-value cache.  The document is
// an abstract function of the signing posture and the 3.2 flag; the rest of the environment is fixed.
module CapabilityCache {
  import opened Numbers

  /** What the cache key is derived from: the key id of the signing key, if there is one, and the flag. */
  datatype Posture = Posture(kid: Option<string>, adcp32: bool)

  /** A capability document: the members that every answer carries, and the per-protocol blocks. */
  datatype Capabilities = Capabilities(common: int, blocks: map<string, int>)

  const OFF: string := "off"
  const FLAG_SUFFIX: string := "_adcp32"

  function KidOrOff(p: Posture): string {
    match p.kid
    case Some(kid) => kid
    case None => OFF
  }

  /** The variable part of the cache key; the fixed part comes before it. */
  function CacheKeyFor(cacheKey: string, p: Posture): string {
    cacheKey + "_ws-" + KidOrOff(p) + if p.adcp32 then FLAG_SUFFIX else ""
  }

  predicate EndsWith(s: string, suffix: string) {
    |s| >= |suffix| && s[|s| - |suffix|..] == suffix
  }

  /** Not one of the key ids that can be mistaken for something else. */
  predicate OrdinaryKid(p: Posture) {
    p.kid.Some? ==> p.kid.value != OFF && !EndsWith(p.kid.value, FLAG_SUFFIX)
  }

  /** Exactly when two different postures share a key: one has the key id "off" and the other no key,
      or they differ in the flag and the name without it is the other name with the suffix. */
  predicate Collide(p: Posture, q: Posture) {
    p != q &&
    if p.adcp32 == q.adcp32 then KidOrOff(p) == KidOrOff(q)
    else if p.adcp32 then KidOrOff(q) == KidOrOff(p) + FLAG_SUFFIX
    else KidOrOff(p) == KidOrOff(q) + FLAG_SUFFIX
  }

  lemma SamePrefix(a: string, b: string, c: string)
    ensures a + b == a + c <==> b == c
  {
    if a + b == a + c {
      assert (a + b)[|a|..] == b;
      assert (a + c)[|a|..] == c;
    }
  }

  lemma SameSuffix(a: string, b: string, c: string)
    ensures a + c == b + c <==> a == b
  {
    if a + c == b + c {
      assert (a + c)[..|a + c| - |c|] == a;
      assert (b + c)[..|b + c| - |c|] == b;
    }
  }

  lemma KeyParts(cacheKey: string, p: Posture)
    ensures CacheKeyFor(cacheKey, p) == (cacheKey + "_ws-") + (KidOrOff(p) + if p.adcp32 then FLAG_SUFFIX else "")
  {}

  /** Two postures share a cache key exactly when they are equal or collide as described. */
  lemma SameKeyIff(cacheKey: string, p: Posture, q: Posture)
    ensures CacheKeyFor(cacheKey, p) == CacheKeyFor(cacheKey, q) <==> p == q || Collide(p, q)
  {
    KeyParts(cacheKey, p);
    KeyParts(cacheKey, q);
    var a, b := KidOrOff(p) + (if p.adcp32 then FLAG_SUFFIX else ""), KidOrOff(q) + (if q.adcp32 then FLAG_SUFFIX else "");
    hide CacheKeyFor;
    SamePrefix(cacheKey + "_ws-", a, b);
    SameSuffix(KidOrOff(p), KidOrOff(q), FLAG_SUFFIX);
    assert KidOrOff(p) + "" == KidOrOff(p) && KidOrOff(q) + "" == KidOrOff(q);
  }

  /** Every collision involves an unusual key id. */
  lemma OrdinaryKidsNeverCollide(p: Posture, q: Posture)
    requires OrdinaryKid(p) && OrdinaryKid(q)
    ensures !Collide(p, q)
  {
    if Collide(p, q) {
      if p.adcp32 && !q.adcp32 {
        SuffixEnds(KidOrOff(p), FLAG_SUFFIX);
      } else if q.adcp32 && !p.adcp32 {
        SuffixEnds(KidOrOff(q), FLAG_SUFFIX);
      }
    }
  }

  lemma SuffixEnds(a: string, b: string)
    ensures EndsWith(a + b, b)
  {}

  /** And every unusual key id does collide with some other posture. */
  lemma UnusualKidCollides(p: Posture)
    requires !OrdinaryKid(p)
    ensures exists q :: Collide(p, q)
  {
    if p.kid.value == OFF {
      assert Collide(p, Posture(None, p.adcp32));
    } else if !p.adcp32 {
      var stem := p.kid.value[..|p.kid.value| - |FLAG_SUFFIX|];
      assert p.kid.value == stem + FLAG_SUFFIX;
      assert Collide(p, Posture(Some(stem), true));
    } else {
      assert Collide(p, Posture(Some(p.kid.value + FLAG_SUFFIX), false));
    }
  }

  // ---------------------------------------------------------------------
  // The cache
  // ---------------------------------------------------------------------

  const VALID_PROTOCOLS: set<string> := {"media_buy", "signals", "governance", "sponsored_intelligence", "creative", "brand"}

  /** Unknown names are ignored; no names at all means everything. */
  function Project(full: Capabilities, protocols: seq<string>): Capabilities {
    if protocols == [] then full
    else full.(blocks := map name | name in full.blocks && name in VALID_PROTOCOLS && name in protocols :: full.blocks[name])
  }

  /** The store during one call: entries may have expired, reads and writes may fail. */
  datatype Faults = Faults(expired: set<string>, readFails: bool, writeFails: bool)

  class Service {
    var kv: map<string, Capabilities>
    const cacheKey: string
    const build: Posture -> Capabilities

    constructor (cacheKey: string, build: Posture -> Capabilities)
      ensures kv == map[] && this.cacheKey == cacheKey && this.build == build
    {
      this.cacheKey, this.build, kv := cacheKey, build, map[];
    }

    method GetCapabilities(p: Posture, protocols: seq<string>, faults: Faults) returns (answer: Capabilities)
      modifies this
      ensures (kv, answer) == Get(old(kv), cacheKey, build, p, protocols, faults)
    {
      kv := kv - faults.expired;
      var key := CacheKeyFor(cacheKey, p);
      var full: Option<Capabilities> := None;
      if !faults.readFails && key in kv {
        full := Some(kv[key]);
      }
      if full.None? {
        full := Some(build(p));
        if !faults.writeFails {
          kv := kv[key := build(p)];
        }
      }
      if protocols == [] {
        return full.value;
      }
      var requested := set name | name in protocols && name in VALID_PROTOCOLS;
      answer := full.value.(blocks := map name | name in full.value.blocks && name in requested :: full.value.blocks[name]);
      assert answer == Project(full.value, protocols);
    }
  }

  function Full(kv: map<string, Capabilities>, key: string, built: Capabilities, faults: Faults): Capabilities {
    var live := kv - faults.expired;
    if !faults.readFails && key in live then live[key] else built
  }

  function Get(kv: map<string, Capabilities>, cacheKey: string, build: Posture -> Capabilities, p: Posture, protocols: seq<string>, faults: Faults)
    : (map<string, Capabilities>, Capabilities)
  {
    var key, live := CacheKeyFor(cacheKey, p), kv - faults.expired;
    var hit := !faults.readFails && key in live;
    (if hit || faults.writeFails then live else live[key := build(p)], Project(Full(kv, key, build(p), faults), protocols))
  }

  datatype Call = Call(posture: Posture, protocols: seq<string>, faults: Faults)

  function Run(cacheKey: string, build: Posture -> Capabilities, calls: seq<Call>): map<string, Capabilities> {
    if calls == [] then map[]
    else
      var c := calls[|calls| - 1];
      Get(Run(cacheKey, build, calls[..|calls| - 1]), cacheKey, build, c.posture, c.protocols, c.faults).0
  }

  /** The answer to one more call after a run. */
  function Answer(cacheKey: string, build: Posture -> Capabilities, calls: seq<Call>, c: Call): Capabilities {
    Get(Run(cacheKey, build, calls), cacheKey, build, c.posture, c.protocols, c.faults).1
  }

  ghost predicate Uses(calls: seq<Call>, p: Posture) {
    exists i :: 0 <= i < |calls| && calls[i].posture == p
  }

  /** Every cached document is the fresh one of a posture used in the run, under that posture's key. */
  ghost predicate CacheOk(kv: map<string, Capabilities>, cacheKey: string, build: Posture -> Capabilities, calls: seq<Call>) {
    forall key :: key in kv ==> exists p :: Uses(calls, p) && key == CacheKeyFor(cacheKey, p) && kv[key] == build(p)
  }

  lemma UsesGrow(calls: seq<Call>, c: Call)
    ensures forall p :: Uses(calls, p) ==> Uses(calls + [c], p)
    ensures Uses(calls + [c], c.posture)
  {
    forall p | Uses(calls, p) ensures Uses(calls + [c], p) {
      var i :| 0 <= i < |calls| && calls[i].posture == p;
      assert (calls + [c])[i] == calls[i];
    }
    assert (calls + [c])[|calls|] == c;
  }

  lemma {:induction false} RunCacheOk(cacheKey: string, build: Posture -> Capabilities, calls: seq<Call>)
    ensures CacheOk(Run(cacheKey, build, calls), cacheKey, build, calls)
  {
    if calls != [] {
      var before, c := calls[..|calls| - 1], calls[|calls| - 1];
      assert calls == before + [c];
      RunCacheOk(cacheKey, build, before);
      UsesGrow(before, c);
      hide Uses, CacheKeyFor;
    }
  }

  ghost predicate AllOrdinary(calls: seq<Call>) {
    forall i :: 0 <= i < |calls| ==> OrdinaryKid(calls[i].posture)
  }

  /** Over any run of calls whose key ids are ordinary, with any expiry and any storage faults, every
      answer is the one a fresh build for its own posture would give. */
  lemma AlwaysFresh(cacheKey: string, build: Posture -> Capabilities, calls: seq<Call>, c: Call)
    requires AllOrdinary(calls) && OrdinaryKid(c.posture)
    ensures Answer(cacheKey, build, calls, c) == Project(build(c.posture), c.protocols)
  {
    RunCacheOk(cacheKey, build, calls);
    var kv, key := Run(cacheKey, build, calls), CacheKeyFor(cacheKey, c.posture);
    if key in kv {
      hide CacheKeyFor, OrdinaryKid, Run;
      var p :| Uses(calls, p) && key == CacheKeyFor(cacheKey, p) && kv[key] == build(p);
      SameKeyIff(cacheKey, p, c.posture);
      OrdinaryKidsNeverCollide(p, c.posture);
    }
  }

  function PlainCall(p: Posture): Call {
    Call(p, [], Faults({}, false, false))
  }

  lemma TwoCalls(cacheKey: string, build: Posture -> Capabilities, p: Posture, q: Posture)
    ensures Answer(cacheKey, build, [PlainCall(p)], PlainCall(q)) ==
            if CacheKeyFor(cacheKey, p) == CacheKeyFor(cacheKey, q) then build(p) else build(q)
  {
    var first := PlainCall(p);
    assert [first][..0] == [];
    hide CacheKeyFor;
    var empty: map<string, Capabilities> := map[];
    assert Run(cacheKey, build, []) == empty;
    assert empty - {} == empty;
    var kv := empty[CacheKeyFor(cacheKey, p) := build(p)];
    assert Run(cacheKey, build, [first]) == kv;
    assert kv - {} == kv;
  }

  /** No key and the key id "off" share a cache key, and so do key id "k_adcp32" without the flag and
      "k" with it: the second caller gets the first one's document. */
  lemma NamedCollisions(cacheKey: string, build: Posture -> Capabilities)
    ensures var p, q := Posture(None, false), Posture(Some("off"), false);
            p != q && Answer(cacheKey, build, [PlainCall(p)], PlainCall(q)) == build(p)
    ensures var p, q := Posture(Some("k_adcp32"), false), Posture(Some("k"), true);
            p != q && Answer(cacheKey, build, [PlainCall(p)], PlainCall(q)) == build(p)
  {
    var p, q := Posture(None, false), Posture(Some("off"), false);
    assert Collide(p, q);
    SameKeyIff(cacheKey, p, q);
    TwoCalls(cacheKey, build, p, q);
    var r, s := Posture(Some("k_adcp32"), false), Posture(Some("k"), true);
    assert "k" + FLAG_SUFFIX == "k_adcp32";
    assert Collide(r, s);
    SameKeyIff(cacheKey, r, s);
    TwoCalls(cacheKey, build, r, s);
  }

  ghost predicate FreshFor(cacheKey: string, p: Posture, q: Posture) {
    forall build: Posture -> Capabilities :: Answer(cacheKey, build, [PlainCall(p)], PlainCall(q)) == build(q)
  }

  /** A call for p never spoils the next call for q, whatever is built, if and only if the two
      postures do not collide. */
  lemma FreshIff(cacheKey: string, p: Posture, q: Posture)
    ensures FreshFor(cacheKey, p, q) <==> !Collide(p, q)
  {
    SameKeyIff(cacheKey, p, q);
    if Collide(p, q) {
      var build := (x: Posture) => if x == p then Capabilities(1, map[]) else Capabilities(0, map[]);
      TwoCalls(cacheKey, build, p, q);
      assert build(p) != build(q);
    } else {
      hide CacheKeyFor;
      forall build: Posture -> Capabilities ensures Answer(cacheKey, build, [PlainCall(p)], PlainCall(q)) == build(q) {
        TwoCalls(cacheKey, build, p, q);
      }
    }
  }

  // ---------------------------------------------------------------------
  // What the parts mean
  // ---------------------------------------------------------------------

  ghost predicate Supported(name: string) {
    || name == "media_buy" || name == "signals" || name == "governance"
    || name == "sponsored_intelligence" || name == "creative" || name == "brand"
  }

  /** A request that names protocols gets exactly the blocks that are named, supported and present,
      and everything that is common; one that names none gets the document as it is. */
  lemma ProjectExact(full: Capabilities, protocols: seq<string>, name: string)
    ensures Project(full, []) == full && Project(full, protocols).common == full.common
    ensures protocols != [] ==> (name in Project(full, protocols).blocks <==> name in full.blocks && name in protocols && Supported(name))
    ensures name in Project(full, protocols).blocks ==> name in full.blocks && Project(full, protocols).blocks[name] == full.blocks[name]
  {}

  /** The four forms of the cache key. */
  lemma CacheKeyText(cacheKey: string, kid: string)
    ensures CacheKeyFor(cacheKey, Posture(None, false)) == cacheKey + "_ws-off"
    ensures CacheKeyFor(cacheKey, Posture(None, true)) == cacheKey + "_ws-off_adcp32"
    ensures CacheKeyFor(cacheKey, Posture(Some(kid), false)) == cacheKey + "_ws-" + kid
    ensures CacheKeyFor(cacheKey, Posture(Some(kid), true)) == cacheKey + "_ws-" + kid + "_adcp32"
  {
    assert "_ws-" + "off" == "_ws-off" && "_ws-off" + "_adcp32" == "_ws-off_adcp32";
  }

  /** One call: a document that is stored and readable is answered from the store, whatever would be built;
      otherwise the fresh one is, and is stored unless writing fails.  Apart from that and from what has
      expired the store stays as it is. */
  lemma GetLaw(kv: map<string, Capabilities>, cacheKey: string, build: Posture -> Capabilities, p: Posture, protocols: seq<string>, faults: Faults, k: string)
    ensures var (after, answer), key := Get(kv, cacheKey, build, p, protocols, faults), CacheKeyFor(cacheKey, p);
            var stored := key in kv && key !in faults.expired && !faults.readFails;
            && (stored ==> answer == Project(kv[key], protocols) && key in after && after[key] == kv[key])
            && (!stored ==> answer == Project(build(p), protocols))
            && (!stored && !faults.writeFails ==> key in after && after[key] == build(p))
            && (k != key || stored || faults.writeFails ==>
                  && (k in after <==> k in kv && k !in faults.expired)
                  && (k in after ==> after[k] == kv[k]))
  {
    hide CacheKeyFor, Project;
  }
}
