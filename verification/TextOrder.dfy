// The default order of Array.prototype.sort on strings: lexicographic by UTF-16 code unit.
module TextOrder {
  import opened Hashes

  predicate Less(a: Text, b: Text) {
    b != [] && (a == [] || a[0] < b[0] || (a[0] == b[0] && Less(a[1..], b[1..])))
  }

  lemma {:induction false} LessTotal(a: Text, b: Text)
    ensures a == b || Less(a, b) || Less(b, a)
  {
    if a != [] && b != [] && a[0] == b[0] {
      LessTotal(a[1..], b[1..]);
      assert a == [a[0]] + a[1..] && b == [b[0]] + b[1..];
    }
  }

  lemma {:induction false} LessAsymmetric(a: Text, b: Text)
    requires Less(a, b)
    ensures !Less(b, a) && a != b
  {
    if a != [] && a[0] == b[0] {
      LessAsymmetric(a[1..], b[1..]);
    }
  }

  lemma {:induction false} LessTransitive(a: Text, b: Text, c: Text)
    requires Less(a, b) && Less(b, c)
    ensures Less(a, c)
  {
    if a != [] && a[0] == b[0] && b[0] == c[0] {
      LessTransitive(a[1..], b[1..], c[1..]);
    }
  }

  /** After a common prefix of k units, the first text ends or has the smaller unit. */
  ghost predicate SplitsAt(a: Text, b: Text, k: int) {
    0 <= k <= |a| && k <= |b| && a[..k] == b[..k] && ((k == |a| && k < |b|) || (k < |a| && k < |b| && a[k] < b[k]))
  }

  ghost predicate LexBefore(a: Text, b: Text) {
    exists k :: SplitsAt(a, b, k)
  }

  lemma SplitsTail(a: Text, b: Text, k: int)
    requires a != [] && b != [] && a[0] == b[0]
    ensures SplitsAt(a[1..], b[1..], k) ==> SplitsAt(a, b, k + 1)
    ensures SplitsAt(a, b, k) ==> SplitsAt(a[1..], b[1..], k - 1)
  {
    if SplitsAt(a[1..], b[1..], k) {
      assert a[..k + 1] == [a[0]] + a[1..][..k] && b[..k + 1] == [b[0]] + b[1..][..k];
    }
    if SplitsAt(a, b, k) && k > 0 {
      assert a[1..][..k - 1] == a[..k][1..] && b[1..][..k - 1] == b[..k][1..];
    }
  }

  /** The order in one piece: some such place exists. */
  lemma {:induction false} LessMeans(a: Text, b: Text)
    ensures Less(a, b) <==> LexBefore(a, b)
  {
    if a != [] && b != [] && a[0] == b[0] {
      LessMeans(a[1..], b[1..]);
      if k :| SplitsAt(a[1..], b[1..], k) {
        SplitsTail(a, b, k);
      }
      if k :| SplitsAt(a, b, k) {
        SplitsTail(a, b, k);
      }
    } else {
      assert a[..0] == b[..0];
      assert Less(a, b) ==> SplitsAt(a, b, 0);
      if k :| SplitsAt(a, b, k) {
        FirstUnits(a, b, k);
      }
    }
  }

  lemma FirstUnits(a: Text, b: Text, k: int)
    requires SplitsAt(a, b, k)
    ensures k > 0 ==> a != [] && b != [] && a[0] == b[0]
  {
    if k > 0 {
      assert a[..k][0] == b[..k][0];
    }
  }

  /** Distinct keys come out in ascending order of their code units. */
  lemma SortKeysAscending(ks: seq<Text>, i: nat, j: nat) returns (k: nat)
    requires DistinctTexts(ks) && i < j < |ks|
    ensures var a, b := SortKeys(ks)[i], SortKeys(ks)[j];
            && k <= |a| && k <= |b| && a[..k] == b[..k]
            && ((k == |a| && k < |b|) || (k < |a| && k < |b| && a[k] < b[k]))
  {
    hide Less;
    SortKeysSorted(ks);
    var a, b := SortKeys(ks)[i], SortKeys(ks)[j];
    assert Less(a, b);
    LessMeans(a, b);
    k :| SplitsAt(a, b, k);
  }

  ghost predicate StrictlySorted(ks: seq<Text>) {
    forall i, j :: 0 <= i < j < |ks| ==> Less(ks[i], ks[j])
  }

  ghost predicate DistinctTexts(ks: seq<Text>) {
    forall i, j :: 0 <= i < j < |ks| ==> ks[i] != ks[j]
  }

  function InsertKey(s: seq<Text>, k: Text): (r: seq<Text>)
    ensures |r| == |s| + 1
    ensures forall x :: x in r <==> x in s || x == k
  {
    if s == [] then [k]
    else if Less(k, s[0]) then [k] + s
    else [s[0]] + InsertKey(s[1..], k)
  }

  function SortKeys(ks: seq<Text>): (r: seq<Text>)
    ensures |r| == |ks|
    ensures forall x :: x in r <==> x in ks
  {
    if ks == [] then [] else InsertKey(SortKeys(ks[1..]), ks[0])
  }

  lemma {:induction false} InsertKeySorted(s: seq<Text>, k: Text)
    requires StrictlySorted(s) && k !in s
    ensures StrictlySorted(InsertKey(s, k))
  {
    hide Less;
    if s != [] {
      LessTotal(k, s[0]);
      if Less(k, s[0]) {
        forall j | 1 <= j < |s| ensures Less(k, s[j]) {
          LessTransitive(k, s[0], s[j]);
        }
      } else {
        var r := InsertKey(s[1..], k);
        InsertKeySorted(s[1..], k);
        forall j | 0 <= j < |r| ensures Less(s[0], r[j]) {
          assert r[j] in r;
        }
      }
    }
  }

  lemma {:induction false} SortKeysSorted(ks: seq<Text>)
    requires DistinctTexts(ks)
    ensures StrictlySorted(SortKeys(ks))
  {
    if ks != [] {
      assert forall i, j :: 0 <= i < j < |ks[1..]| ==> ks[1..][i] == ks[i + 1] && ks[1..][j] == ks[j + 1];
      SortKeysSorted(ks[1..]);
      InsertKeySorted(SortKeys(ks[1..]), ks[0]);
    }
  }

  lemma HeadIn(b: seq<Text>)
    ensures b == [] || b[0] in b
  {}

  /** A strictly sorted list is determined by its elements. */
  lemma {:induction false} SortedUnique(a: seq<Text>, b: seq<Text>)
    requires StrictlySorted(a) && StrictlySorted(b) && forall x :: x in a <==> x in b
    ensures a == b
  {
    hide Less;
    if a == [] {
      HeadIn(b);
    } else {
      assert a[0] in b && b != [] && b[0] in a;
      SameFirst(a, b);
      forall x ensures x in a[1..] <==> x in b[1..] {
        TailMember(a, x);
        TailMember(b, x);
      }
      SortedUnique(a[1..], b[1..]);
      assert a == [a[0]] + a[1..] && b == [b[0]] + b[1..];
    }
  }

  lemma SameFirst(a: seq<Text>, b: seq<Text>)
    requires StrictlySorted(a) && StrictlySorted(b) && a != [] && b != [] && a[0] in b && b[0] in a
    ensures a[0] == b[0]
  {
    hide Less;
    var i :| 0 <= i < |b| && b[i] == a[0];
    var j :| 0 <= j < |a| && a[j] == b[0];
    if i > 0 && j > 0 {
      LessAsymmetric(a[0], b[0]);
    }
  }

  lemma TailMember(a: seq<Text>, x: Text)
    requires StrictlySorted(a) && a != []
    ensures x in a[1..] <==> x in a && x != a[0]
  {
    hide Less;
    if x in a[1..] {
      var i :| 0 <= i < |a| - 1 && a[1..][i] == x;
      LessAsymmetric(a[0], a[i + 1]);
    }
  }
}
