// tmp-mining/trap_audit.py: template-literal regions of a source file and the backslash-parity scans.
// Lines are without their terminators; results are 1-based line numbers.
module TrapAudit {

  const BS: char := '\\'
  const APO: char := '\''
  const BACKTICK: char := '`'
  const SLASH: char := '/'

  // ---------------------------------------------------------------------
  // Regions
  // ---------------------------------------------------------------------

  /** A backtick the region finder counts: not directly after a backslash. */
  predicate BareAt(line: string, j: int) {
    0 <= j < |line| && line[j] == BACKTICK && (j == 0 || line[j - 1] != BS)
  }

  function CountBare(line: string, n: nat): nat
    requires n <= |line|
  {
    if n == 0 then 0 else CountBare(line, n - 1) + if BareAt(line, n - 1) then 1 else 0
  }

  function Bare(line: string): nat {
    CountBare(line, |line|)
  }

  /** The k-th line, counting from 1. */
  function LineAt(lines: seq<string>, k: int): string {
    if 1 <= k <= |lines| then lines[k - 1] else ""
  }

  datatype Region = Region(open: int, close: int)

  /** One region: opened by a line with exactly one bare backtick, closed by the next line with any. */
  ghost predicate IsRegion(lines: seq<string>, r: Region) {
    && 1 <= r.open < r.close <= |lines|
    && Bare(LineAt(lines, r.open)) == 1
    && Bare(LineAt(lines, r.close)) >= 1
    && forall k :: r.open < k < r.close ==> Bare(LineAt(lines, k)) == 0
  }

  ghost predicate OrderedRegions(rs: seq<Region>) {
    forall a, b :: 0 <= a < b < |rs| ==> rs[a].close < rs[b].open
  }

  ghost predicate Within(rs: seq<Region>, k: int) {
    exists a :: 0 <= a < |rs| && rs[a].open <= k <= rs[a].close
  }

  ghost predicate NoneAfter(lines: seq<string>, k: int) {
    forall m :: k < m <= |lines| ==> Bare(LineAt(lines, m)) == 0
  }

  /** Nothing before line n was missed: a line outside the regions has no bare backtick, or several
      (a literal opened and closed on the line), or opens a literal that is never closed. */
  ghost predicate CoveredTo(lines: seq<string>, rs: seq<Region>, n: nat)
    requires n <= |lines|
  {
    forall k :: 1 <= k <= n && !Within(rs, k) && Bare(LineAt(lines, k)) == 1 ==> NoneAfter(lines, k)
  }

  /** The regions of a file: well delimited, in order, and none missed. */
  ghost predicate AreRegions(lines: seq<string>, rs: seq<Region>) {
    (forall a :: 0 <= a < |rs| ==> IsRegion(lines, rs[a])) && OrderedRegions(rs) && CoveredTo(lines, rs, |lines|)
  }

  /** If two lists agree on their first n regions, the other list does not reach a region that opens
      before its own next one. */
  lemma NotWithin(lines: seq<string>, rs: seq<Region>, qs: seq<Region>, n: nat)
    requires AreRegions(lines, rs) && AreRegions(lines, qs) && n < |rs| && n <= |qs| && rs[..n] == qs[..n]
    requires n == |qs| || rs[n].open < qs[n].open
    ensures !Within(qs, rs[n].open)
  {
    var k := rs[n].open;
    forall a | 0 <= a < |qs| ensures !(qs[a].open <= k <= qs[a].close) {
      if a < n {
        assert qs[a] == qs[..n][a] == rs[..n][a] == rs[a];
        assert rs[a].close < rs[n].open;
      } else if a > n {
        assert qs[n].close < qs[a].open;
        assert IsRegion(lines, qs[n]);
      }
    }
  }

  /** A region that one list has, the other cannot start later. */
  lemma NextOpens(lines: seq<string>, rs: seq<Region>, qs: seq<Region>, n: nat)
    requires AreRegions(lines, rs) && AreRegions(lines, qs) && n < |rs| && n <= |qs| && rs[..n] == qs[..n]
    ensures n < |qs| && qs[n].open <= rs[n].open
  {
    hide AreRegions, NoneAfter, Within;
    RegionAt(lines, rs, n);
    ClosesLater(lines, rs[n]);
    if n == |qs| || rs[n].open < qs[n].open {
      NotWithin(lines, rs, qs, n);
      Unclosed(lines, qs, rs[n].open);
    }
  }

  lemma ClosesLater(lines: seq<string>, r: Region)
    requires IsRegion(lines, r)
    ensures !NoneAfter(lines, r.open)
  {
    assert Bare(LineAt(lines, r.close)) >= 1;
  }

  lemma Unclosed(lines: seq<string>, rs: seq<Region>, k: int)
    requires AreRegions(lines, rs) && 1 <= k <= |lines| && Bare(LineAt(lines, k)) == 1 && !Within(rs, k)
    ensures NoneAfter(lines, k)
  {}

  lemma SameClose(lines: seq<string>, r: Region, q: Region)
    requires IsRegion(lines, r) && IsRegion(lines, q) && r.open == q.open
    ensures r == q
  {}

  lemma {:induction false} AgreeUpTo(lines: seq<string>, rs: seq<Region>, qs: seq<Region>, n: nat)
    requires AreRegions(lines, rs) && AreRegions(lines, qs) && n <= |rs|
    ensures n <= |qs| && rs[..n] == qs[..n]
  {
    hide AreRegions, IsRegion;
    if n > 0 {
      AgreeUpTo(lines, rs, qs, n - 1);
      NextOpens(lines, rs, qs, n - 1);
      NextOpens(lines, qs, rs, n - 1);
      RegionAt(lines, rs, n - 1);
      RegionAt(lines, qs, n - 1);
      SameClose(lines, rs[n - 1], qs[n - 1]);
      assert rs[..n] == rs[..n - 1] + [rs[n - 1]] && qs[..n] == qs[..n - 1] + [qs[n - 1]];
    }
  }

  lemma RegionAt(lines: seq<string>, rs: seq<Region>, n: nat)
    requires AreRegions(lines, rs) && n < |rs|
    ensures IsRegion(lines, rs[n])
  {}

  /** A file has one list of regions. */
  lemma RegionsUnique(lines: seq<string>, rs: seq<Region>, qs: seq<Region>)
    requires AreRegions(lines, rs) && AreRegions(lines, qs)
    ensures rs == qs
  {
    hide AreRegions;
    AgreeUpTo(lines, rs, qs, |rs|);
    AgreeUpTo(lines, qs, rs, |qs|);
    assert rs[..|rs|] == rs && qs[..|qs|] == qs;
  }

  method CountBareBackticks(line: string) returns (count: nat)
    ensures count == Bare(line)
  {
    count := 0;
    for j := 0 to |line|
      invariant count == CountBare(line, j)
    {
      if line[j] == BACKTICK && (j == 0 || line[j - 1] != BS) {
        count := count + 1;
      }
    }
  }

  /** The forward scan for the closing line: the first one after line index i with a bare backtick. */
  method FindClose(lines: seq<string>, i: int) returns (close: int)
    requires 0 <= i < |lines|
    ensures i < close <= |lines|
    ensures forall k :: i + 1 < k <= close ==> Bare(LineAt(lines, k)) == 0
    ensures close < |lines| ==> Bare(LineAt(lines, close + 1)) >= 1
  {
    var j := i + 1;
    while j < |lines|
      invariant i < j <= |lines|
      invariant forall k :: i + 1 < k <= j ==> Bare(LineAt(lines, k)) == 0
    {
      var bt := CountBareBackticks(lines[j]);
      if bt > 0 {
        return j;
      }
      j := j + 1;
    }
    return j;
  }

  method FindTemplateRegions(lines: seq<string>) returns (regions: seq<Region>)
    ensures forall a :: 0 <= a < |regions| ==> IsRegion(lines, regions[a])
    ensures OrderedRegions(regions)
    ensures CoveredTo(lines, regions, |lines|)
  {
    hide Bare, Within;
    regions := [];
    var i := 0;
    while i < |lines|
      invariant i <= |lines|
      invariant forall a :: 0 <= a < |regions| ==> IsRegion(lines, regions[a]) && regions[a].close <= i
      invariant OrderedRegions(regions)
      invariant CoveredTo(lines, regions, i)
    {
      var count := CountBareBackticks(lines[i]);
      if count == 0 || count > 1 {
        i := i + 1;
        continue;
      }
      var close := FindClose(lines, i);
      if close == |lines| {
        i := i + 1;
        continue;
      }
      WithinGrows(regions, Region(i + 1, close + 1));
      regions := regions + [Region(i + 1, close + 1)];
      i := close + 1;
    }
  }

  lemma WithinGrows(rs: seq<Region>, r: Region)
    ensures forall k :: Within(rs, k) ==> Within(rs + [r], k)
    ensures forall k :: r.open <= k <= r.close ==> Within(rs + [r], k)
  {
    forall k | Within(rs, k) ensures Within(rs + [r], k) {
      var a :| 0 <= a < |rs| && rs[a].open <= k <= rs[a].close;
      assert (rs + [r])[a] == rs[a];
    }
    forall k | r.open <= k <= r.close ensures Within(rs + [r], k) {
      assert (rs + [r])[|rs|] == r;
    }
  }

  // ---------------------------------------------------------------------
  // Scans
  // ---------------------------------------------------------------------

  /** The number of backslashes directly before position j. */
  function Run(line: string, j: nat): nat
    requires j <= |line|
  {
    if j == 0 || line[j - 1] != BS then 0 else 1 + Run(line, j - 1)
  }

  method CountRun(line: string, j: nat) returns (bs: nat)
    requires j <= |line|
    ensures bs == Run(line, j)
  {
    bs := 0;
    var k := j - 1;
    while k >= 0 && line[k] == BS
      invariant -1 <= k < j
      invariant bs + Run(line, k + 1) == Run(line, j)
    {
      bs := bs + 1;
      k := k - 1;
    }
  }

  predicate Trap4At(line: string, j: int) {
    0 <= j < |line| && line[j] == BACKTICK && Run(line, j) % 2 == 0
  }

  predicate Trap1At(line: string, j: int) {
    0 <= j < |line| && line[j] == APO && Run(line, j) == 1
  }

  /** The run counts the backslash itself. */
  predicate Trap3At(line: string, j: int) {
    0 <= j < |line| - 1 && line[j] == BS && line[j + 1] == SLASH && Run(line, j + 1) % 2 == 1
  }

  ghost predicate Trap4In(line: string) {
    exists j :: Trap4At(line, j)
  }

  ghost predicate Trap1In(line: string) {
    exists j :: Trap1At(line, j)
  }

  ghost predicate Trap3In(line: string) {
    exists j :: Trap3At(line, j)
  }

  method HasTrap4(line: string) returns (found: bool)
    ensures found <==> Trap4In(line)
  {
    for j := 0 to |line|
      invariant forall i :: 0 <= i < j ==> !Trap4At(line, i)
    {
      if line[j] == BACKTICK {
        var bs := CountRun(line, j);
        if bs % 2 == 0 {
          assert Trap4At(line, j);
          return true;
        }
      }
    }
    return false;
  }

  method HasTrap1(line: string) returns (found: bool)
    ensures found <==> Trap1In(line)
  {
    for j := 0 to |line|
      invariant forall i :: 0 <= i < j ==> !Trap1At(line, i)
    {
      if line[j] == APO {
        var bs := CountRun(line, j);
        if bs == 1 {
          assert Trap1At(line, j);
          return true;
        }
      }
    }
    return false;
  }

  method HasTrap3(line: string) returns (found: bool)
    ensures found <==> Trap3In(line)
  {
    var j := 0;
    while j < |line| - 1
      invariant j >= 0
      invariant forall i :: 0 <= i < j ==> !Trap3At(line, i)
    {
      if line[j] == BS && line[j + 1] == SLASH {
        var before := CountRun(line, j);
        if (before + 1) % 2 == 1 {
          assert Trap3At(line, j);
          return true;
        }
      }
      j := j + 1;
    }
    return false;
  }

  // Trap 2 looks inside the double-quoted parts of a line, from left to right.

  const QUOTE: char := '"'

  function NextQuote(line: string, i: nat): (j: nat)
    requires i <= |line|
    ensures i <= j <= |line| && (j < |line| ==> line[j] == QUOTE)
    ensures forall k :: i <= k < j ==> line[k] != QUOTE
    decreases |line| - i
  {
    if i == |line| || line[i] == QUOTE then i else NextQuote(line, i + 1)
  }

  /** The texts between the first and second quote from position i on, the third and fourth, and so on. */
  function QuotedParts(line: string, i: nat): seq<string>
    requires i <= |line|
    decreases |line| - i
  {
    var a := NextQuote(line, i);
    if a == |line| then []
    else
      var b := NextQuote(line, a + 1);
      if b == |line| then [] else [line[a + 1..b]] + QuotedParts(line, b + 1)
  }

  predicate IsEscapeLetter(c: char) {
    c == 'n' || c == 't' || c == 'r'
  }

  predicate Trap2At(part: string, j: int) {
    0 <= j < |part| && IsEscapeLetter(part[j]) && Run(part, j) == 1
  }

  ghost predicate Trap2In(part: string) {
    exists j :: Trap2At(part, j)
  }

  method HasTrap2(part: string) returns (found: bool)
    ensures found <==> Trap2In(part)
  {
    var bs, j := 0, 0;
    while j < |part|
      invariant j <= |part| && bs == Run(part, j)
      invariant forall i :: 0 <= i < j ==> !Trap2At(part, i)
    {
      if part[j] == BS {
        bs := bs + 1;
        j := j + 1;
        continue;
      }
      if bs == 1 && IsEscapeLetter(part[j]) {
        assert Trap2At(part, j);
        return true;
      }
      bs := 0;
      j := j + 1;
    }
    return false;
  }

  /** How many of the parts trap 2 reports. */
  ghost function BadParts(parts: seq<string>): nat {
    if parts == [] then 0 else (if Trap2In(parts[0]) then 1 else 0) + BadParts(parts[1..])
  }

  lemma PartsFrom(line: string, i: nat)
    requires i <= |line|
    ensures var a := NextQuote(line, i);
            if a == |line| then QuotedParts(line, i) == []
            else
              var b := NextQuote(line, a + 1);
              if b == |line| then QuotedParts(line, i) == []
              else BadParts(QuotedParts(line, i)) == (if Trap2In(line[a + 1..b]) then 1 else 0) + BadParts(QuotedParts(line, b + 1))
  {
    hide Trap2In, NextQuote, BadParts;
    var a := NextQuote(line, i);
    if a < |line| {
      var b := NextQuote(line, a + 1);
      if b < |line| {
        OneMorePart(line[a + 1..b], QuotedParts(line, b + 1));
      }
    }
  }

  lemma OneMorePart(part: string, rest: seq<string>)
    ensures BadParts([part] + rest) == (if Trap2In(part) then 1 else 0) + BadParts(rest)
  {
    hide Trap2In;
    assert ([part] + rest)[1..] == rest;
  }

  lemma NoParts()
    ensures BadParts([]) == 0
  {}

  lemma EndOfLine(line: string)
    ensures QuotedParts(line, |line|) == []
  {}

  method CountTrap2(line: string) returns (count: nat)
    ensures count == BadParts(QuotedParts(line, 0))
  {
    hide QuotedParts, BadParts, Trap2In, NextQuote;
    NoParts();
    EndOfLine(line);
    count := 0;
    var i := 0;
    while i < |line|
      invariant i <= |line|
      invariant count + BadParts(QuotedParts(line, i)) == BadParts(QuotedParts(line, 0))
      decreases |line| - i
    {
      PartsFrom(line, i);
      var a := NextQuote(line, i);
      if a == |line| {
        return;
      }
      var b := NextQuote(line, a + 1);
      if b == |line| {
        return;
      }
      var bad := HasTrap2(line[a + 1..b]);
      if bad {
        count := count + 1;
      }
      i := b + 1;
    }
  }

  /** A comment line, given the characters lstrip removes. */
  predicate IsComment(line: string, isSpace: char -> bool) {
    if line == "" then false
    else if isSpace(line[0]) then IsComment(line[1..], isSpace)
    else line[0] == '*' || (|line| >= 2 && line[0] == SLASH && line[1] == SLASH)
  }

  ghost predicate Boundary(rs: seq<Region>, k: int) {
    exists a :: 0 <= a < |rs| && (k == rs[a].open || k == rs[a].close)
  }

  datatype Findings = Findings(apostrophe: seq<int>, escape: seq<int>, regex: seq<int>, backtick: seq<int>)

  /** ks lists, in order and once each, the line numbers from 1 to n that p holds of. */
  ghost predicate Lists(ks: seq<int>, n: int, p: int -> bool) {
    && (forall k :: k in ks <==> 1 <= k <= n && p(k))
    && forall a, b :: 0 <= a < b < |ks| ==> ks[a] < ks[b]
  }

  lemma ListsNext(ks: seq<int>, n: int, p: int -> bool)
    requires Lists(ks, n, p) && n >= 0
    ensures Lists(if p(n + 1) then ks + [n + 1] else ks, n + 1, p)
  {
    forall a | 0 <= a < |ks| ensures ks[a] < n + 1 {
      assert ks[a] in ks;
    }
  }

  ghost predicate Reports1(lines: seq<string>, rs: seq<Region>, isSpace: char -> bool, k: int) {
    Within(rs, k) && !IsComment(LineAt(lines, k), isSpace) && Trap1In(LineAt(lines, k))
  }

  ghost predicate Reports3(lines: seq<string>, rs: seq<Region>, isSpace: char -> bool, k: int) {
    1 <= k <= |lines| && Within(rs, k) && !IsComment(LineAt(lines, k), isSpace) && Trap3In(LineAt(lines, k))
  }

  ghost predicate Reports4(lines: seq<string>, rs: seq<Region>, k: int) {
    1 <= k <= |lines| && Within(rs, k) && !Boundary(rs, k) && Trap4In(LineAt(lines, k))
  }

  method MarkLines(regions: seq<Region>) returns (inRegion: set<int>, boundary: set<int>)
    requires forall a :: 0 <= a < |regions| ==> regions[a].open <= regions[a].close
    ensures forall k :: k in inRegion <==> Within(regions, k)
    ensures forall k :: k in boundary <==> Boundary(regions, k)
  {
    inRegion, boundary := {}, {};
    for a := 0 to |regions|
      invariant forall k :: k in inRegion <==> Within(regions[..a], k)
      invariant forall k :: k in boundary <==> Boundary(regions[..a], k)
    {
      var r := regions[a];
      ghost var inside, edges := inRegion, boundary;
      for k := r.open to r.close + 1
        invariant forall q :: q in inRegion <==> q in inside || r.open <= q < k
        invariant forall q :: q in boundary <==> q in edges || ((q == r.open || q == r.close) && q < k)
      {
        if k == r.open || k == r.close {
          boundary := boundary + {k};
        }
        inRegion := inRegion + {k};
      }
      TakeNext(regions, a);
    }
    assert regions[..|regions|] == regions;
  }

  lemma TakeNext(rs: seq<Region>, a: nat)
    requires a < |rs|
    ensures forall k :: Within(rs[..a + 1], k) <==> Within(rs[..a], k) || rs[a].open <= k <= rs[a].close
    ensures forall k :: Boundary(rs[..a + 1], k) <==> Boundary(rs[..a], k) || k == rs[a].open || k == rs[a].close
  {
    var next := rs[..a + 1];
    forall k ensures Within(next, k) <==> Within(rs[..a], k) || rs[a].open <= k <= rs[a].close {
      if b :| 0 <= b < a && rs[..a][b].open <= k <= rs[..a][b].close {
        assert next[b] == rs[..a][b];
      }
      if rs[a].open <= k <= rs[a].close {
        assert next[a] == rs[a];
      }
      if b :| 0 <= b <= a && next[b].open <= k <= next[b].close && b < a {
        assert next[b] == rs[..a][b];
      }
    }
    forall k ensures Boundary(next, k) <==> Boundary(rs[..a], k) || k == rs[a].open || k == rs[a].close {
      if b :| 0 <= b < a && (k == rs[..a][b].open || k == rs[..a][b].close) {
        assert next[b] == rs[..a][b];
      }
      if k == rs[a].open || k == rs[a].close {
        assert next[a] == rs[a];
      }
      if b :| 0 <= b <= a && (k == next[b].open || k == next[b].close) && b < a {
        assert next[b] == rs[..a][b];
      }
    }
  }

  ghost function By1(lines: seq<string>, rs: seq<Region>, isSpace: char -> bool): int -> bool {
    k => Reports1(lines, rs, isSpace, k)
  }

  ghost function By3(lines: seq<string>, rs: seq<Region>, isSpace: char -> bool): int -> bool {
    k => Reports3(lines, rs, isSpace, k)
  }

  ghost function By4(lines: seq<string>, rs: seq<Region>): int -> bool {
    k => Reports4(lines, rs, k)
  }

  lemma ByLine(lines: seq<string>, rs: seq<Region>, isSpace: char -> bool, k: int)
    ensures By1(lines, rs, isSpace)(k) <==> Within(rs, k) && !IsComment(LineAt(lines, k), isSpace) && Trap1In(LineAt(lines, k))
    ensures By3(lines, rs, isSpace)(k) <==> Within(rs, k) && !IsComment(LineAt(lines, k), isSpace) && Trap3In(LineAt(lines, k))
    ensures By4(lines, rs)(k) <==> Within(rs, k) && !Boundary(rs, k) && Trap4In(LineAt(lines, k))
  {}

  function Repeated(k: int, n: nat): (r: seq<int>)
    ensures |r| == n && forall i :: 0 <= i < n ==> r[i] == k
  {
    seq(n, _ => k)
  }

  /** Trap 2 lists a line once for every quoted part it objects to. */
  ghost function By2(lines: seq<string>, rs: seq<Region>, isSpace: char -> bool, n: nat): seq<int> {
    if n == 0 then []
    else
      By2(lines, rs, isSpace, n - 1) +
      if Within(rs, n) && !IsComment(LineAt(lines, n), isSpace) then Repeated(n, BadParts(QuotedParts(LineAt(lines, n), 0))) else []
  }

  /** A line is among them exactly when it is in a region, no comment, and some quoted part of it has a
      letter n, t or r after a single backslash. */
  lemma {:induction false} Trap2Iff(lines: seq<string>, rs: seq<Region>, isSpace: char -> bool, n: nat, k: int)
    ensures k in By2(lines, rs, isSpace, n) <==>
            1 <= k <= n && Within(rs, k) && !IsComment(LineAt(lines, k), isSpace) && Trap2InSome(QuotedParts(LineAt(lines, k), 0))
  {
    hide Within, IsComment, QuotedParts, Trap2In, BadParts, Trap2InSome, By2;
    if n > 0 {
      Trap2Iff(lines, rs, isSpace, n - 1, k);
      SomeBad(QuotedParts(LineAt(lines, n), 0));
      EscapesNext(lines, rs, isSpace, n - 1);
      InRepeated(n, BadParts(QuotedParts(LineAt(lines, n), 0)), k);
      InRepeated(n, 0, k);
    } else {
      NothingEscaped(lines, rs, isSpace);
    }
  }

  lemma InRepeated(n: int, count: nat, k: int)
    ensures k in Repeated(n, count) <==> k == n && count > 0
  {
    if count > 0 {
      assert Repeated(n, count)[0] == n;
    }
  }

  ghost predicate Trap2InSome(parts: seq<string>) {
    exists i :: 0 <= i < |parts| && Trap2In(parts[i])
  }

  lemma {:induction false} SomeBad(parts: seq<string>)
    ensures BadParts(parts) > 0 <==> Trap2InSome(parts)
  {
    hide Trap2In;
    if parts != [] {
      SomeBad(parts[1..]);
      if Trap2InSome(parts[1..]) {
        var i :| 0 <= i < |parts| - 1 && Trap2In(parts[1..][i]);
        assert Trap2In(parts[i + 1]);
      }
      if i :| 0 <= i < |parts| && Trap2In(parts[i]) {
        if i > 0 {
          assert Trap2In(parts[1..][i - 1]);
        }
      }
    }
  }

  method AuditLine(line: string, interior: bool, isSpace: char -> bool)
    returns (one: bool, two: nat, three: bool, four: bool)
    ensures one <==> !IsComment(line, isSpace) && Trap1In(line)
    ensures two == if IsComment(line, isSpace) then 0 else BadParts(QuotedParts(line, 0))
    ensures three <==> !IsComment(line, isSpace) && Trap3In(line)
    ensures four <==> interior && Trap4In(line)
  {
    one, two, three, four := false, 0, false, false;
    if interior {
      four := HasTrap4(line);
    }
    if IsComment(line, isSpace) {
      return;
    }
    one := HasTrap1(line);
    two := CountTrap2(line);
    three := HasTrap3(line);
  }

  /** The line numbers reported for traps 1 to 4. */
  method AuditFile(lines: seq<string>, isSpace: char -> bool) returns (found: Findings)
    ensures exists rs :: AreRegions(lines, rs) && AreFindings(lines, rs, isSpace, found)
    ensures forall rs :: AreRegions(lines, rs) ==> AreFindings(lines, rs, isSpace, found)
  {
    hide *;
    var rs := FindTemplateRegions(lines);
    OpenBeforeClose(lines, rs);
    var inRegion, boundary := MarkLines(rs);
    found := Findings([], [], [], []);
    NothingEscaped(lines, rs, isSpace);
    NothingListed(By1(lines, rs, isSpace));
    NothingListed(By3(lines, rs, isSpace));
    NothingListed(By4(lines, rs));
    for i := 0 to |lines|
      invariant Lists(found.apostrophe, i, By1(lines, rs, isSpace))
      invariant found.escape == By2(lines, rs, isSpace, i)
      invariant Lists(found.regex, i, By3(lines, rs, isSpace))
      invariant Lists(found.backtick, i, By4(lines, rs))
    {
      var number := i + 1;
      LineIs(lines, i);
      ByLine(lines, rs, isSpace, number);
      EscapesNext(lines, rs, isSpace, i);
      ListsNext(found.apostrophe, i, By1(lines, rs, isSpace));
      ListsNext(found.regex, i, By3(lines, rs, isSpace));
      ListsNext(found.backtick, i, By4(lines, rs));
      if number !in inRegion {
        continue;
      }
      var one, two, three, four := AuditLine(lines[i], number !in boundary, isSpace);
      found := Findings(
        if one then found.apostrophe + [number] else found.apostrophe,
        found.escape + Repeated(number, two),
        if three then found.regex + [number] else found.regex,
        if four then found.backtick + [number] else found.backtick);
    }
    Audited(lines, rs, isSpace, found);
    forall qs | AreRegions(lines, qs) ensures AreFindings(lines, qs, isSpace, found) {
      RegionsUnique(lines, qs, rs);
    }
  }

  ghost predicate AreFindings(lines: seq<string>, rs: seq<Region>, isSpace: char -> bool, found: Findings) {
    && Lists(found.apostrophe, |lines|, By1(lines, rs, isSpace))
    && found.escape == By2(lines, rs, isSpace, |lines|)
    && Lists(found.regex, |lines|, By3(lines, rs, isSpace))
    && Lists(found.backtick, |lines|, By4(lines, rs))
  }

  lemma Audited(lines: seq<string>, rs: seq<Region>, isSpace: char -> bool, found: Findings)
    requires forall a :: 0 <= a < |rs| ==> IsRegion(lines, rs[a])
    requires OrderedRegions(rs) && CoveredTo(lines, rs, |lines|)
    requires Lists(found.apostrophe, |lines|, By1(lines, rs, isSpace))
    requires found.escape == By2(lines, rs, isSpace, |lines|)
    requires Lists(found.regex, |lines|, By3(lines, rs, isSpace))
    requires Lists(found.backtick, |lines|, By4(lines, rs))
    ensures AreRegions(lines, rs) && AreFindings(lines, rs, isSpace, found)
  {}

  lemma NothingEscaped(lines: seq<string>, rs: seq<Region>, isSpace: char -> bool)
    ensures By2(lines, rs, isSpace, 0) == []
  {}

  /** One more line of trap 2: a line outside the regions or a comment adds nothing. */
  lemma EscapesNext(lines: seq<string>, rs: seq<Region>, isSpace: char -> bool, i: nat)
    ensures var more, count := By2(lines, rs, isSpace, i), BadParts(QuotedParts(LineAt(lines, i + 1), 0));
            By2(lines, rs, isSpace, i + 1) == more + Repeated(i + 1, if Within(rs, i + 1) && !IsComment(LineAt(lines, i + 1), isSpace) then count else 0)
    ensures By2(lines, rs, isSpace, i) + Repeated(i + 1, 0) == By2(lines, rs, isSpace, i)
  {
    hide Within, IsComment, QuotedParts, BadParts;
  }

  lemma LineIs(lines: seq<string>, i: int)
    requires 0 <= i < |lines|
    ensures LineAt(lines, i + 1) == lines[i]
  {}

  lemma NothingListed(p: int -> bool)
    ensures Lists([], 0, p)
  {}

  lemma OpenBeforeClose(lines: seq<string>, rs: seq<Region>)
    requires forall a :: 0 <= a < |rs| ==> IsRegion(lines, rs[a])
    ensures forall a :: 0 <= a < |rs| ==> rs[a].open <= rs[a].close
  {
    forall a | 0 <= a < |rs| ensures rs[a].open <= rs[a].close {
      assert IsRegion(lines, rs[a]);
    }
  }

  // ---------------------------------------------------------------------
  // What trap 4 can see
  // ---------------------------------------------------------------------

  lemma {:induction false} NoneCounted(line: string, n: nat, j: nat)
    requires n <= |line| && CountBare(line, n) == 0 && j < n
    ensures !BareAt(line, j)
  {
    if j < n - 1 {
      NoneCounted(line, n - 1, j);
    }
  }

  lemma InteriorLine(lines: seq<string>, rs: seq<Region>, k: int)
    requires forall a :: 0 <= a < |rs| ==> IsRegion(lines, rs[a])
    requires 1 <= k <= |lines| && Within(rs, k) && !Boundary(rs, k)
    ensures Bare(LineAt(lines, k)) == 0
  {
    var a :| 0 <= a < |rs| && rs[a].open <= k <= rs[a].close;
    assert IsRegion(lines, rs[a]);
  }

  /** Every backtick that makes trap 4 report a line has at least two backslashes before it: the plain
      unescaped backtick the check is named after is never what it reports, because such a backtick
      ends the region. */
  lemma Trap4NeedsTwoBackslashes(lines: seq<string>, rs: seq<Region>, k: int, j: int)
    requires forall a :: 0 <= a < |rs| ==> IsRegion(lines, rs[a])
    requires Reports4(lines, rs, k) && Trap4At(LineAt(lines, k), j)
    ensures Run(LineAt(lines, k), j) >= 2
  {
    InteriorLine(lines, rs, k);
    NoneCounted(LineAt(lines, k), |LineAt(lines, k)|, j);
  }

  /** So trap 4 reports a line inside a region exactly when some backtick on it follows a non-empty,
      even run of backslashes. */
  lemma Trap4Iff(lines: seq<string>, rs: seq<Region>, k: int)
    requires forall a :: 0 <= a < |rs| ==> IsRegion(lines, rs[a])
    requires 1 <= k <= |lines| && Within(rs, k) && !Boundary(rs, k)
    ensures Reports4(lines, rs, k) <==> EscapedBackslashes(LineAt(lines, k))
  {
    var line := LineAt(lines, k);
    if Reports4(lines, rs, k) {
      var j :| Trap4At(line, j);
      Trap4NeedsTwoBackslashes(lines, rs, k, j);
    }
    if j :| Trap4At(line, j) && Run(line, j) >= 2 {
      assert Trap4In(line);
    }
  }

  /** A three-line file whose middle line is a bare backtick inside a template literal: that backtick is
      taken for the end of the literal, and trap 4 reports no line at all. */
  lemma BareBacktickMissed(rs: seq<Region>, k: int)
    requires AreRegions(["`", "`", "`"], rs)
    ensures Trap4In("`") && !Reports4(["`", "`", "`"], rs, k)
  {
    var lines := ["`", "`", "`"];
    assert Trap4At("`", 0);
    assert Bare("`") == 1 by {
      assert CountBare("`", 0) == 0;
    }
    var found := [Region(1, 2)];
    assert IsRegion(lines, Region(1, 2));
    assert found[0] == Region(1, 2);
    assert Within(found, 1) && Within(found, 2);
    assert AreRegions(lines, found);
    RegionsUnique(lines, rs, found);
    if Reports4(lines, rs, k) {
      InteriorLine(lines, rs, k);
    }
  }

  /** Some backtick follows two, four, six ... backslashes. */
  ghost predicate EscapedBackslashes(line: string) {
    exists j :: Trap4At(line, j) && Run(line, j) >= 2
  }

  // ---------------------------------------------------------------------
  // Trap 5
  // ---------------------------------------------------------------------

  function CountUnescaped(text: string, n: nat): nat
    requires n <= |text|
  {
    if n == 0 then 0 else CountUnescaped(text, n - 1) + if Trap4At(text, n - 1) then 1 else 0
  }

  method UnescapedBackticks(text: string) returns (count: nat)
    ensures count == CountUnescaped(text, |text|)
  {
    count := 0;
    for i := 0 to |text|
      invariant count == CountUnescaped(text, i)
    {
      if text[i] == BACKTICK {
        var bs := CountRun(text, i);
        if bs % 2 == 0 {
          count := count + 1;
        }
      }
    }
  }
}
