// tmp-mining/trap_audit.py: what the scans look for, in the characters of the line.
module TrapLaws {
  import opened TrapAudit

  /** Position j has exactly r backslashes directly before it. */
  ghost predicate Slashes(line: string, j: int, r: int) {
    && 0 <= r <= j <= |line|
    && (forall i :: j - r <= i < j ==> line[i] == '\\')
    && (j - r > 0 ==> line[j - r - 1] != '\\')
  }

  lemma {:induction false} RunIs(line: string, j: nat)
    requires j <= |line|
    ensures Slashes(line, j, Run(line, j))
  {
    if j > 0 && line[j - 1] == '\\' {
      RunIs(line, j - 1);
    }
  }

  lemma {:induction false} RunOnly(line: string, j: nat, r: nat)
    requires Slashes(line, j, r)
    ensures r == Run(line, j)
  {
    if r > 0 {
      assert line[j - 1] == '\\';
      RunOnly(line, j - 1, r - 1);
    }
  }

  /** An apostrophe after a single backslash. */
  ghost predicate EscapedApostrophe(line: string) {
    exists j :: 0 < j < |line| && line[j] == '\'' && Slashes(line, j, 1)
  }

  /** A letter n, t or r after a single backslash. */
  ghost predicate EscapedLetter(part: string) {
    exists j :: 0 < j < |part| && (part[j] == 'n' || part[j] == 't' || part[j] == 'r') && Slashes(part, j, 1)
  }

  /** A slash after an odd number of backslashes. */
  ghost predicate OddSlash(line: string) {
    exists j, r :: 0 <= j < |line| && line[j] == '/' && r % 2 == 1 && Slashes(line, j, r)
  }

  /** A backtick after an even number of backslashes, possibly none. */
  ghost predicate EvenBacktick(line: string) {
    exists j, r :: 0 <= j < |line| && line[j] == '`' && r % 2 == 0 && Slashes(line, j, r)
  }

  lemma ApostropheMeans(line: string)
    ensures Trap1In(line) <==> EscapedApostrophe(line)
  {
    if Trap1In(line) {
      var j :| Trap1At(line, j);
      RunIs(line, j);
      assert 0 < j < |line| && Slashes(line, j, 1);
    }
    if j :| 0 < j < |line| && line[j] == '\'' && Slashes(line, j, 1) {
      RunOnly(line, j, 1);
      assert Trap1At(line, j);
    }
  }

  lemma LetterMeans(part: string)
    ensures Trap2In(part) <==> EscapedLetter(part)
  {
    if Trap2In(part) {
      var j :| Trap2At(part, j);
      RunIs(part, j);
      assert 0 < j < |part| && Slashes(part, j, 1);
    }
    if j :| 0 < j < |part| && (part[j] == 'n' || part[j] == 't' || part[j] == 'r') && Slashes(part, j, 1) {
      RunOnly(part, j, 1);
      assert Trap2At(part, j);
    }
  }

  lemma SlashMeans(line: string)
    ensures Trap3In(line) <==> OddSlash(line)
  {
    if Trap3In(line) {
      var j :| Trap3At(line, j);
      RunIs(line, j + 1);
      assert Slashes(line, j + 1, Run(line, j + 1));
    }
    if j, r :| 0 <= j < |line| && line[j] == '/' && r % 2 == 1 && Slashes(line, j, r) {
      RunOnly(line, j, r);
      assert line[j - 1] == '\\';
      assert Trap3At(line, j - 1);
    }
  }

  lemma BacktickMeans(line: string)
    ensures Trap4In(line) <==> EvenBacktick(line)
  {
    if Trap4In(line) {
      var j :| Trap4At(line, j);
      RunIs(line, j);
      assert Slashes(line, j, Run(line, j));
    }
    if j, r :| 0 <= j < |line| && line[j] == '`' && r % 2 == 0 && Slashes(line, j, r) {
      RunOnly(line, j, r);
      assert Trap4At(line, j);
    }
  }

  // ---------------------------------------------------------------------
  // Comments, quoted parts, counts
  // ---------------------------------------------------------------------

  /** After its leading spaces the line starts with an asterisk or with two slashes. */
  ghost predicate StartsComment(line: string, isSpace: char -> bool, k: int) {
    && 0 <= k < |line|
    && (forall i :: 0 <= i < k ==> isSpace(line[i])) && !isSpace(line[k])
    && (line[k] == '*' || (k + 1 < |line| && line[k] == '/' && line[k + 1] == '/'))
  }

  lemma {:induction false} CommentMeans(line: string, isSpace: char -> bool)
    ensures IsComment(line, isSpace) <==> exists k :: StartsComment(line, isSpace, k)
  {
    if line != "" {
      if isSpace(line[0]) {
        var rest := line[1..];
        CommentMeans(rest, isSpace);
        if k :| StartsComment(rest, isSpace, k) {
          assert StartsComment(line, isSpace, k + 1);
        }
        if k :| StartsComment(line, isSpace, k) {
          assert StartsComment(rest, isSpace, k - 1);
        }
      } else if IsComment(line, isSpace) {
        assert StartsComment(line, isSpace, 0);
      }
    }
  }

  lemma {:induction false} QuoteAfter(a: string, rest: string, i: nat)
    requires i <= |a| && '"' !in a && (rest == "" || rest[0] == '"')
    ensures NextQuote(a + rest, i) == |a|
    decreases |a| - i
  {
    if i < |a| {
      assert (a + rest)[i] in a;
      QuoteAfter(a, rest, i + 1);
    }
  }

  lemma {:induction false} QuoteShift(front: string, rest: string, i: nat)
    requires i <= |rest|
    ensures NextQuote(front + rest, |front| + i) == |front| + NextQuote(rest, i)
    decreases |rest| - i
  {
    if i < |rest| && rest[i] != '"' {
      QuoteShift(front, rest, i + 1);
    }
  }

  lemma {:induction false} PartsShift(front: string, rest: string, i: nat)
    requires i <= |rest|
    ensures QuotedParts(front + rest, |front| + i) == QuotedParts(rest, i)
    decreases |rest| - i
  {
    hide NextQuote;
    QuoteShift(front, rest, i);
    var a := NextQuote(rest, i);
    if a < |rest| {
      QuoteShift(front, rest, a + 1);
      var b := NextQuote(rest, a + 1);
      if b < |rest| {
        PartsShift(front, rest, b + 1);
        assert (front + rest)[|front| + a + 1..|front| + b] == rest[a + 1..b];
      }
    }
  }

  /** The first two quotes of a line enclose its first part, and the rest of the line has the others; a line with
      fewer than two quotes has none. */
  lemma PartsMean(a: string, b: string, rest: string)
    requires '"' !in a && '"' !in b
    ensures QuotedParts(a, 0) == [] && QuotedParts(a + "\"" + b, 0) == []
    ensures QuotedParts(a + "\"" + b + "\"" + rest, 0) == [b] + QuotedParts(rest, 0)
  {
    hide NextQuote, QuotedParts;
    QuoteAfter(a, "", 0);
    assert a + "" == a;
    NoPart(a);
    var one := a + "\"" + b;
    assert one == a + ("\"" + b) && one == (a + "\"") + b;
    QuoteAfter(a, "\"" + b, 0);
    QuoteShift(a + "\"", b, 0);
    QuoteAfter(b, "", 0);
    assert b + "" == b;
    NoPart(one);
    var all := a + "\"" + b + "\"" + rest;
    assert all == a + ("\"" + b + "\"" + rest) && all == (a + "\"") + (b + ("\"" + rest)) && all == (a + "\"" + b + "\"") + rest;
    QuoteAfter(a, "\"" + b + "\"" + rest, 0);
    QuoteShift(a + "\"", b + ("\"" + rest), 0);
    QuoteAfter(b, "\"" + rest, 0);
    OnePart(all, |a|, |a| + 1 + |b|);
    assert all[|a| + 1..|a| + 1 + |b|] == b;
    PartsShift(a + "\"" + b + "\"", rest, 0);
  }

  lemma NoPart(line: string)
    requires NextQuote(line, 0) == |line| || NextQuote(line, NextQuote(line, 0) + 1) == |line|
    ensures QuotedParts(line, 0) == []
  {
    hide NextQuote;
  }

  lemma OnePart(line: string, a: nat, b: nat)
    requires NextQuote(line, 0) == a < |line| && NextQuote(line, a + 1) == b < |line|
    ensures a + 1 <= b && QuotedParts(line, 0) == [line[a + 1..b]] + QuotedParts(line, b + 1)
  {
    hide NextQuote;
  }

  ghost predicate Unslashed(line: string, j: int) {
    0 <= j < |line| && line[j] == '`' && (j == 0 || line[j - 1] != '\\')
  }

  /** The backticks of a line that are not directly after a backslash. */
  ghost function BareSet(line: string, n: nat): set<int>
    requires n <= |line|
  {
    set j | 0 <= j < n && Unslashed(line, j)
  }

  lemma {:induction false} BareIsCount(line: string, n: nat)
    requires n <= |line|
    ensures CountBare(line, n) == |BareSet(line, n)|
  {
    if n > 0 {
      BareIsCount(line, n - 1);
      if BareAt(line, n - 1) {
        assert BareSet(line, n) == BareSet(line, n - 1) + {n - 1};
      } else {
        assert BareSet(line, n) == BareSet(line, n - 1);
      }
    } else {
      assert BareSet(line, n) == {};
    }
  }

  /** The number of backticks that decides about regions. */
  lemma BareMeans(line: string)
    ensures Bare(line) == |set j | 0 <= j < |line| && Unslashed(line, j)|
  {
    BareIsCount(line, |line|);
  }

  ghost function UnescapedSet(text: string, n: nat): set<int>
    requires n <= |text|
  {
    set j | 0 <= j < n && text[j] == '`' && EvenBefore(text, j)
  }

  ghost predicate EvenBefore(text: string, j: int) {
    exists r :: r % 2 == 0 && Slashes(text, j, r)
  }

  /** The number of backticks after an even number of backslashes. */
  lemma {:induction false} UnescapedMeans(text: string, n: nat)
    requires n <= |text|
    ensures CountUnescaped(text, n) == |UnescapedSet(text, n)|
  {
    hide Slashes, EvenBefore, Run;
    if n > 0 {
      UnescapedMeans(text, n - 1);
      EvenIs(text, n - 1);
      if Trap4At(text, n - 1) {
        assert UnescapedSet(text, n) == UnescapedSet(text, n - 1) + {n - 1};
      } else {
        assert UnescapedSet(text, n) == UnescapedSet(text, n - 1);
      }
    } else {
      assert UnescapedSet(text, n) == {};
    }
  }

  lemma EvenIs(text: string, j: nat)
    requires j <= |text|
    ensures EvenBefore(text, j) <==> Run(text, j) % 2 == 0
  {
    RunIs(text, j);
    if r :| r % 2 == 0 && Slashes(text, j, r) {
      RunOnly(text, j, r);
    }
  }

  // ---------------------------------------------------------------------
  // A whole file
  // ---------------------------------------------------------------------

  /** Line k is inside a template literal, its first and last line included. */
  ghost predicate Inside(rs: seq<Region>, k: int) {
    exists a :: 0 <= a < |rs| && rs[a].open <= k <= rs[a].close
  }

  /** The same without the first and last line. */
  ghost predicate Interior(rs: seq<Region>, k: int) {
    exists a :: 0 <= a < |rs| && rs[a].open < k < rs[a].close
  }

  lemma Opens(lines: seq<string>, rs: seq<Region>, b: int)
    requires AreRegions(lines, rs) && 0 <= b < |rs|
    ensures rs[b].open < rs[b].close
  {
    assert IsRegion(lines, rs[b]);
  }

  lemma InteriorMeans(lines: seq<string>, rs: seq<Region>, k: int)
    requires AreRegions(lines, rs)
    ensures Interior(rs, k) <==> Within(rs, k) && !Boundary(rs, k)
  {
    hide IsRegion, CoveredTo;
    if a :| 0 <= a < |rs| && rs[a].open < k < rs[a].close {
      forall b | 0 <= b < |rs| ensures k != rs[b].open && k != rs[b].close {
        Opens(lines, rs, b);
        if b < a {
          assert rs[b].close < rs[a].open;
        } else if a < b {
          assert rs[a].close < rs[b].open;
        }
      }
    }
    if Within(rs, k) && !Boundary(rs, k) {
      var a :| 0 <= a < |rs| && rs[a].open <= k <= rs[a].close;
      assert rs[a].open < k < rs[a].close;
    }
  }

  ghost predicate Commented(line: string, isSpace: char -> bool) {
    exists k :: StartsComment(line, isSpace, k)
  }

  ghost predicate SomePart(line: string) {
    exists i :: 0 <= i < |QuotedParts(line, 0)| && EscapedLetter(QuotedParts(line, 0)[i])
  }

  /** What the audit of a file lists: line k, in a template literal and no comment, for an escaped apostrophe, for an
      escaped letter in a quoted part, and for a slash after an odd number of backslashes; and line k strictly inside a
      literal for a backtick after an even number. */
  lemma FindingsMean(lines: seq<string>, rs: seq<Region>, isSpace: char -> bool, found: Findings, k: int)
    requires AreRegions(lines, rs) && AreFindings(lines, rs, isSpace, found) && 1 <= k <= |lines|
    ensures k in found.apostrophe <==> Inside(rs, k) && !Commented(lines[k - 1], isSpace) && EscapedApostrophe(lines[k - 1])
    ensures k in found.escape <==> Inside(rs, k) && !Commented(lines[k - 1], isSpace) && SomePart(lines[k - 1])
    ensures k in found.regex <==> Inside(rs, k) && !Commented(lines[k - 1], isSpace) && OddSlash(lines[k - 1])
    ensures k in found.backtick <==> Interior(rs, k) && EvenBacktick(lines[k - 1])
  {
    var line := lines[k - 1];
    InteriorMeans(lines, rs, k);
    SamePart(line);
    hide Slashes, StartsComment, Trap1In, Trap3In, Trap4In, Trap2InSome, EscapedApostrophe, OddSlash, EvenBacktick, SomePart, By1, By2, By3, By4, AreRegions, Boundary, Interior, IsComment, QuotedParts;
    CommentMeans(line, isSpace);
    ApostropheMeans(line);
    SlashMeans(line);
    BacktickMeans(line);
    ByLine(lines, rs, isSpace, k);
    Trap2Iff(lines, rs, isSpace, |lines|, k);
  }

  lemma SamePart(line: string)
    ensures SomePart(line) <==> Trap2InSome(QuotedParts(line, 0))
  {
    hide Trap2In, EscapedLetter, QuotedParts;
    var parts := QuotedParts(line, 0);
    forall i | 0 <= i < |parts| ensures Trap2In(parts[i]) <==> EscapedLetter(parts[i]) {
      LetterMeans(parts[i]);
    }
  }
}
