/**
 * The header/footer cleaner as pure functions of its inputs: the candidate
 * lines each page offers, the per-page vote count of every candidate, the
 * acceptance rule, the cut each pattern table implies for a page, and the
 * cleaned text.  The class in cleaner.dfy runs the same steps with loops and
 * fields and is proved against these definitions.
 */
module Boilerplate {
  import opened Text

  function Min(a: nat, b: nat): nat { if a <= b then a else b }
  function Max(a: nat, b: nat): nat { if a >= b then a else b }

  /** A line offered as boilerplate: its index in the scanned window and its
      stripped text (the tuple `(i, line.strip())` of the source). */
  datatype Candidate = Candidate(pos: nat, text: string)

  datatype Side = Header | Footer

  /** The two windows `extract_lines` returns. */
  datatype Windows = Windows(first: seq<string>, last: seq<string>)

  /** A page as its list of lines, `text.split('\n')`. */
  function Lines(text: string): (r: seq<string>)
    ensures |r| >= 1
  {
    Split(text, '\n')
  }

  /** `extract_lines(text, n)`: the first `n` lines (all of them if there are
      fewer) and, only when the page is longer than `n`, its last `n` lines.
      For `n == 0` Python's `lines[-0:]` is the whole page. */
  function ExtractLines(text: string, n: nat): (w: Windows)
    ensures var lines := Lines(text);
      && |w.first| == Min(n, |lines|) && w.first <= lines
      && (|lines| > n ==> |w.last| == (if n == 0 then |lines| else n))
      && (|lines| <= n ==> w.last == [])
      && w.last == lines[|lines| - |w.last|..]
  {
    var lines := Lines(text);
    Windows(if n < |lines| then lines[..n] else lines,
            if |lines| <= n then [] else if n == 0 then lines else lines[|lines| - n..])
  }

  /** `c` is what the scan of the first `k` lines of `window` records: a
      position below `k` whose stripped line is non-blank, with that text. */
  predicate TaggedAt(window: seq<string>, k: nat, c: Candidate)
    requires k <= |window|
  {
    c.pos < k && Strip(window[c.pos]) != "" && c.text == Strip(window[c.pos])
  }

  /** The candidates a `for i in range(k)` scan appends, in scan order. */
  function Tagged(window: seq<string>, k: nat): (cs: seq<Candidate>)
    requires k <= |window|
    decreases k
  {
    if k == 0 then []
    else
      var line := Strip(window[k - 1]);
      Tagged(window, k - 1) + (if line != "" then [Candidate(k - 1, line)] else [])
  }

  /** The scan records candidates in strictly increasing position order. */
  lemma {:induction false} TaggedIncreasing(window: seq<string>, k: nat)
    requires k <= |window|
    ensures forall j :: 0 <= j < |Tagged(window, k)| ==> Tagged(window, k)[j].pos < k
    ensures forall i, j :: 0 <= i < j < |Tagged(window, k)| ==> Tagged(window, k)[i].pos < Tagged(window, k)[j].pos
    decreases k
  {
    if k > 0 {
      TaggedIncreasing(window, k - 1);
    }
  }

  lemma {:induction false} TaggedMember(window: seq<string>, k: nat, c: Candidate)
    requires k <= |window|
    ensures c in Tagged(window, k) <==> TaggedAt(window, k, c)
    decreases k
  {
    if k > 0 {
      TaggedAtStep(window, k, c);
      TaggedMember(window, k - 1, c);
    }
  }

  lemma TaggedAtStep(window: seq<string>, k: nat, c: Candidate)
    requires 0 < k <= |window|
    ensures var line := Strip(window[k - 1]);
      TaggedAt(window, k, c) <==>
        TaggedAt(window, k - 1, c) || (c.pos == k - 1 && line != "" && c.text == line)
  {
  }

  lemma {:induction false} CountNoDup(s: seq<Candidate>, c: Candidate)
    requires forall i, j :: 0 <= i < j < |s| ==> s[i] != s[j]
    ensures multiset(s)[c] == if c in s then 1 else 0
    decreases |s|
  {
    if s != [] {
      var t := s[..|s| - 1];
      assert s == t + [s[|s| - 1]];
      CountNoDup(t, c);
      assert s[|s| - 1] !in t;
    }
  }

  /** Every tagged candidate is recorded exactly once and nothing else is:
      one candidate at most per position, never a blank line. */
  lemma TaggedCount(window: seq<string>, k: nat, c: Candidate)
    requires k <= |window|
    ensures multiset(Tagged(window, k))[c] == if TaggedAt(window, k, c) then 1 else 0
  {
    TaggedIncreasing(window, k);
    TaggedMember(window, k, c);
    CountNoDup(Tagged(window, k), c);
  }

  /** The candidates one page contributes to `all_headers` or `all_footers`,
      with both windows taken `max(header_lines, footer_lines)` long. */
  function Candidates(text: string, side: Side, headerLines: nat, footerLines: nat): seq<Candidate> {
    var w := ExtractLines(text, Max(headerLines, footerLines));
    match side
    case Header => Tagged(w.first, Min(headerLines, |w.first|))
    case Footer => Tagged(w.last, Min(footerLines, |w.last|))
  }

  /** A page offers each candidate at most once. */
  lemma CandidatesCount(text: string, side: Side, headerLines: nat, footerLines: nat, c: Candidate)
    ensures var cs := Candidates(text, side, headerLines, footerLines);
      multiset(cs)[c] == if c in cs then 1 else 0
  {
    var w := ExtractLines(text, Max(headerLines, footerLines));
    if side == Header {
      TaggedCount(w.first, Min(headerLines, |w.first|), c);
      TaggedMember(w.first, Min(headerLines, |w.first|), c);
    } else {
      TaggedCount(w.last, Min(footerLines, |w.last|), c);
      TaggedMember(w.last, Min(footerLines, |w.last|), c);
    }
  }

  lemma CountAppend(a: seq<Candidate>, b: seq<Candidate>, c: Candidate)
    ensures multiset(a + b)[c] == multiset(a)[c] + multiset(b)[c]
  {
    assert multiset(a + b) == multiset(a) + multiset(b);
  }

  /** Header candidates sit at a line index below both the header window and
      the page length, carry that line stripped, and are never blank. */
  lemma HeaderCandidateBounds(text: string, headerLines: nat, footerLines: nat, c: Candidate)
    requires c in Candidates(text, Header, headerLines, footerLines)
    ensures var lines := Lines(text);
      c.pos < Min(headerLines, |lines|) && c.text == Strip(lines[c.pos]) && c.text != ""
  {
    var w := ExtractLines(text, Max(headerLines, footerLines));
    TaggedMember(w.first, Min(headerLines, |w.first|), c);
  }

  /** Footer candidates index the window of the last `N = max(header_lines,
      footer_lines)` lines from its start: position `i` is page line
      `|lines| - N + i`, not the `i`-th line from the bottom (which is what
      removal reads).  Such a window exists only for pages longer than `N`. */
  lemma FooterCandidateBounds(text: string, headerLines: nat, footerLines: nat, c: Candidate)
    requires c in Candidates(text, Footer, headerLines, footerLines)
    ensures var lines := Lines(text);
      var n := Max(headerLines, footerLines);
      && |lines| > n && c.pos < footerLines
      && c.text == Strip(lines[|lines| - (if n == 0 then |lines| else n) + c.pos])
      && c.text != ""
  {
    var w := ExtractLines(text, Max(headerLines, footerLines));
    TaggedMember(w.last, Min(footerLines, |w.last|), c);
  }

  /** The pages (by number) that offer candidate `c`: the reference count of
      the `Counter` over all pages' candidates. */
  ghost function PagesWith(pages: map<nat, string>, side: Side, headerLines: nat, footerLines: nat,
                           c: Candidate): set<nat>
  {
    set k | k in pages && c in Candidates(pages[k], side, headerLines, footerLines)
  }

  /** `votes` lists every candidate once for each page of `pages` that
      offers it: the `Counter` of `votes` is the page count. */
  ghost predicate Tallies(votes: seq<Candidate>, pages: map<nat, string>, side: Side,
                          headerLines: nat, footerLines: nat)
  {
    forall c :: multiset(votes)[c] == |PagesWith(pages, side, headerLines, footerLines, c)|
  }

  /** One more page adds one to the count of a candidate exactly when it
      offers that candidate. */
  lemma PagesWithInsert(before: map<nat, string>, pageNum: nat, content: string, side: Side,
                        headerLines: nat, footerLines: nat, c: Candidate)
    requires pageNum !in before
    ensures |PagesWith(before[pageNum := content], side, headerLines, footerLines, c)| ==
      |PagesWith(before, side, headerLines, footerLines, c)|
        + (if c in Candidates(content, side, headerLines, footerLines) then 1 else 0)
  {
    var after := before[pageNum := content];
    var was := PagesWith(before, side, headerLines, footerLines, c);
    var now := PagesWith(after, side, headerLines, footerLines, c);
    var added := if c in Candidates(content, side, headerLines, footerLines) then {pageNum} else {};
    forall k ensures k in now <==> k in was + added {
      if k != pageNum {
        assert k in after <==> k in before;
        if k in before { assert after[k] == before[k]; }
      }
    }
    assert now == was + added;
    assert pageNum !in was;
  }

  /** No candidate is counted more often than there are pages. */
  lemma CountAtMostPages(pages: map<nat, string>, side: Side, headerLines: nat, footerLines: nat,
                         c: Candidate)
    ensures |PagesWith(pages, side, headerLines, footerLines, c)| <= |pages|
  {
    assert PagesWith(pages, side, headerLines, footerLines, c) <= pages.Keys;
    SubsetCard(PagesWith(pages, side, headerLines, footerLines, c), pages.Keys);
  }

  lemma {:induction false} SubsetCard(a: set<nat>, b: set<nat>)
    requires a <= b
    ensures |a| <= |b|
    decreases |b|
  {
    if a != {} {
      var x :| x in a;
      SubsetCard(a - {x}, b - {x});
    }
  }

  /** `int(len(pages) * threshold)` with the threshold the fraction
      `num / den`: the product is truncated, not rounded up. */
  function Cutoff(pageCount: nat, num: nat, den: nat): (m: nat)
    requires den > 0
    ensures m * den <= pageCount * num < (m + 1) * den
  {
    pageCount * num / den
  }

  /** A higher threshold never gives a lower cutoff. */
  lemma CutoffMonotone(pageCount: nat, num1: nat, den1: nat, num2: nat, den2: nat)
    requires den1 > 0 && den2 > 0 && num1 * den2 <= num2 * den1
    ensures Cutoff(pageCount, num1, den1) <= Cutoff(pageCount, num2, den2)
  {
    var a, b := pageCount * num1, pageCount * num2;
    MulLe(num1 * den2, num2 * den1, pageCount);
    assert a * den2 <= b * den1;
    DivMonotone(a, den1, b, den2);
  }

  lemma DivMonotone(a: nat, d1: nat, b: nat, d2: nat)
    requires d1 > 0 && d2 > 0 && a * d2 <= b * d1
    ensures a / d1 <= b / d2
  {
    var m := a / d1;
    assert m * d1 <= a;
    MulLe(m * d1, a, d2);
    assert (m * d2) * d1 <= b * d1;
    MulCancel(m * d2, b, d1);
    FloorLower(m, b, d2);
  }

  lemma MulLe(a: nat, b: nat, c: nat)
    requires a <= b
    ensures a * c <= b * c
  {
  }

  lemma MulCancel(x: nat, y: nat, c: nat)
    requires c > 0 && x * c <= y * c
    ensures x <= y
  {
    if x > y {
      MulLe(y + 1, x, c);
    }
  }

  lemma FloorLower(m: nat, b: nat, d: nat)
    requires d > 0 && m * d <= b
    ensures m <= b / d
  {
    var q := b / d;
    assert b < (q + 1) * d;
    if m > q {
      MulLe(q + 1, m, d);
    }
  }

  /** The acceptance rule: `c` occurs on some page (so it is in the
      `Counter`) and on at least `cutoff` of them. */
  ghost predicate Accepted(pages: map<nat, string>, side: Side, headerLines: nat, footerLines: nat,
                           cutoff: nat, c: Candidate)
  {
    var n := |PagesWith(pages, side, headerLines, footerLines, c)|;
    n >= 1 && n >= cutoff
  }

  /** Raising the cutoff (from a higher threshold) accepts a subset. */
  lemma AcceptedMonotone(pages: map<nat, string>, side: Side, headerLines: nat, footerLines: nat,
                         num1: nat, den1: nat, num2: nat, den2: nat, c: Candidate)
    requires den1 > 0 && den2 > 0 && num1 * den2 <= num2 * den1
    requires Accepted(pages, side, headerLines, footerLines, Cutoff(|pages|, num2, den2), c)
    ensures Accepted(pages, side, headerLines, footerLines, Cutoff(|pages|, num1, den1), c)
  {
    CutoffMonotone(|pages|, num1, den1, num2, den2);
  }

  /** No list in a pattern table repeats a text. */
  predicate Distinct(s: seq<string>) {
    forall i, j :: 0 <= i < j < |s| ==> s[i] != s[j]
  }

  /** `table` is what the acceptance loop builds from `counter`: a position
      is a key exactly when some text is accepted there, and its list holds
      each accepted text once. */
  ghost predicate IsTableOf(table: map<nat, seq<string>>, counter: multiset<Candidate>, cutoff: nat) {
    && (forall pos, t :: pos in table && t in table[pos] <==>
          counter[Candidate(pos, t)] >= 1 && counter[Candidate(pos, t)] >= cutoff)
    && (forall pos :: pos in table ==> table[pos] != [] && Distinct(table[pos]))
  }

  /** `table` is the header (or footer) table for `pages`. */
  ghost predicate IsPatternTable(table: map<nat, seq<string>>, pages: map<nat, string>, side: Side,
                                 headerLines: nat, footerLines: nat, cutoff: nat)
  {
    && (forall pos, t :: pos in table && t in table[pos] <==>
          Accepted(pages, side, headerLines, footerLines, cutoff, Candidate(pos, t)))
    && (forall pos :: pos in table ==> table[pos] != [] && Distinct(table[pos]))
  }

  /** Every text a pattern table accepts occurred at that position on at
      least `cutoff` pages and on no more pages than there are. */
  lemma PatternTableSound(table: map<nat, seq<string>>, pages: map<nat, string>, side: Side,
                          headerLines: nat, footerLines: nat, cutoff: nat, pos: nat, t: string)
    requires IsPatternTable(table, pages, side, headerLines, footerLines, cutoff)
    requires pos in table && t in table[pos]
    ensures var n := |PagesWith(pages, side, headerLines, footerLines, Candidate(pos, t))|;
      1 <= n <= |pages| && cutoff <= n
  {
    CountAtMostPages(pages, side, headerLines, footerLines, Candidate(pos, t));
  }

  /** The bidirectional test `pattern in line or line in pattern` for some
      accepted pattern. */
  predicate MatchesAny(line: string, patterns: seq<string>) {
    exists pattern :: pattern in patterns && (Contains(line, pattern) || Contains(pattern, line))
  }

  /** Position `p` of the table matches the page: the header side reads
      `lines[p]`, the footer side `lines[-(p + 1)]`. */
  predicate MatchAt(lines: seq<string>, table: map<nat, seq<string>>, side: Side, p: nat) {
    && p in table && p < |lines|
    && MatchesAny(Strip(if side == Header then lines[p] else lines[|lines| - (p + 1)]), table[p])
  }

  /** The furthest-reaching cut: one past the highest matching position among
      those below `n`, or 0 if none matches.  A reference definition that
      scans downwards rather than over the table's keys. */
  function CutBelow(lines: seq<string>, table: map<nat, seq<string>>, side: Side, n: nat): (k: nat)
    ensures k <= n
    decreases n
  {
    if n == 0 then 0
    else if MatchAt(lines, table, side, n - 1) then n
    else CutBelow(lines, table, side, n - 1)
  }

  /** `lines_to_remove_start` / `lines_to_remove_end` for a page. */
  function Cut(lines: seq<string>, table: map<nat, seq<string>>, side: Side): (k: nat)
    ensures k <= |lines|
  {
    CutBelow(lines, table, side, |lines|)
  }

  /** `k` is one past the highest matching position, 0 if none matches. */
  ghost predicate IsFurthestCut(lines: seq<string>, table: map<nat, seq<string>>, side: Side, k: nat) {
    && (k == 0 || MatchAt(lines, table, side, k - 1))
    && (forall p: nat :: MatchAt(lines, table, side, p) ==> p < k)
  }

  lemma {:induction false} CutBelowIsFurthest(lines: seq<string>, table: map<nat, seq<string>>,
                                              side: Side, n: nat)
    ensures var k := CutBelow(lines, table, side, n);
      && k <= n
      && (k == 0 || MatchAt(lines, table, side, k - 1))
      && (forall p: nat :: p < n && MatchAt(lines, table, side, p) ==> p < k)
    decreases n
  {
    if n > 0 && !MatchAt(lines, table, side, n - 1) {
      CutBelowIsFurthest(lines, table, side, n - 1);
    }
  }

  /** `Cut` is a furthest-reaching cut: a miss at a low position never hides
      a match at a higher one, and the cut never exceeds the line count. */
  lemma CutIsFurthest(lines: seq<string>, table: map<nat, seq<string>>, side: Side)
    ensures IsFurthestCut(lines, table, side, Cut(lines, table, side))
    ensures Cut(lines, table, side) <= |lines|
  {
    CutBelowIsFurthest(lines, table, side, |lines|);
  }

  /** ... and the only one. */
  lemma FurthestCutUnique(lines: seq<string>, table: map<nat, seq<string>>, side: Side, k: nat)
    requires IsFurthestCut(lines, table, side, k)
    ensures k == Cut(lines, table, side)
  {
    CutIsFurthest(lines, table, side);
    var c := Cut(lines, table, side);
    if k > 0 { assert MatchAt(lines, table, side, k - 1); }
    if c > 0 { assert MatchAt(lines, table, side, c - 1); }
  }

  /** For a table the vote builds, the cut stays inside the scanned window:
      header keys come from `range(min(header_lines, ...))` and footer keys
      from `range(min(footer_lines, ...))`, so at most `header_lines` lines
      go from the top and at most `footer_lines` from the bottom. */
  lemma CutWithinWindow(lines: seq<string>, table: map<nat, seq<string>>, pages: map<nat, string>,
                        side: Side, headerLines: nat, footerLines: nat, cutoff: nat)
    requires IsPatternTable(table, pages, side, headerLines, footerLines, cutoff)
    ensures Cut(lines, table, side) <= if side == Header then headerLines else footerLines
  {
    var bound := if side == Header then headerLines else footerLines;
    forall p | p in table ensures p < bound {
      KeyWithinWindow(table, pages, side, headerLines, footerLines, cutoff, p);
    }
    CutWithinKeys(lines, table, side, bound);
  }

  /** A cut is never past the table's keys. */
  lemma CutWithinKeys(lines: seq<string>, table: map<nat, seq<string>>, side: Side, bound: nat)
    requires forall p :: p in table ==> p < bound
    ensures Cut(lines, table, side) <= bound
  {
    CutIsFurthest(lines, table, side);
    var k := Cut(lines, table, side);
    if k > 0 {
      assert MatchAt(lines, table, side, k - 1);
    }
  }

  /** Every key of a pattern table is a position the scan visits. */
  lemma KeyWithinWindow(table: map<nat, seq<string>>, pages: map<nat, string>, side: Side,
                        headerLines: nat, footerLines: nat, cutoff: nat, p: nat)
    requires IsPatternTable(table, pages, side, headerLines, footerLines, cutoff) && p in table
    ensures p < if side == Header then headerLines else footerLines
  {
    var t := table[p][0];
    assert t in table[p];
    var c := Candidate(p, t);
    assert Accepted(pages, side, headerLines, footerLines, cutoff, c);
    var pg :| pg in PagesWith(pages, side, headerLines, footerLines, c);
    if side == Header {
      HeaderCandidateBounds(pages[pg], headerLines, footerLines, c);
    } else {
      FooterCandidateBounds(pages[pg], headerLines, footerLines, c);
    }
  }

  /** A blank line at a position the table knows always matches, because the
      empty string occurs in every pattern. */
  lemma BlankLineMatches(lines: seq<string>, table: map<nat, seq<string>>, p: nat)
    requires p in table && table[p] != [] && p < |lines| && Strip(lines[p]) == ""
    ensures MatchAt(lines, table, Header, p)
    ensures Cut(lines, table, Header) >= p + 1
  {
    EmptyContained(table[p][0]);
    assert table[p][0] in table[p];
    assert MatchAt(lines, table, Header, p);
    CutIsFurthest(lines, table, Header);
    assert IsFurthestCut(lines, table, Header, Cut(lines, table, Header));
  }

  /** An accepted header inside a longer line matches it: with "CONFIDENTIAL"
      accepted at position 0, the page "Page 3 - CONFIDENTIAL - Draft" /
      "body" loses its first line and keeps the second. */
  lemma ConfidentialMatches()
    ensures MatchesAny("Page 3 - CONFIDENTIAL - Draft", ["CONFIDENTIAL"])
    ensures Cut(["Page 3 - CONFIDENTIAL - Draft", "body"], map[0 := ["CONFIDENTIAL"]], Header) == 1
    ensures CleanText("Page 3 - CONFIDENTIAL - Draft\nbody", map[0 := ["CONFIDENTIAL"]], map[]) == "body"
  {
    var line := "Page 3 - CONFIDENTIAL - Draft";
    var lines, headers, none: map<nat, seq<string>> := [line, "body"], map[0 := ["CONFIDENTIAL"]], map[];
    ConfidentialLine();
    ConfidentialCut(lines, headers);
    ConfidentialLines();
    assert IsFurthestCut(lines, none, Footer, 0);
    FurthestCutUnique(lines, none, Footer, 0);
    assert KeepBody(lines, 1, 0) == ["body"];
  }

  lemma ConfidentialLine()
    ensures MatchesAny("Page 3 - CONFIDENTIAL - Draft", ["CONFIDENTIAL"])
    ensures Strip("Page 3 - CONFIDENTIAL - Draft") == "Page 3 - CONFIDENTIAL - Draft"
  {
    ConfidentialContained();
    MatchesAnyIntro("Page 3 - CONFIDENTIAL - Draft", ["CONFIDENTIAL"], 0);
    ConfidentialStripped();
  }

  lemma ConfidentialContained()
    ensures Contains("Page 3 - CONFIDENTIAL - Draft", "CONFIDENTIAL")
  {
    assert OccursAt("Page 3 - CONFIDENTIAL - Draft", "CONFIDENTIAL", 9);
    ContainsAt("Page 3 - CONFIDENTIAL - Draft", "CONFIDENTIAL");
  }

  lemma ConfidentialStripped()
    ensures Strip("Page 3 - CONFIDENTIAL - Draft") == "Page 3 - CONFIDENTIAL - Draft"
  {
    var line := "Page 3 - CONFIDENTIAL - Draft";
    StripPadded([], line, []);
    assert [] + line + [] == line;
  }

  lemma ConfidentialCut(lines: seq<string>, headers: map<nat, seq<string>>)
    requires |lines| == 2 && MatchesAny(Strip(lines[0]), ["CONFIDENTIAL"])
    requires headers == map[0 := ["CONFIDENTIAL"]]
    ensures Cut(lines, headers, Header) == 1
  {
    assert MatchAt(lines, headers, Header, 0);
    assert IsFurthestCut(lines, headers, Header, 1);
    FurthestCutUnique(lines, headers, Header, 1);
  }

  lemma ConfidentialLines()
    ensures Lines("Page 3 - CONFIDENTIAL - Draft\nbody") == ["Page 3 - CONFIDENTIAL - Draft", "body"]
  {
    var line := "Page 3 - CONFIDENTIAL - Draft";
    assert "Page 3 - CONFIDENTIAL - Draft\nbody" == line + ['\n'] + "body";
    SplitTwo(line, "body", '\n');
  }

  /** Two separator-free texts joined by the separator split back apart. */
  lemma SplitTwo(a: string, b: string, sep: char)
    requires sep !in a && sep !in b
    ensures Split(a + [sep] + b, sep) == [a, b]
  {
    SplitAtSep(a, b, sep);
    SplitNoSep(b, sep);
  }

  /** A single pattern occurring in the line is enough for a match. */
  lemma MatchesAnyIntro(line: string, patterns: seq<string>, i: nat)
    requires i < |patterns| && Contains(line, patterns[i])
    ensures MatchesAny(line, patterns)
  {
    assert patterns[i] in patterns;
  }

  /** Two tables with the same keys and the same texts at each key, in
      whatever order, cut every page alike. */
  ghost predicate SameEntries(t1: map<nat, seq<string>>, t2: map<nat, seq<string>>) {
    t1.Keys == t2.Keys && forall p, x :: p in t1 ==> (x in t1[p] <==> x in t2[p])
  }

  lemma SameEntriesSameCut(lines: seq<string>, t1: map<nat, seq<string>>, t2: map<nat, seq<string>>,
                           side: Side)
    requires SameEntries(t1, t2)
    ensures Cut(lines, t1, side) == Cut(lines, t2, side)
  {
    forall p: nat ensures MatchAt(lines, t1, side, p) <==> MatchAt(lines, t2, side, p) {
      if p in t1 && p < |lines| {
        var line := Strip(if side == Header then lines[p] else lines[|lines| - (p + 1)]);
        if MatchesAny(line, t1[p]) {
          var q :| q in t1[p] && (Contains(line, q) || Contains(q, line));
          assert q in t2[p];
        }
        if MatchesAny(line, t2[p]) {
          var q :| q in t2[p] && (Contains(line, q) || Contains(q, line));
          assert q in t1[p];
        }
      }
    }
    CutIsFurthest(lines, t2, side);
    FurthestCutUnique(lines, t1, side, Cut(lines, t2, side));
  }

  /** The kept lines `lines[start:-end]`, or `lines[start:]` when `end` is 0:
      the lines from `start` up to `end` from the bottom, none at all once the
      two cuts overlap. */
  function KeepBody(lines: seq<string>, start: nat, end: nat): (r: seq<string>)
    requires start <= |lines| && end <= |lines|
    ensures |r| == if start + end <= |lines| then |lines| - start - end else 0
    ensures forall i :: 0 <= i < |r| ==> r[i] == lines[start + i]
  {
    if end > 0 then
      (if start <= |lines| - end then lines[start..|lines| - end] else [])
    else lines[start..]
  }

  /** `remove_common_patterns(text)`. */
  function CleanText(text: string, headers: map<nat, seq<string>>, footers: map<nat, seq<string>>): string {
    var lines := Lines(text);
    Join(KeepBody(lines, Cut(lines, headers, Header), Cut(lines, footers, Footer)), '\n')
  }

  /** A page no table position matches comes out unchanged; in particular
      with empty tables cleaning is the identity, since joining the split
      lines gives the text back. */
  lemma CleanTextUnmatched(text: string, headers: map<nat, seq<string>>, footers: map<nat, seq<string>>)
    requires forall p: nat :: !MatchAt(Lines(text), headers, Header, p) && !MatchAt(Lines(text), footers, Footer, p)
    ensures CleanText(text, headers, footers) == text
  {
    var lines := Lines(text);
    CutIsFurthest(lines, headers, Header);
    CutIsFurthest(lines, footers, Footer);
    assert KeepBody(lines, 0, 0) == lines;
    JoinSplit(text, '\n');
  }

  lemma EmptyTablesIdentity(text: string)
    ensures CleanText(text, map[], map[]) == text
  {
    CleanTextUnmatched(text, map[], map[]);
  }

  /** `m` is the smallest of `keys`. */
  predicate IsLeast(keys: set<nat>, m: nat) {
    m in keys && forall k :: k in keys ==> m <= k
  }

  /** Every non-empty set of page numbers has a smallest element. */
  lemma {:induction false} LeastExists(keys: set<nat>, x: nat)
    requires x in keys
    ensures exists m :: IsLeast(keys, m)
    decreases |keys|
  {
    var rest := keys - {x};
    if rest == {} {
      assert keys == {x};
      assert IsLeast(keys, x);
    } else {
      var y :| y in rest;
      LeastExists(rest, y);
      var m :| IsLeast(rest, m);
      var least := if x < m then x else m;
      forall k | k in keys ensures least <= k {
        if k != x { assert k in rest; }
      }
      assert IsLeast(keys, least);
    }
  }

  function MinOf(keys: set<nat>): (m: nat)
    requires keys != {}
    ensures m in keys && forall k :: k in keys ==> m <= k
  {
    var x :| x in keys;
    LeastExists(keys, x);
    var m :| IsLeast(keys, m);
    m
  }

  /** `r` is in strictly ascending order. */
  predicate Increasing(r: seq<nat>) {
    forall i, j :: 0 <= i < j < |r| ==> r[i] < r[j]
  }

  lemma IncreasingCons(m: nat, rest: seq<nat>)
    requires Increasing(rest) && forall j :: 0 <= j < |rest| ==> m < rest[j]
    ensures Increasing([m] + rest)
  {
    var r := [m] + rest;
    forall i, j | 0 <= i < j < |r| ensures r[i] < r[j] {
      if i > 0 {
        assert r[i] == rest[i - 1] && r[j] == rest[j - 1];
      } else {
        assert r[j] == rest[j - 1];
      }
    }
  }

  /** `sorted(keys)`: the keys in strictly ascending order. */
  function Ascending(keys: set<nat>): (r: seq<nat>)
    ensures |r| == |keys|
    ensures forall k :: k in keys <==> k in r
    ensures Increasing(r)
    decreases |keys|
  {
    if keys == {} then []
    else
      var m := MinOf(keys);
      var rest := Ascending(keys - {m});
      assert forall j :: 0 <= j < |rest| ==> rest[j] in keys - {m};
      IncreasingCons(m, rest);
      [m] + rest
  }

  /** The cleaned pages of `order`, concatenated with no separator. */
  function CombinedText(pages: map<nat, string>, headers: map<nat, seq<string>>,
                        footers: map<nat, seq<string>>, order: seq<nat>): string
    requires forall i :: 0 <= i < |order| ==> order[i] in pages
    decreases |order|
  {
    if order == [] then ""
    else
      CombinedText(pages, headers, footers, order[..|order| - 1])
        + CleanText(pages[order[|order| - 1]], headers, footers)
  }

  /** Taking one more page of `order` appends its cleaned text. */
  lemma CombinedTextPrefix(pages: map<nat, string>, headers: map<nat, seq<string>>,
                           footers: map<nat, seq<string>>, order: seq<nat>, i: nat)
    requires i < |order| && forall j :: 0 <= j < |order| ==> order[j] in pages
    ensures CombinedText(pages, headers, footers, order[..i + 1]) ==
      CombinedText(pages, headers, footers, order[..i]) + CleanText(pages[order[i]], headers, footers)
  {
    assert order[..i + 1][..i] == order[..i];
  }

  /** The pages of `order`, raw, concatenated with no separator. */
  function Concat(pages: map<nat, string>, order: seq<nat>): string
    requires forall i :: 0 <= i < |order| ==> order[i] in pages
    decreases |order|
  {
    if order == [] then "" else Concat(pages, order[..|order| - 1]) + pages[order[|order| - 1]]
  }

  /** With nothing to strip, the combined file is the pages themselves in
      ascending page order. */
  lemma {:induction false} CombinedEmptyTables(pages: map<nat, string>, order: seq<nat>)
    requires forall i :: 0 <= i < |order| ==> order[i] in pages
    ensures CombinedText(pages, map[], map[], order) == Concat(pages, order)
    decreases |order|
  {
    if order != [] {
      EmptyTablesIdentity(pages[order[|order| - 1]]);
      CombinedEmptyTables(pages, order[..|order| - 1]);
    }
  }

  /** The file a cleaned page is written to. */
  function OutputName(pageNum: nat): string {
    "page_" + NatToString(pageNum) + "_cleaned.txt"
  }

  /** Different pages are written to different files. */
  lemma OutputNameInjective(m: nat, n: nat)
    requires OutputName(m) == OutputName(n)
    ensures m == n
  {
    var a, b := NatToString(m), NatToString(n);
    assert |a| == |b|;
    assert a == OutputName(m)[5..5 + |a|];
    assert b == OutputName(n)[5..5 + |b|];
    NatToStringInjective(m, n);
  }

  datatype OutputFile = OutputFile(name: string, content: string)

  /** The files `clean_pages` writes, one per page in ascending page order. */
  function CleanedFiles(pages: map<nat, string>, headers: map<nat, seq<string>>,
                        footers: map<nat, seq<string>>, order: seq<nat>): (r: seq<OutputFile>)
    requires forall i :: 0 <= i < |order| ==> order[i] in pages
    ensures |r| == |order|
    ensures forall i :: 0 <= i < |r| ==>
      r[i] == OutputFile(OutputName(order[i]), CleanText(pages[order[i]], headers, footers))
  {
    seq(|order|, i requires 0 <= i < |order| => OutputFile(OutputName(order[i]), CleanText(pages[order[i]], headers, footers)))
  }

  /** Taking one more page of `order` appends its file. */
  lemma CleanedFilesPrefix(pages: map<nat, string>, headers: map<nat, seq<string>>,
                           footers: map<nat, seq<string>>, order: seq<nat>, i: nat)
    requires i < |order| && forall j :: 0 <= j < |order| ==> order[j] in pages
    ensures CleanedFiles(pages, headers, footers, order[..i + 1]) ==
      CleanedFiles(pages, headers, footers, order[..i])
        + [OutputFile(OutputName(order[i]), CleanText(pages[order[i]], headers, footers))]
  {
  }
}
