/**
 * `PDFHeaderFooterCleaner` as a class: the same fields, and one method per
 * step, with the source's loops.  Each method is proved against the pure
 * definitions of module Boilerplate.  Reading the page files, creating the
 * output folder, writing files and printing the report are not modelled;
 * the pages come in as a map from page number to text and the files to
 * write come out as a list of (name, content) pairs.
 */
module Cleaner {
  import opened Text
  import opened Boilerplate

  datatype Option<T> = None | Some(value: T)

  class HeaderFooterCleaner {
    // threshold = thresholdNum / thresholdDen (a float in the source)
    var thresholdNum: nat
    var thresholdDen: nat
    var headerLines: nat
    var footerLines: nat
    var pages: map<nat, string>
    var commonHeaders: map<nat, seq<string>>
    var commonFooters: map<nat, seq<string>>

    ghost predicate Valid()
      reads this
    {
      thresholdDen > 0
    }

    /** The cutoff `int(len(self.pages) * self.threshold)`. */
    function MinOccurrences(): nat
      reads this
      requires Valid()
    {
      Cutoff(|pages|, thresholdNum, thresholdDen)
    }

    constructor (thresholdNum: nat, thresholdDen: nat, headerLines: nat, footerLines: nat)
      requires thresholdDen > 0
      ensures Valid()
      ensures this.thresholdNum == thresholdNum && this.thresholdDen == thresholdDen
      ensures this.headerLines == headerLines && this.footerLines == footerLines
      ensures pages == map[] && commonHeaders == map[] && commonFooters == map[]
    {
      this.thresholdNum := thresholdNum;
      this.thresholdDen := thresholdDen;
      this.headerLines := headerLines;
      this.footerLines := footerLines;
      pages := map[];
      commonHeaders := map[];
      commonFooters := map[];
    }

    /** `read_page_files`: `loaded` is the page map the folder yields. */
    method ReadPageFiles(loaded: map<nat, string>)
      requires Valid()
      modifies this`pages
      ensures Valid()
      ensures pages == loaded
    {
      pages := loaded;
    }

    /** One `for i in range(bound)` scan of `find_common_patterns`: appends
        `(i, line.strip())` for every non-blank line of the window. */
    static method AppendCandidates(acc: seq<Candidate>, window: seq<string>, bound: nat)
      returns (acc': seq<Candidate>)
      requires bound <= |window|
      ensures acc' == acc + Tagged(window, bound)
    {
      acc' := acc;
      for i := 0 to bound
        invariant acc' == acc + Tagged(window, i)
      {
        var line := Strip(window[i]);
        if i < |window| && line != "" {
          acc' := acc' + [Candidate(i, line)];
        }
      }
    }

    /** The loop over `counter.items()`: a text enters the list of its
        position when its count reaches `cutoff`. */
    static method BuildTable(counter: multiset<Candidate>, cutoff: nat)
      returns (table: map<nat, seq<string>>)
      ensures IsTableOf(table, counter, cutoff)
    {
      table := map[];
      var items := set c | c in counter;
      ghost var done: set<Candidate> := {};
      while items != {}
        invariant items !! done
        invariant forall c :: c in counter <==> c in items || c in done
        invariant forall pos, t :: pos in table && t in table[pos] <==>
          Candidate(pos, t) in done && counter[Candidate(pos, t)] >= cutoff
        invariant forall pos :: pos in table ==> table[pos] != [] && Distinct(table[pos])
        decreases |items|
      {
        var c :| c in items;
        if counter[c] >= cutoff {
          if c.pos !in table {
            table := table[c.pos := []];
          }
          assert c.text !in table[c.pos];
          table := table[c.pos := table[c.pos] + [c.text]];
        }
        items := items - {c};
        done := done + {c};
      }
    }

    /** `find_common_patterns`: votes over all pages and keeps the
        position/text pairs found on at least `MinOccurrences()` pages. */
    method FindCommonPatterns()
      requires Valid()
      modifies this`commonHeaders, this`commonFooters
      ensures Valid()
      ensures IsPatternTable(commonHeaders, pages, Header, headerLines, footerLines, MinOccurrences())
      ensures IsPatternTable(commonFooters, pages, Footer, headerLines, footerLines, MinOccurrences())
    {
      var allHeaders, allFooters := CollectVotes();
      var headerCounter := multiset(allHeaders);
      var footerCounter := multiset(allFooters);
      var minOccurrences := MinOccurrences();
      var headers := BuildTable(headerCounter, minOccurrences);
      var footers := BuildTable(footerCounter, minOccurrences);
      TableOfVotes(headers, allHeaders, pages, Header, headerLines, footerLines, minOccurrences);
      TableOfVotes(footers, allFooters, pages, Footer, headerLines, footerLines, minOccurrences);
      commonHeaders := headers;
      commonFooters := footers;
    }

    /** The loop over the pages in `find_common_patterns`: each page appends
        its header and footer candidates, so every candidate ends up listed
        once for each page that offers it. */
    method CollectVotes() returns (allHeaders: seq<Candidate>, allFooters: seq<Candidate>)
      ensures Tallies(allHeaders, pages, Header, headerLines, footerLines)
      ensures Tallies(allFooters, pages, Footer, headerLines, footerLines)
    {
      allHeaders, allFooters := [], [];
      var remaining := pages.Keys;
      while remaining != {}
        invariant remaining <= pages.Keys
        invariant Tallies(allHeaders, pages - remaining, Header, headerLines, footerLines)
        invariant Tallies(allFooters, pages - remaining, Footer, headerLines, footerLines)
        decreases |remaining|
      {
        var pageNum :| pageNum in remaining;
        var content := pages[pageNum];
        var w := ExtractLines(content, Max(headerLines, footerLines));
        ghost var oldHeaders, oldFooters := allHeaders, allFooters;
        allHeaders := AppendCandidates(allHeaders, w.first, Min(headerLines, |w.first|));
        allFooters := AppendCandidates(allFooters, w.last, Min(footerLines, |w.last|));
        assert allHeaders == oldHeaders + Candidates(content, Header, headerLines, footerLines);
        assert allFooters == oldFooters + Candidates(content, Footer, headerLines, footerLines);
        VoteStep(pages, remaining, pageNum, Header, headerLines, footerLines, oldHeaders, allHeaders);
        VoteStep(pages, remaining, pageNum, Footer, headerLines, footerLines, oldFooters, allFooters);
        remaining := remaining - {pageNum};
      }
      assert pages - remaining == pages;
    }

    /** One of the two `max`-accumulating loops of `remove_common_patterns`:
        the table's positions are visited in ascending order and the cut is
        one past the highest position that matches. */
    static method LinesToRemove(lines: seq<string>, table: map<nat, seq<string>>, side: Side)
      returns (k: nat)
      ensures k == Cut(lines, table, side)
    {
      var positions := Ascending(table.Keys);
      k := HighestMatch(lines, table, side, positions);
      forall p: nat | MatchAt(lines, table, side, p) ensures p < k {
        var j :| 0 <= j < |positions| && positions[j] == p;
      }
      FurthestCutUnique(lines, table, side, k);
    }

    /** The body of that loop, for the positions in any order: the result
        is one past the highest listed position that matches, 0 if none. */
    static method HighestMatch(lines: seq<string>, table: map<nat, seq<string>>, side: Side,
                               positions: seq<nat>)
      returns (k: nat)
      requires forall i :: 0 <= i < |positions| ==> positions[i] in table
      ensures k == 0 || (k - 1 in positions && MatchAt(lines, table, side, k - 1))
      ensures forall j :: 0 <= j < |positions| && MatchAt(lines, table, side, positions[j]) ==> positions[j] < k
    {
      k := 0;
      ghost var w := 0;
      for i := 0 to |positions|
        invariant k == 0 || (w < i && positions[w] + 1 == k && MatchAt(lines, table, side, positions[w]))
        invariant forall j :: 0 <= j < i && MatchAt(lines, table, side, positions[j]) ==> positions[j] < k
      {
        var pos := positions[i];
        var hit := PositionMatches(lines, table, side, pos);
        if hit {
          if pos + 1 > k {
            w := i;
          }
          k := Max(k, pos + 1);
        }
      }
      if k > 0 {
        assert positions[w] == k - 1;
      }
    }

    /** One iteration's test: the position is inside the page and its
        stripped line matches one of the position's patterns. */
    static method PositionMatches(lines: seq<string>, table: map<nat, seq<string>>, side: Side, pos: nat)
      returns (hit: bool)
      requires pos in table
      ensures hit <==> MatchAt(lines, table, side, pos)
    {
      hit := false;
      if pos < |lines| {
        var line := Strip(if side == Header then lines[pos] else lines[|lines| - (pos + 1)]);
        hit := MatchesAny(line, table[pos]);
      }
    }

    /** `remove_common_patterns(text)`. */
    method RemoveCommonPatterns(text: string) returns (cleaned: string)
      ensures cleaned == CleanText(text, commonHeaders, commonFooters)
    {
      var lines := Lines(text);
      var start := LinesToRemove(lines, commonHeaders, Header);
      var end := LinesToRemove(lines, commonFooters, Footer);
      CutIsFurthest(lines, commonHeaders, Header);
      CutIsFurthest(lines, commonFooters, Footer);
      var kept: seq<string>;
      if end > 0 {
        kept := if start <= |lines| - end then lines[start..|lines| - end] else [];
      } else {
        kept := lines[start..];
      }
      cleaned := Join(kept, '\n');
    }

    /** `clean_pages` without the printing: loads the pages, builds both
        tables and lists the cleaned files, one per page in ascending page
        order.  With no pages it stops at once and returns nothing. */
    method CleanPages(loaded: map<nat, string>)
      returns (written: seq<OutputFile>, tables: Option<(map<nat, seq<string>>, map<nat, seq<string>>)>)
      requires Valid()
      modifies this
      ensures Valid()
      ensures thresholdNum == old(thresholdNum) && thresholdDen == old(thresholdDen)
      ensures headerLines == old(headerLines) && footerLines == old(footerLines)
      ensures pages == loaded
      ensures |loaded| == 0 ==>
        && written == [] && tables == None
        && commonHeaders == old(commonHeaders) && commonFooters == old(commonFooters)
      ensures |loaded| > 0 ==>
        && IsPatternTable(commonHeaders, pages, Header, headerLines, footerLines, MinOccurrences())
        && IsPatternTable(commonFooters, pages, Footer, headerLines, footerLines, MinOccurrences())
        && tables == Some((commonHeaders, commonFooters))
        && written == CleanedFiles(pages, commonHeaders, commonFooters, Ascending(pages.Keys))
    {
      ReadPageFiles(loaded);
      if |pages| == 0 {
        return [], None;
      }
      FindCommonPatterns();
      written := CleanedPageFiles(Ascending(pages.Keys));
      tables := Some((commonHeaders, commonFooters));
    }

    /** The loop of `clean_pages` that cleans each page and names its
        output file, over the pages in the given order. */
    method CleanedPageFiles(order: seq<nat>) returns (written: seq<OutputFile>)
      requires forall i :: 0 <= i < |order| ==> order[i] in pages
      ensures written == CleanedFiles(pages, commonHeaders, commonFooters, order)
    {
      written := [];
      for i := 0 to |order|
        invariant written == CleanedFiles(pages, commonHeaders, commonFooters, order[..i])
      {
        var pageNum := order[i];
        var cleaned := RemoveCommonPatterns(pages[pageNum]);
        CleanedFilesPrefix(pages, commonHeaders, commonFooters, order, i);
        written := written + [OutputFile(OutputName(pageNum), cleaned)];
      }
      assert order[..|order|] == order;
    }

    /** The loop of the script that writes `all_cleaned.txt`: the pages of
        `order` cleaned again and written back to back. */
    method CombinedOutput(order: seq<nat>) returns (all: string)
      requires forall i :: 0 <= i < |order| ==> order[i] in pages
      ensures all == CombinedText(pages, commonHeaders, commonFooters, order)
    {
      all := "";
      for i := 0 to |order|
        invariant all == CombinedText(pages, commonHeaders, commonFooters, order[..i])
      {
        var cleaned := RemoveCommonPatterns(pages[order[i]]);
        CombinedTextPrefix(pages, commonHeaders, commonFooters, order, i);
        all := all + cleaned;
      }
      assert order[..|order|] == order;
    }
  }

  /** The script at the bottom of the source: a cleaner with threshold 0.7
      and five-line windows, then the combined text of all cleaned pages.
      With no pages `clean_pages` returns `None`, whose unpacking into two
      tables fails, so no combined text is produced. */
  method CleanAndCombine(loaded: map<nat, string>) returns (combined: Option<string>)
    ensures |loaded| == 0 ==> combined == None
    ensures |loaded| > 0 ==> exists headers, footers ::
      && IsPatternTable(headers, loaded, Header, 5, 5, Cutoff(|loaded|, 7, 10))
      && IsPatternTable(footers, loaded, Footer, 5, 5, Cutoff(|loaded|, 7, 10))
      && combined == Some(CombinedText(loaded, headers, footers, Ascending(loaded.Keys)))
  {
    var cleaner := new HeaderFooterCleaner(7, 10, 5, 5);
    var written, tables := cleaner.CleanPages(loaded);
    if tables == None {
      return None;
    }
    var all := cleaner.CombinedOutput(Ascending(cleaner.pages.Keys));
    combined := Some(all);
  }

  /** One page's contribution to the vote: appending its candidates adds
      one to the count of each candidate it offers, and it is one more page
      that offers it. */
  lemma VoteStep(pages: map<nat, string>, remaining: set<nat>, pageNum: nat, side: Side,
                 headerLines: nat, footerLines: nat, acc: seq<Candidate>, acc': seq<Candidate>)
    requires pageNum in remaining && remaining <= pages.Keys
    requires Tallies(acc, pages - remaining, side, headerLines, footerLines)
    requires acc' == acc + Candidates(pages[pageNum], side, headerLines, footerLines)
    ensures Tallies(acc', pages - (remaining - {pageNum}), side, headerLines, footerLines)
  {
    var before := pages - remaining;
    var content := pages[pageNum];
    assert pages - (remaining - {pageNum}) == before[pageNum := content];
    var cands := Candidates(content, side, headerLines, footerLines);
    forall c ensures multiset(acc')[c] == |PagesWith(before[pageNum := content], side, headerLines, footerLines, c)| {
      CountAppend(acc, cands, c);
      CandidatesCount(content, side, headerLines, footerLines, c);
      PagesWithInsert(before, pageNum, content, side, headerLines, footerLines, c);
    }
  }

  /** A table built from the vote counts is the pattern table of the pages. */
  lemma TableOfVotes(table: map<nat, seq<string>>, votes: seq<Candidate>,
                     pages: map<nat, string>, side: Side, headerLines: nat, footerLines: nat, cutoff: nat)
    requires Tallies(votes, pages, side, headerLines, footerLines)
    requires IsTableOf(table, multiset(votes), cutoff)
    ensures IsPatternTable(table, pages, side, headerLines, footerLines, cutoff)
  {
  }
}
