# Header/footer cleaner and page-range parser, in Dafny

This project models two pieces of a PDF text-extraction toolkit and proves
properties of them.

1. **The header/footer cleaner.** This is `PDFHeaderFooterCleaner` in
   `clean_headers_footers.py`. It takes pages of plain text keyed by page
   number and works in three steps:
   - **Extract candidates.** From the top and bottom of every page it
     collects the stripped, non-blank lines, each tagged with its position.
   - **Vote.** It counts each `(position, text)` pair over all pages. A pair
     seen on at least `int(len(pages) * threshold)` pages is accepted into a
     header or footer table, which maps a position to a list of texts.
   - **Cut.** It finds the furthest header position and the furthest footer
     position whose line contains, or is contained in, an accepted text. It
     drops those lines from each page and joins the rest with `'\n'`.

   After cleaning, the example script concatenates all cleaned pages in
   ascending page order.
2. **The page-range parser.** This is `parse_page_string` in
   `camelot_table_extraction_comparison.py`. It turns a selection such as
   `"1-3,5"` into the page list `["1", "2", "3", "5"]`, or raises
   `ValueError`.

Files:

- `text.dfy` (module `Text`) holds the Python string operations both parts
  use:
  - `str.strip()`, over the exact code-point set `str.isspace()` accepts;
  - `str.split(c)` and `c.join(parts)` for one character `c`;
  - the substring test `p in s`;
  - `str(n)` for `n >= 0`, with the digit-string value that inverts it.
- `boilerplate.dfy` (module `Boilerplate`) defines the cleaner as pure
  functions, each with its lemmas:
  - the candidate windows, and the vote count as a reference definition
    (the set of pages that offer a candidate);
  - the acceptance rule and the pattern tables;
  - the furthest cut, the kept slice and the cleaned text;
  - the ascending page order and the combined text.
- `cleaner.dfy` (module `Cleaner`) is the class `HeaderFooterCleaner`. Its
  fields are the source's threshold, window sizes, pages and pattern tables
  (not the two folder paths), and it has one method per step. Each method keeps the
  source's loops and is proved against the `Boilerplate` definitions. The
  example script at the bottom of the source is `CleanAndCombine`.
- `page_range.dfy` (module `PageRange`) has three parts:
  - `ParsePageString`, the source's loop, which grows the page list part by
    part;
  - `ParsePages`, the function that defines its result;
  - the lemmas on expansion, order, length, rendering and every
    `ValueError` case.

The threshold is the fraction `thresholdNum / thresholdDen`. The script's
`0.7` is `7 / 10`.

Three facts about the code shape the contracts:

- **The cutoff is a floor.** `int(len(self.pages) * self.threshold)`
  truncates (clean_headers_footers.py:58). `Boilerplate.Cutoff` is
  therefore the floor of `pages × threshold`.
- **Footer positions mean two different things.**
  - In voting, footer position `i` indexes the window of the last
    `N = max(header_lines, footer_lines)` lines, counted from the start of
    that window (clean_headers_footers.py:41, 53-55). A page with `N` lines
    or fewer offers no footer candidates at all.
  - In removal, footer position `p` reads `lines[-(p + 1)]`
    (clean_headers_footers.py:86).

  Both are kept as written. `Boilerplate.FooterCandidateBounds` states the
  voting one, `Boilerplate.MatchAt` the removal one.
- **Blank lines.** Voting skips blank lines (clean_headers_footers.py:51,
  54). At removal a blank line at a listed position matches every pattern,
  because `line in pattern` holds for `line == ""`
  (clean_headers_footers.py:81, 87; `Boilerplate.BlankLineMatches`).

## Model

| member | source | states |
|---|---|---|
| Boilerplate.Lines | clean_headers_footers.py:39 | a page's lines are `text.split('\n')`, never an empty list |
| Boilerplate.Tagged | clean_headers_footers.py:50-55 | defines one scan's candidates: `(i, stripped line)` for each `i` below the bound whose stripped line is non-blank, in order |
| Boilerplate.Candidates | clean_headers_footers.py:48-55 | defines a page's header candidates from the first window below `min(header_lines, ...)` and its footer candidates from the last window below `min(footer_lines, ...)`, both windows of size `max(header_lines, footer_lines)` |
| Boilerplate.Accepted | clean_headers_footers.py:58-70 | defines acceptance: a pair is accepted iff the number of pages offering it is at least the cutoff and at least one |
| Boilerplate.IsPatternTable | clean_headers_footers.py:59-72 | defines a pattern table: a text is listed at a position iff that pair is accepted; each list is non-empty and repeats no text |
| Boilerplate.MatchesAny | clean_headers_footers.py:81 | defines the match test: some pattern is contained in the stripped line, or the line in it |
| Boilerplate.MatchAt | clean_headers_footers.py:79-81 | defines a match at position `p`: `p` is a table key below the line count and the stripped line `lines[p]` (header) or `lines[-(p + 1)]` (footer) matches its list |
| Boilerplate.CutBelow | clean_headers_footers.py:77-88 | never exceeds its bound; the properties of the scan are in `CutBelowIsFurthest` |
| Boilerplate.Cut | clean_headers_footers.py:77-88 | `lines_to_remove_start` or `lines_to_remove_end`: never more than the line count; characterised by `CutIsFurthest` and `FurthestCutUnique` |
| Boilerplate.CleanText | clean_headers_footers.py:74-93 | defines the cleaned page: the page's lines between the two cuts, joined with `'\n'` |
| Boilerplate.OutputName | clean_headers_footers.py:116 | defines the file name `page_<n>_cleaned.txt` |
| Boilerplate.CleanedFiles | clean_headers_footers.py:113-118 | one file per page of the order, in that order, each named by `OutputName` and holding the page's cleaned text |
| Boilerplate.CombinedText | clean_headers_footers.py:133-137 | defines the combined file: the cleaned pages of the order, back to back |
| Cleaner.HeaderFooterCleaner.MinOccurrences | clean_headers_footers.py:58 | defines `min_occurrences` as `Cutoff` of the current page count and threshold |
| Text.Strip | clean_headers_footers.py:51 | `str.strip()`: never longer than its input; `StripPadding` shows it is a slice with only whitespace outside it, `StripSlice` that the slice neither starts nor ends with whitespace, `StripBlank` that it is empty exactly for blank text |
| Text.Split | clean_headers_footers.py:39 | `str.split(c)`: at least one part, none containing `c`; `JoinSplit` and `SplitCount` characterise it |
| Text.Join | clean_headers_footers.py:93 | defines `c.join(parts)`: the parts with `c` between neighbours |
| Text.Contains | clean_headers_footers.py:81 | defines `p in s`; `ContainsAt` characterises it |
| Text.NatToString | camelot_table_extraction_comparison.py:55 | `str(n)`: a non-empty run of digits without a leading zero unless it is `"0"`; `DigitsValueOfNatToString` inverts it |
| PageRange.ParseInt | camelot_table_extraction_comparison.py:51-54 | defines `int(s)` for dash-free text: `ValueError` on any of U+001C–U+001F, otherwise the stripped text read as an optional `+` and digits; characterised by `ParseIntSyntax` |
| PageRange.PartPages | camelot_table_extraction_comparison.py:49-54 | defines one part's pages: the part is stripped, then read as a range or a single number |
| PageRange.StrippedPartPages | camelot_table_extraction_comparison.py:50-54 | defines the branch on `'-' in part` |
| PageRange.DashedPages | camelot_table_extraction_comparison.py:51-52 | defines the range branch: exactly two halves, both read by `int`, else `ValueError` |
| PageRange.Collect | camelot_table_extraction_comparison.py:47-54 | defines the concatenation of the parts' pages, failing at the first failing part |
| PageRange.Render | camelot_table_extraction_comparison.py:55 | defines `[str(p) for p in pages]`, passing `ValueError` through |
| PageRange.ParsePages | camelot_table_extraction_comparison.py:45-55 | defines `parse_page_string`: split on `,`, collect the parts, render |
| Cleaner.HeaderFooterCleaner.constructor | clean_headers_footers.py:8-16 | the threshold and both window sizes are the ones given; the page map and both tables start empty |
| Cleaner.HeaderFooterCleaner.ReadPageFiles | clean_headers_footers.py:18-34 | `self.pages` becomes the page map the folder yields; nothing else changes, and the class invariant is kept |
| Boilerplate.ExtractLines | clean_headers_footers.py:37-42 | the first window is the first `min(n, len(lines))` lines; the last window is the last `n` lines only if the page has more than `n` lines, otherwise empty; with `n == 0` it is the whole page |
| Cleaner.HeaderFooterCleaner.AppendCandidates | clean_headers_footers.py:50-55 | one scan appends exactly the list of `(i, stripped line)` for the non-blank lines below the bound, in order |
| Boilerplate.TaggedMember | clean_headers_footers.py:50-55 | a candidate is recorded iff its position is below the bound, its line is non-blank once stripped, and its text is that stripped line |
| Boilerplate.TaggedIncreasing | clean_headers_footers.py:50-55 | one scan records positions in strictly increasing order, all below the bound |
| Boilerplate.TaggedCount | clean_headers_footers.py:50-55 | one scan records each candidate at most once: its count is 1 if it qualifies and 0 otherwise |
| Boilerplate.CandidatesCount | clean_headers_footers.py:48-57 | a page offers each `(position, text)` pair at most once on each side |
| Boilerplate.HeaderCandidateBounds | clean_headers_footers.py:49-52 | a header candidate has position below `min(header_lines, len(lines))`, has the stripped text of the page line at that position, and is non-blank |
| Boilerplate.FooterCandidateBounds | clean_headers_footers.py:49-55 | a footer candidate exists only on pages longer than `max(header_lines, footer_lines)`; its position is below `footer_lines`; it is the stripped, non-blank text of the line at that offset from the start of the last window |
| Cleaner.HeaderFooterCleaner.CollectVotes | clean_headers_footers.py:46-57 | after the loop over the pages, each candidate appears in the header (footer) list exactly as many times as there are pages that offer it |
| Cleaner.VoteStep | clean_headers_footers.py:48-57 | a page's appended candidates add one to the count of exactly the candidates it offers, keeping count = number of pages seen so far that offer it |
| Boilerplate.PagesWithInsert | clean_headers_footers.py:48-57 | adding one page raises a candidate's page count by one exactly when that page offers it |
| Boilerplate.CountAtMostPages | clean_headers_footers.py:48-57 | no candidate's count exceeds the number of pages |
| Boilerplate.Cutoff | clean_headers_footers.py:58 | the cutoff is the floor of `pages × threshold`: `m × den <= pages × num < (m + 1) × den` |
| Boilerplate.CutoffMonotone | clean_headers_footers.py:58 | a higher threshold never gives a lower cutoff |
| Cleaner.HeaderFooterCleaner.BuildTable | clean_headers_footers.py:59-70 | a text is in a position's list iff that pair's count is at least the cutoff (and nonzero); every list is non-empty and repeats no text |
| Cleaner.TableOfVotes | clean_headers_footers.py:56-70 | a table built from counts that are the page counts is the pattern table of the pages |
| Cleaner.HeaderFooterCleaner.FindCommonPatterns | clean_headers_footers.py:44-72 | the header and footer fields become the pattern tables: a text is listed at a position iff at least `MinOccurrences()` pages (and at least one) offer that pair, with distinct texts per position; the class invariant is kept |
| Boilerplate.PatternTableSound | clean_headers_footers.py:61-70 | every accepted text occurred at that position on at least `cutoff` pages, at least one, and at most all of them |
| Boilerplate.AcceptedMonotone | clean_headers_footers.py:58-70 | raising the threshold accepts a subset of the pairs |
| Cleaner.HeaderFooterCleaner.HighestMatch | clean_headers_footers.py:78-82 | the `max`-accumulating loop ends one past the highest listed position whose stripped line matches some pattern there, or 0 if none does: `k - 1` is one of the listed positions and matches, and every listed match is below `k` |
| Cleaner.HeaderFooterCleaner.PositionMatches | clean_headers_footers.py:79-81 | one iteration's test is true iff the position is below the line count and its stripped line (`lines[pos]`, or `lines[-(pos + 1)]` for footers) matches a pattern listed there |
| Cleaner.HeaderFooterCleaner.LinesToRemove | clean_headers_footers.py:77-88 | over the table's keys in ascending order, the loop computes exactly the furthest cut `Cut(lines, table, side)` |
| Boilerplate.CutBelowIsFurthest | clean_headers_footers.py:77-88 | the downward scan stops at one past the highest matching position below its bound |
| Boilerplate.CutIsFurthest | clean_headers_footers.py:77-88 | the cut is one past the highest matching position, 0 if none; a miss at a lower position never hides a match above it; the cut is at most `len(lines)` |
| Boilerplate.FurthestCutUnique | clean_headers_footers.py:77-88 | any value with that furthest-cut property is the cut |
| Boilerplate.CutWithinWindow | clean_headers_footers.py:50-88 | for a table the vote builds, the header cut is at most `header_lines` and the footer cut at most `footer_lines`, because every key is a scanned window position |
| Boilerplate.KeyWithinWindow | clean_headers_footers.py:50-70 | every key of a header table is below `header_lines`, every key of a footer table below `footer_lines` |
| Boilerplate.CutWithinKeys | clean_headers_footers.py:77-88 | when every key of the table is below `bound`, the cut is at most `bound` |
| Boilerplate.BlankLineMatches | clean_headers_footers.py:79-82 | a blank line at a known header position always matches, so the header cut passes it |
| Boilerplate.ConfidentialMatches | clean_headers_footers.py:76-93 | with "CONFIDENTIAL" accepted at header position 0, the line "Page 3 - CONFIDENTIAL - Draft" matches it, the header cut of the page `"Page 3 - CONFIDENTIAL - Draft\nbody"` is 1, and cleaning it (no footers) leaves `"body"` |
| Boilerplate.SameEntriesSameCut | clean_headers_footers.py:78-88 | the order of texts in a table's lists (Counter order) cannot change any cut |
| Boilerplate.KeepBody | clean_headers_footers.py:89-92 | the kept lines are `lines[start:len(lines)-end]`; they are empty once the cuts overlap; everything from `start` on is kept when `end` is 0 |
| Cleaner.HeaderFooterCleaner.RemoveCommonPatterns | clean_headers_footers.py:74-93 | the method returns the cleaned text `Boilerplate.CleanText` for the current tables |
| Boilerplate.CleanTextUnmatched | clean_headers_footers.py:74-93 | a page that no table position matches comes out unchanged |
| Boilerplate.EmptyTablesIdentity | clean_headers_footers.py:74-93 | with empty tables, cleaning is the identity, because `'\n'.join(text.split('\n')) == text` |
| Text.JoinSplit | clean_headers_footers.py:76-93 | joining the split parts with the same separator gives the text back |
| Text.ContainsAt | clean_headers_footers.py:81 | `p in s` holds iff `p` occurs at some index of `s` |
| Text.StripPadding | clean_headers_footers.py:80 | `strip()` leaves the slice of the text with only whitespace before and after it |
| Boilerplate.Ascending | clean_headers_footers.py:113 | `sorted(keys)` lists every key exactly once, in strictly ascending order |
| Cleaner.HeaderFooterCleaner.CleanPages | clean_headers_footers.py:95-120 | with no pages it returns no tables and no files and leaves the tables unchanged; otherwise both fields are the pattern tables, it returns them, and it lists one cleaned file per page in ascending page order |
| Cleaner.HeaderFooterCleaner.CleanedPageFiles | clean_headers_footers.py:113-118 | the loop lists `page_<n>_cleaned.txt` with the cleaned text of page `n`, for every page in order |
| Boilerplate.OutputNameInjective | clean_headers_footers.py:116 | different pages are written to different files |
| Cleaner.HeaderFooterCleaner.CombinedOutput | clean_headers_footers.py:133-137 | the loop writes the cleaned pages of the order back to back, with no separator |
| Boilerplate.CombinedTextPrefix | clean_headers_footers.py:134-137 | each further page appends its cleaned text to the combined file |
| Boilerplate.CombinedEmptyTables | clean_headers_footers.py:133-137 | with empty tables, the combined file is the raw pages concatenated in order |
| Cleaner.CleanAndCombine | clean_headers_footers.py:123-137 | with threshold 0.7 and five-line windows, the combined text is the ascending-order concatenation of the pages cleaned with the pattern tables of the pages; with no pages the script produces nothing |
| PageRange.ParsePageString | camelot_table_extraction_comparison.py:45-55 | the loop's result (pages or `ValueError`) is `ParsePages(pages_str)` |
| PageRange.ParsePart | camelot_table_extraction_comparison.py:49-54 | the loop body's handling of one part is `PartPages(part)` |
| PageRange.ParseIntSyntax | camelot_table_extraction_comparison.py:51-54 | for text without `-`, `int(s)` gives `n` iff `s` is an optional `+` and a non-empty run of digits of value `n`, padded with whitespace that `int()` skips, which is `str.isspace()` whitespace other than the separator controls U+001C–U+001F |
| PageRange.Range | camelot_table_extraction_comparison.py:52 | `range(lo, hi)` has `max(hi - lo, 0)` elements, the `k`-th being `lo + k` |
| PageRange.RangePartSyntax | camelot_table_extraction_comparison.py:49-52 | for dash-free halves `x`, `y`, `part.strip()` trims only the outer ends (`TrimLeft(x)`, `TrimRight(y)`) and `int()` reads what is left of each half: if those are literals of `a` and `b` as `int()` accepts them (its own padding, leading zeros, `+`), `"x-y"` gives `range(a, b + 1)`; whenever `"x-y"` succeeds, both are such literals and it gives that range; the range has `b - a + 1` pages, none when `a > b` |
| PageRange.SeparatorControlFails | camelot_table_extraction_comparison.py:49-51 | `"1\x1c-3"` raises: `strip()` leaves the U+001C next to the dash, and `int("1\x1c")` rejects it |
| PageRange.RangePart | camelot_table_extraction_comparison.py:50-52 | the part `"a-b"` gives `a, a+1, ..., b`, that is `b - a + 1` pages, and none at all when `a > b` |
| PageRange.SinglePart | camelot_table_extraction_comparison.py:49-54 | a part without `-` gives the single page `n` iff it is an integer literal of `n` padded with any `str.isspace()` whitespace, since `part.strip()` runs before `int()` |
| PageRange.NumberParses | camelot_table_extraction_comparison.py:54 | the decimal rendering of `n` parses back to `n` |
| PageRange.ParsePartsAppend | camelot_table_extraction_comparison.py:47-52 | parts are taken left to right: the pages of `xs + ys` are those of `xs` followed by those of `ys`, and either failing fails the whole |
| PageRange.FailsIffSomePartFails | camelot_table_extraction_comparison.py:48-54 | the parse raises `ValueError` iff some part does |
| PageRange.ErrorPersists | camelot_table_extraction_comparison.py:48-54 | once a prefix of the parts fails, the whole parse fails |
| PageRange.CollectLength | camelot_table_extraction_comparison.py:52-55 | the page count is the sum of the parts' contributions, duplicates included |
| PageRange.BlankPartFails | camelot_table_extraction_comparison.py:54 | a blank part, the empty part included, raises `ValueError` |
| PageRange.ManyDashesFail | camelot_table_extraction_comparison.py:51 | a part with two or more `-` raises `ValueError` |
| PageRange.LeadingDashFails | camelot_table_extraction_comparison.py:49-51 | a part that starts with `-` once stripped (`"-3"`, or `" -3"` from `"1, -3"`) raises `ValueError`, since `int('')` fails |
| PageRange.LeadingZeros | camelot_table_extraction_comparison.py:54-55 | leading zeros do not change the value, and the output renders it without them (`"007"` gives `["7"]`) |
| PageRange.RoundTrip | camelot_table_extraction_comparison.py:45-55 | for a non-empty list of page numbers, joining their renderings with commas and parsing gives the same list back (the empty list joins to `""`, which raises) |
| Text.DigitsValueOfNatToString | camelot_table_extraction_comparison.py:55 | the digits `str(n)` renders have value `n` |
| Text.NatToStringInjective | camelot_table_extraction_comparison.py:55 | different numbers render differently |
| Text.SplitJoin | camelot_table_extraction_comparison.py:48 | splitting the comma-join of comma-free parts gives the parts back |
| Text.StripOccurrences | camelot_table_extraction_comparison.py:49 | stripping keeps every non-whitespace character, so it keeps the number of dashes |

## Left out

- Reading the page files is not modelled. That is the glob over `page*.txt`, the regular expression on the file stem, and the UTF-8 then latin-1 decoding (clean_headers_footers.py:18-34). The pages are a given map from page number to text.
- The constructor's `folder_path` and `output_folder` arguments and the default output folder `f"{folder_path}_cleaned"` (clean_headers_footers.py:9-10) are not modelled. They only name where files are read and written, and file I/O is not modelled.
- Printing, `os.makedirs` and file writes are not modelled (clean_headers_footers.py:97-119, 133-137). `CleanPages` returns the files it would write as (name, content) pairs. `CleanAndCombine` returns the text of `all_cleaned.txt`.
- The floating-point threshold `0.7` is the exact fraction `7 / 10`. Rounding errors of `len(pages) * 0.7` in floating point are not modelled.
- Cleaner.HeaderFooterCleaner.BuildTable: the contract states which texts each position's list holds, not their order. That order follows the iteration order of Python's `Counter`, which the model does not fix. `Boilerplate.SameEntriesSameCut` shows that the order cannot change any cut.
- Cleaner.HeaderFooterCleaner.CollectVotes: pages are visited in an arbitrary order, not in the dict's insertion order. That order changes only the order of the vote lists, not the counts the contract states.
- PageRange.ParseIntSyntax: `int()` is modelled for text without `-` only. `parse_page_string` never passes it a `-`: a range's halves come from splitting on `-`, and a single number is read only from a part without `-`. Non-ASCII whitespace is skipped like a space, as `int()` does after turning it into one; U+001C–U+001F make it fail. Underscores between digits, non-ASCII digits, and Python's limit on the number of digits `int()` converts are not modelled.
- The graphical, OCR and table-extraction wrapper scripts of the repository are not part of this model. The rest of `camelot_table_extraction_comparison.py` (camelot calls, plotting and reporting) is not either.
