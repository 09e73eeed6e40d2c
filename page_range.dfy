/**
 * `parse_page_string` of the camelot comparison script: a page selection
 * such as "1-3,5" becomes the list of page numbers as strings,
 * ["1", "2", "3", "5"].  Every way the Python code can raise `ValueError`
 * (a part that is not a number, a range with more than one dash, a range
 * with a missing bound) is the single outcome `ValueError` here.
 */
module PageRange {
  import opened Text

  datatype Result<T> = Ok(value: T) | ValueError

  /** A non-empty run of ASCII decimal digits. */
  predicate IsDigits(ds: string) {
    ds != [] && AllDigits(ds)
  }

  /** `t` is an unpadded decimal literal of `n`: digits, optionally after a
      `+` sign, leading zeros allowed. */
  predicate Literal(t: string, n: nat) {
    var ds := if t != [] && t[0] == '+' then t[1..] else t;
    IsDigits(ds) && DigitsValue(ds) == n
  }

  /** The separator controls U+001C to U+001F: `str.isspace()` counts them as
      whitespace, so `str.strip()` removes them, but `int()` skips only the
      ASCII whitespace `\t\n\v\f\r` and space (and the non-ASCII whitespace
      it first turns into spaces), so on them it raises. */
  predicate IsSeparatorControl(c: char) {
    28 <= c as int <= 31
  }

  predicate NoSeparatorControl(s: string) {
    forall k :: 0 <= k < |s| ==> !IsSeparatorControl(s[k])
  }

  /** A literal with `str.isspace()` whitespace around it. */
  ghost predicate PaddedLiteral(s: string, n: nat) {
    exists i, j :: Padded(s, i, j) && Literal(s[i..j], n)
  }

  /** What Python's `int(s)` accepts: a literal surrounded by the whitespace
      `int()` skips.  A literal holds no separator control, so keeping them
      out of the whole text is keeping them out of the padding. */
  ghost predicate IntSyntax(s: string, n: nat) {
    NoSeparatorControl(s) && PaddedLiteral(s, n)
  }

  /** Python `int(s)` on a text without `-`: whitespace around an optional `+`
      and a non-empty run of digits, where a separator control anywhere is
      an error. */
  function ParseInt(s: string): (r: Result<nat>)
    requires '-' !in s
  {
    if !NoSeparatorControl(s) then ValueError
    else
      var t := Strip(s);
      var ds := if t != [] && t[0] == '+' then t[1..] else t;
      if IsDigits(ds) then Ok(DigitsValue(ds)) else ValueError
  }

  /** `int(s)` succeeds with `n` exactly when `s` is a padded literal of `n`
      free of separator controls. */
  lemma ParseIntSyntax(s: string, n: nat)
    requires '-' !in s
    ensures ParseInt(s) == Ok(n) <==> IntSyntax(s, n)
  {
    if ParseInt(s) == Ok(n) {
      ParseIntSound(s, n);
    }
    if IntSyntax(s, n) {
      var i, j :| Padded(s, i, j) && Literal(s[i..j], n);
      ParseIntComplete(s, i, j, n);
    }
  }

  lemma ParseIntSound(s: string, n: nat)
    requires '-' !in s && ParseInt(s) == Ok(n)
    ensures IntSyntax(s, n)
  {
    var i, j := StripPadding(s);
    assert Literal(s[i..j], n);
  }

  lemma ParseIntComplete(s: string, i: int, j: int, n: nat)
    requires '-' !in s && NoSeparatorControl(s) && Padded(s, i, j) && Literal(s[i..j], n)
    ensures ParseInt(s) == Ok(n)
  {
    PaddedStrip(s, i, j, n);
  }

  /** A literal holds no separator control. */
  lemma LiteralNoControl(t: string, n: nat)
    requires Literal(t, n)
    ensures NoSeparatorControl(t)
  {
    var ds := if t != [] && t[0] == '+' then t[1..] else t;
    forall k | 0 <= k < |t| ensures !IsSeparatorControl(t[k]) {
      if t[0] == '+' && k > 0 {
        assert t[k] == ds[k - 1];
      }
    }
  }

  /** A literal neither starts nor ends with whitespace. */
  lemma LiteralUnpadded(t: string, n: nat)
    requires Literal(t, n)
    ensures t != [] && !IsSpace(t[0]) && !IsSpace(t[|t| - 1])
  {
    if t[0] == '+' {
      assert t[|t| - 1] == t[1..][|t| - 2];
    }
  }

  /** `range(lo, hi)`, ascending. */
  function Range(lo: nat, hi: nat): (r: seq<nat>)
    ensures |r| == if lo <= hi then hi - lo else 0
    ensures forall k :: 0 <= k < |r| ==> r[k] == lo + k
    decreases hi - lo
  {
    if lo >= hi then [] else [lo] + Range(lo + 1, hi)
  }

  /** The pages one comma-separated part stands for: `a-b` is `a` to `b`
      inclusive, anything else is a single number. */
  function PartPages(part: string): Result<seq<nat>> {
    StrippedPartPages(Strip(part))
  }

  /** `range(start, end + 1)` once both bounds are read. */
  function Between(start: Result<nat>, end: Result<nat>): Result<seq<nat>> {
    if start.Ok? && end.Ok? then Ok(Range(start.value, end.value + 1)) else ValueError
  }

  /** A part split around its dashes: exactly two halves, both numbers. */
  function DashedPages(halves: seq<string>): Result<seq<nat>>
    requires forall k :: 0 <= k < |halves| ==> '-' !in halves[k]
  {
    if |halves| != 2 then ValueError else Between(ParseInt(halves[0]), ParseInt(halves[1]))
  }

  /** The same for the part once stripped. */
  function StrippedPartPages(p: string): Result<seq<nat>> {
    if '-' in p then
      DashedPages(Split(p, '-'))
    else
      var n := ParseInt(p);
      if n.Ok? then Ok([n.value]) else ValueError
  }

  /** The outcomes of the parts taken left to right: their pages
      concatenated in order, or `ValueError` from the first part that fails. */
  function Collect(outcomes: seq<Result<seq<nat>>>): Result<seq<nat>>
    decreases |outcomes|
  {
    if outcomes == [] then Ok([])
    else
      var pages, more := Collect(outcomes[..|outcomes| - 1]), outcomes[|outcomes| - 1];
      if pages.Ok? && more.Ok? then Ok(pages.value + more.value) else ValueError
  }

  /** `f` applied to every element, in order. */
  function Map<A, B>(f: A -> B, xs: seq<A>): (r: seq<B>)
    ensures |r| == |xs| && forall k :: 0 <= k < |xs| ==> r[k] == f(xs[k])
  {
    seq(|xs|, k requires 0 <= k < |xs| => f(xs[k]))
  }

  lemma MapAppend<A, B>(f: A -> B, xs: seq<A>, ys: seq<A>)
    ensures Map(f, xs + ys) == Map(f, xs) + Map(f, ys)
  {
  }

  /** The outcome of every part, in order. */
  function PartOutcomes(parts: seq<string>): (r: seq<Result<seq<nat>>>)
    ensures |r| == |parts|
  {
    Map(PartPages, parts)
  }

  function ParseParts(parts: seq<string>): Result<seq<nat>> {
    Collect(PartOutcomes(parts))
  }

  /** `str(p)` of every page, in order. */
  function Render(r: Result<seq<nat>>): Result<seq<string>> {
    match r
    case Ok(pages) => Ok(seq(|pages|, k requires 0 <= k < |pages| => NatToString(pages[k])))
    case ValueError => ValueError
  }

  /** What `parse_page_string(s)` returns or raises. */
  function ParsePages(s: string): Result<seq<string>> {
    Render(ParseParts(Split(s, ',')))
  }

  /** `parse_page_string(pages_str)`, with its loop that extends the list of
      pages part by part and its final rendering. */
  method ParsePageString(pagesStr: string) returns (r: Result<seq<string>>)
    ensures r == ParsePages(pagesStr)
  {
    var parts := Split(pagesStr, ',');
    ghost var outcomes := PartOutcomes(parts);
    var pages: seq<nat> := [];
    for i := 0 to |parts|
      invariant Collect(outcomes[..i]) == Ok(pages)
    {
      var more := ParsePart(parts[i]);
      CollectStep(outcomes, i, pages);
      if more == ValueError {
        ErrorPersists(outcomes, i + 1);
        return ValueError;
      }
      pages := pages + more.value;
    }
    assert outcomes[..|parts|] == outcomes;
    r := Ok(seq(|pages|, k requires 0 <= k < |pages| => NatToString(pages[k])));
  }

  /** The body of that loop: one part, stripped, then either unpacked into
      a start and an end around its dash or read as one number. */
  method ParsePart(part: string) returns (r: Result<seq<nat>>)
    ensures r == PartPages(part)
  {
    var p := Strip(part);
    if '-' in p {
      var halves := Split(p, '-');
      if |halves| != 2 {
        return ValueError;
      }
      var start := ParseInt(halves[0]);
      var end := ParseInt(halves[1]);
      if start == ValueError || end == ValueError {
        return ValueError;
      }
      r := Ok(Range(start.value, end.value + 1));
    } else {
      var n := ParseInt(p);
      if n == ValueError {
        return ValueError;
      }
      r := Ok([n.value]);
    }
  }

  /** One more outcome on top of a prefix that succeeded. */
  lemma CollectStep(outcomes: seq<Result<seq<nat>>>, i: nat, pages: seq<nat>)
    requires i < |outcomes| && Collect(outcomes[..i]) == Ok(pages)
    ensures Collect(outcomes[..i + 1]) ==
      if outcomes[i].Ok? then Ok(pages + outcomes[i].value) else ValueError
  {
    assert outcomes[..i + 1][..i] == outcomes[..i];
  }

  /** Once a prefix of the outcomes fails, the whole parse fails. */
  lemma {:induction false} ErrorPersists(outcomes: seq<Result<seq<nat>>>, i: nat)
    requires i <= |outcomes| && Collect(outcomes[..i]) == ValueError
    ensures Collect(outcomes) == ValueError
    decreases |outcomes| - i
  {
    if i < |outcomes| {
      assert outcomes[..i + 1][..i] == outcomes[..i];
      ErrorPersists(outcomes, i + 1);
    } else {
      assert outcomes[..i] == outcomes;
    }
  }

  /** The parse fails exactly when one of the parts fails. */
  lemma FailsIffSomePartFails(parts: seq<string>)
    ensures ParseParts(parts) == ValueError <==>
      exists k :: 0 <= k < |parts| && PartPages(parts[k]) == ValueError
  {
    var outcomes := PartOutcomes(parts);
    CollectFails(outcomes);
    if exists k :: 0 <= k < |parts| && PartPages(parts[k]) == ValueError {
      var k :| 0 <= k < |parts| && PartPages(parts[k]) == ValueError;
      assert outcomes[k] == ValueError;
    }
  }

  lemma {:induction false} CollectFails(outcomes: seq<Result<seq<nat>>>)
    ensures Collect(outcomes) == ValueError <==>
      exists k :: 0 <= k < |outcomes| && outcomes[k] == ValueError
    decreases |outcomes|
  {
    if outcomes != [] {
      var init := outcomes[..|outcomes| - 1];
      CollectFails(init);
      if exists k :: 0 <= k < |init| && init[k] == ValueError {
        var k :| 0 <= k < |init| && init[k] == ValueError;
        assert outcomes[k] == init[k];
      }
      if exists k :: 0 <= k < |outcomes| && outcomes[k] == ValueError {
        var k :| 0 <= k < |outcomes| && outcomes[k] == ValueError;
        if k < |init| { assert init[k] == outcomes[k]; }
      }
    }
  }

  /** Parts are processed left to right: the pages of two runs of parts are
      the pages of the first followed by those of the second. */
  lemma ParsePartsAppend(xs: seq<string>, ys: seq<string>)
    ensures var a, b := ParseParts(xs), ParseParts(ys);
      ParseParts(xs + ys) == if a.Ok? && b.Ok? then Ok(a.value + b.value) else ValueError
  {
    MapAppend(PartPages, xs, ys);
    CollectAppend(PartOutcomes(xs), PartOutcomes(ys));
  }

  lemma {:induction false} CollectAppend(xs: seq<Result<seq<nat>>>, ys: seq<Result<seq<nat>>>)
    ensures var a, b := Collect(xs), Collect(ys);
      Collect(xs + ys) == if a.Ok? && b.Ok? then Ok(a.value + b.value) else ValueError
    decreases |ys|
  {
    if ys == [] {
      assert xs + ys == xs;
      if Collect(xs).Ok? { assert Collect(xs).value + [] == Collect(xs).value; }
    } else {
      var ys' := ys[..|ys| - 1];
      assert (xs + ys)[..|xs + ys| - 1] == xs + ys';
      assert (xs + ys)[|xs + ys| - 1] == ys[|ys| - 1];
      CollectAppend(xs, ys');
      if Collect(xs).Ok? && Collect(ys').Ok? && ys[|ys| - 1].Ok? {
        var a, b, m := Collect(xs).value, Collect(ys').value, ys[|ys| - 1].value;
        assert (a + b) + m == a + (b + m);
      }
    }
  }

  /** The pages of a successful parse: as many as the parts contribute in
      total, duplicates kept. */
  function TotalPages(outcomes: seq<Result<seq<nat>>>): nat
    decreases |outcomes|
  {
    if outcomes == [] then 0
    else TotalPages(outcomes[..|outcomes| - 1]) + (match outcomes[|outcomes| - 1]
                                                   case Ok(more) => |more|
                                                   case ValueError => 0)
  }

  lemma {:induction false} CollectLength(outcomes: seq<Result<seq<nat>>>)
    requires Collect(outcomes).Ok?
    ensures |Collect(outcomes).value| == TotalPages(outcomes)
    decreases |outcomes|
  {
    if outcomes != [] {
      CollectLength(outcomes[..|outcomes| - 1]);
    }
  }

  /** `a-b` stands for `a, a + 1, ..., b`, and for nothing when `a > b`. */
  lemma RangePart(a: nat, b: nat)
    ensures PartPages(NatToString(a) + "-" + NatToString(b)) == Ok(Range(a, b + 1))
    ensures |Range(a, b + 1)| == if a <= b then b - a + 1 else 0
  {
    var x, y := NatToString(a), NatToString(b);
    var part := x + "-" + y;
    RangeText(x, y);
    NumberParses(a);
    NumberParses(b);
    RangeSplit(x, y);
    assert DashedPages([x, y]) == Ok(Range(a, b + 1));
  }

  lemma RangeSplit(x: string, y: string)
    requires '-' !in x && '-' !in y
    ensures '-' in x + "-" + y && Split(x + "-" + y, '-') == [x, y]
  {
    assert (x + "-" + y)[|x|] == '-';
    SplitAtSep(x, y, '-');
    SplitNoSep(y, '-');
    assert x + "-" + y == x + ['-'] + y;
  }

  /** Two numbers around a dash: nothing to strip, no dash in either half. */
  lemma RangeText(x: string, y: string)
    requires AllDigits(x) && AllDigits(y)
    ensures Strip(x + "-" + y) == x + "-" + y
    ensures '-' !in x && '-' !in y
  {
    DigitsOnly(x);
    DigitsOnly(y);
    NoSpaceAppend(x, "-");
    NoSpaceAppend(x + "-", y);
    StripNoSpace(x + "-" + y);
  }

  /** The part `x-y`, halves without a dash: `part.strip()` trims the outer
      ends, `TrimLeft(x)` and `TrimRight(y)`, and `int()` then reads each half
      with its own whitespace.  So the part gives `a, a+1, ..., b` when those
      two are literals of `a` and `b` (padded next to the dash, with leading
      zeros or a `+`: `" 01 - +3"`), and a part that succeeds has such
      halves. */
  lemma RangePartSyntax(x: string, y: string, a: nat, b: nat)
    requires '-' !in x && '-' !in y
    ensures IntSyntax(TrimLeft(x), a) && IntSyntax(TrimRight(y), b) ==>
      PartPages(x + "-" + y) == Ok(Range(a, b + 1))
    ensures PartPages(x + "-" + y).Ok? ==> exists a': nat, b': nat ::
      && IntSyntax(TrimLeft(x), a') && IntSyntax(TrimRight(y), b')
      && PartPages(x + "-" + y) == Ok(Range(a', b' + 1))
    ensures |Range(a, b + 1)| == if a <= b then b - a + 1 else 0
  {
    DashedPart(x, y);
    var l, r := TrimLeft(x), TrimRight(y);
    if IntSyntax(l, a) && IntSyntax(r, b) {
      SyntaxBetween(l, r, a, b);
    }
    if PartPages(x + "-" + y).Ok? {
      var a', b' := BetweenSyntax(l, r);
    }
  }

  /** `x-y` is read as the two halves `part.strip()` leaves around the dash. */
  lemma DashedPart(x: string, y: string)
    requires '-' !in x && '-' !in y
    ensures '-' !in TrimLeft(x) && '-' !in TrimRight(y)
    ensures PartPages(x + "-" + y) == DashedPages([TrimLeft(x), TrimRight(y)])
  {
    StripAroundDash(x, y);
    RangeSplit(TrimLeft(x), TrimRight(y));
  }

  lemma SyntaxBetween(l: string, r: string, a: nat, b: nat)
    requires '-' !in l && '-' !in r && IntSyntax(l, a) && IntSyntax(r, b)
    ensures DashedPages([l, r]) == Ok(Range(a, b + 1))
  {
    ParseIntSyntax(l, a);
    ParseIntSyntax(r, b);
    BetweenOf([l, r], a, b);
  }

  lemma BetweenSyntax(l: string, r: string) returns (a: nat, b: nat)
    requires '-' !in l && '-' !in r && DashedPages([l, r]).Ok?
    ensures IntSyntax(l, a) && IntSyntax(r, b) && DashedPages([l, r]) == Ok(Range(a, b + 1))
  {
    DashedOk([l, r]);
    a, b := ParseInt(l).value, ParseInt(r).value;
    ParseIntSyntax(l, a);
    ParseIntSyntax(r, b);
    BetweenOf([l, r], a, b);
  }

  lemma BetweenOf(halves: seq<string>, a: nat, b: nat)
    requires |halves| == 2 && forall k :: 0 <= k < 2 ==> '-' !in halves[k]
    requires ParseInt(halves[0]) == Ok(a) && ParseInt(halves[1]) == Ok(b)
    ensures DashedPages(halves) == Ok(Range(a, b + 1))
  {
  }

  /** A range part that succeeds read both of its halves. */
  lemma DashedOk(halves: seq<string>)
    requires |halves| == 2 && forall k :: 0 <= k < 2 ==> '-' !in halves[k]
    requires DashedPages(halves).Ok?
    ensures ParseInt(halves[0]).Ok? && ParseInt(halves[1]).Ok?
  {
  }

  /** Stripping `x-y` trims only the outer ends of the two halves. */
  lemma StripAroundDash(x: string, y: string)
    requires '-' !in x && '-' !in y
    ensures Strip(x + "-" + y) == TrimLeft(x) + "-" + TrimRight(y)
    ensures '-' !in TrimLeft(x) && '-' !in TrimRight(y)
  {
    var l, r := TrimLeft(x), TrimRight(y);
    assert x + "-" + y == x + ("-" + y);
    TrimLeftAppend(x, "-" + y);
    assert l + ("-" + y) == (l + "-") + y;
    TrimRightPrepend(l + "-", y);
    TrimLeftSpec(x);
    TrimRightSpec(y);
    assert forall c :: c in l ==> c in x;
    assert forall c :: c in r ==> c in y;
  }

  /** A part that is only whitespace, the empty part included, fails. */
  lemma BlankPartFails(part: string)
    requires AllSpace(part)
    ensures PartPages(part) == ValueError
  {
    StripBlank(part);
  }

  /** A part with two dashes or more fails: it does not unpack into a start
      and an end. */
  lemma ManyDashesFail(part: string)
    requires Occurrences(part, '-') >= 2
    ensures PartPages(part) == ValueError
  {
    var p := Strip(part);
    StripOccurrences(part, '-');
    OccurrencesIn(p, '-');
    SplitCount(p, '-');
  }

  /** A part starting with a dash once stripped fails, as `" -3"` does: its
      start is `int('')`. */
  lemma LeadingDashFails(part: string)
    requires Strip(part) != [] && Strip(part)[0] == '-'
    ensures PartPages(part) == ValueError
  {
    DashFirstFails(Strip(part));
  }

  /** A raw dash at the start is such a part. */
  lemma StripLeadingDash(part: string)
    requires part != [] && part[0] == '-'
    ensures Strip(part) != [] && Strip(part)[0] == '-'
  {
    assert TrimLeft(part) == part;
    TrimRightSpec(part);
    assert !IsSpace(part[0]);
    assert |TrimRight(part)| > 0;
  }

  lemma DashFirstFails(p: string)
    requires p != [] && p[0] == '-'
    ensures StrippedPartPages(p) == ValueError
  {
    assert '-' in p;
    SplitLeadingSep(p, '-');
    var halves := Split(p, '-');
    assert Strip(halves[0]) == "";
    assert ParseInt(halves[0]) == ValueError;
  }

  /** A separator control next to the dash is not stripped from the part,
      and `int()` rejects it: `"1\x1c-3"` raises. */
  lemma SeparatorControlFails()
    ensures PartPages("1\U{1C}-3") == ValueError
  {
    var x, y := "1\U{1C}", "3";
    assert x + "-" + y == "1\U{1C}-3";
    StripAroundDash(x, y);
    assert TrimLeft(x) == x && TrimRight(y) == y;
    RangeSplit(x, y);
    assert !NoSeparatorControl(x);
  }

  /** A part without a dash stands for its one number.  `part.strip()` runs
      first, so the padding here is all of `str.isspace()` whitespace. */
  lemma SinglePart(part: string, n: nat)
    requires '-' !in part
    ensures PartPages(part) == Ok([n]) <==> PaddedLiteral(part, n)
  {
    var p := Strip(part);
    StripOccurrences(part, '-');
    OccurrencesIn(part, '-');
    OccurrencesIn(p, '-');
    if PaddedLiteral(part, n) {
      StrippedLiteral(part, n);
    }
    if ParseInt(p) == Ok(n) {
      LiteralOfStripped(part, n);
    }
  }

  /** A padded literal strips to a literal that `int()` reads. */
  lemma StrippedLiteral(part: string, n: nat)
    requires '-' !in Strip(part) && PaddedLiteral(part, n)
    ensures ParseInt(Strip(part)) == Ok(n)
  {
    var i, j :| Padded(part, i, j) && Literal(part[i..j], n);
    PaddedStrip(part, i, j, n);
    LiteralReads(part[i..j], n);
  }

  /** Stripping a padded literal leaves the literal. */
  lemma PaddedStrip(s: string, i: int, j: int, n: nat)
    requires Padded(s, i, j) && Literal(s[i..j], n)
    ensures Strip(s) == s[i..j]
  {
    LiteralUnpadded(s[i..j], n);
    assert s == s[..i] + s[i..j] + s[j..];
    StripPadded(s[..i], s[i..j], s[j..]);
  }

  /** An unpadded literal reads as its number. */
  lemma LiteralReads(p: string, n: nat)
    requires '-' !in p && Literal(p, n)
    ensures ParseInt(p) == Ok(n)
  {
    LiteralUnpadded(p, n);
    StripPadded([], p, []);
    assert [] + p + [] == p;
    LiteralNoControl(p, n);
  }

  /** A stripped part that `int()` reads is a literal inside the part. */
  lemma LiteralOfStripped(part: string, n: nat)
    requires '-' !in Strip(part) && ParseInt(Strip(part)) == Ok(n)
    ensures PaddedLiteral(part, n)
  {
    var p := Strip(part);
    StripIdempotent(part);
    assert Literal(Strip(p), n);
    var i, j := StripPadding(part);
    assert Literal(part[i..j], n);
  }

  lemma StripIdempotent(s: string)
    ensures Strip(Strip(s)) == Strip(s)
  {
    var t := Strip(s);
    StripSlice(s);
    StripPadded([], t, []);
    assert [] + t + [] == t;
  }

  /** The rendering of a number reads back as that number. */
  lemma NumberParses(n: nat)
    ensures '-' !in NatToString(n) && ParseInt(NatToString(n)) == Ok(n)
  {
    var x := NatToString(n);
    DigitsOnly(x);
    StripNoSpace(x);
    DigitsValueOfNatToString(n);
  }

  /** Leading zeros do not change the value: `"007"` is page 7, which the
      output renders as `"7"`. */
  lemma LeadingZeros(zeros: string, n: nat)
    requires forall i :: 0 <= i < |zeros| ==> zeros[i] == '0'
    ensures '-' !in zeros + NatToString(n)
    ensures ParseInt(zeros + NatToString(n)) == Ok(n)
    ensures ParsePages(zeros + NatToString(n)) == Ok([NatToString(n)])
  {
    var x := NatToString(n);
    var s := zeros + x;
    assert AllDigits(zeros);
    AllDigitsAppend(zeros, x);
    DigitsOnly(s);
    StripNoSpace(s);
    ZerosValue(zeros, x);
    DigitsValueOfNatToString(n);
    SplitNoSep(s, ',');
    assert PartPages(s) == Ok([n]);
    assert PartOutcomes([s]) == [Ok([n])];
    assert [Ok([n])][..0] == [];
    assert [] + [n] == [n];
    assert Collect([Ok([n])]) == Ok([n]);
    var shown := Render(Ok([n]));
    assert |shown.value| == 1 && shown.value[0] == NatToString(n);
    assert shown.value == [NatToString(n)];
  }

  lemma {:induction false} ZerosValue(zeros: string, ds: string)
    requires forall i :: 0 <= i < |zeros| ==> zeros[i] == '0'
    requires AllDigits(ds)
    ensures AllDigits(zeros + ds)
    ensures DigitsValue(zeros + ds) == DigitsValue(ds)
    decreases |zeros| + |ds|
  {
    var s := zeros + ds;
    assert AllDigits(zeros);
    AllDigitsAppend(zeros, ds);
    if ds == [] {
      assert s == zeros;
      if zeros != [] {
        var z := zeros[..|zeros| - 1];
        ZerosValue(z, []);
        assert z + [] == z;
      }
    } else {
      var init := ds[..|ds| - 1];
      assert s[..|s| - 1] == zeros + init;
      ZerosValue(zeros, init);
    }
  }

  /** The rendered list joined with commas parses back to itself. */
  lemma RoundTrip(ns: seq<nat>)
    requires |ns| >= 1
    ensures var shown := seq(|ns|, k requires 0 <= k < |ns| => NatToString(ns[k]));
      ParsePages(Join(shown, ',')) == Ok(shown)
  {
    var shown := seq(|ns|, k requires 0 <= k < |ns| => NatToString(ns[k]));
    forall k | 0 <= k < |shown| ensures ',' !in shown[k] {
      DigitsOnly(shown[k]);
    }
    SplitJoin(shown, ',');
    var outcomes := PartOutcomes(shown);
    forall k | 0 <= k < |ns| ensures outcomes[k] == Ok([ns[k]]) {
      SingleNumberPart(ns[k]);
    }
    CollectSingles(outcomes, ns, |ns|);
    assert outcomes[..|ns|] == outcomes;
    assert ns[..|ns|] == ns;
  }

  /** The rendering of a number is a part that stands for that number. */
  lemma SingleNumberPart(n: nat)
    ensures PartPages(NatToString(n)) == Ok([n])
  {
    var x := NatToString(n);
    NumberParses(n);
    DigitsOnly(x);
    StripNoSpace(x);
  }

  lemma {:induction false} CollectSingles(outcomes: seq<Result<seq<nat>>>, ns: seq<nat>, i: nat)
    requires |outcomes| == |ns| && i <= |ns|
    requires forall k :: 0 <= k < |ns| ==> outcomes[k] == Ok([ns[k]])
    ensures Collect(outcomes[..i]) == Ok(ns[..i])
    decreases i
  {
    if i > 0 {
      CollectSingles(outcomes, ns, i - 1);
      assert outcomes[..i][..i - 1] == outcomes[..i - 1];
      assert ns[..i] == ns[..i - 1] + [ns[i - 1]];
    }
  }
}
