/** `LectureProcessor.parse_page_range`: a page selector such as
    "1-10,15,20-25" or "all", and the document's page count, give the
    zero-based indices of the pages to process, or one of two errors. */
module PageRange {
  import opened Results
  import opened Text
  import opened Ordering

  /** One comma-separated part of a selector, with its 1-based numbers as
      written: `N` or `A-B`. A part never carries a sign, because every
      `-` in it is taken as the range separator. */
  datatype Part = Single(page: nat) | Span(first: nat, last: nat)

  /** A successful parse: the selected indices, and the 1-based numbers of
      requested pages that lie outside the document (the warning). */
  datatype Selection = Selection(pages: seq<int>, skipped: set<int>)

  datatype SelectorError =
    | MalformedSelector(selector: string)
    | EmptySelection(selector: string, totalPages: int)
  {
    function Selector(): string {
      match this
      case MalformedSelector(s) => s
      case EmptySelection(s, _) => s
    }
  }

  /** `list(range(lo, hi))`. */
  function Range(lo: int, hi: int): (r: seq<int>)
    ensures StrictlyIncreasing(r)
    ensures forall p :: p in r <==> lo <= p < hi
    ensures |r| == if lo < hi then hi - lo else 0
    decreases hi - lo
  {
    if lo < hi then
      var rest := Range(lo + 1, hi);
      ConsIncreasing(lo, rest);
      [lo] + rest
    else []
  }

  /** The selector that means every page: empty, or "all" in any case. */
  predicate SelectsAll(selector: string) {
    |selector| == 0 || ToLower(selector) == "all"
  }

  /** The zero-based indices a part names: `N` names N-1, and `A-B` names
      A-1 through B-1, which is nothing when A > B. */
  predicate Names(part: Part, p: int) {
    match part
    case Single(n) => p == n - 1
    case Span(a, b) => a - 1 <= p <= b - 1
  }

  /** Some part of the selector names index `p`. */
  predicate Requested(parts: seq<Part>, p: int) {
    exists i :: 0 <= i < |parts| && Names(parts[i], p)
  }

  /** One raw part: `part.strip()`, then the grammar of `PartOf`. */
  function ParsePart(raw: string): Option<Part> {
    PartOf(Strip(raw))
  }

  /** A stripped part: with a `-` it must split into exactly two integers
      (`start, end = part.split('-')`), otherwise it must be one integer. */
  function PartOf(p: string): (r: Option<Part>)
    ensures r.Some? ==> (r.value.Span? <==> '-' in p)
    ensures '-' in p && |Split(p, '-')| != 2 ==> r.None?
    ensures '-' in p && |Split(p, '-')| == 2 ==>
      (r.Some? <==> ParseInt(Split(p, '-')[0]).Some? && ParseInt(Split(p, '-')[1]).Some?)
    ensures '-' !in p ==> (r.Some? <==> ParseInt(p).Some? && ParseInt(p).value >= 0)
    ensures '-' !in p && r.Some? ==> r == Some(Single(ParseInt(p).value))
  {
    if '-' in p then
      var pieces := Split(p, '-');
      if |pieces| != 2 then None
      else
        var a := ParseInt(pieces[0]);
        var b := ParseInt(pieces[1]);
        if a.Some? && b.Some? then Some(Span(a.value, b.value)) else None
    else
      var n := ParseInt(p);
      if n.Some? then Some(Single(n.value)) else None
  }

  /** The indices the loop body adds for one part: `[N - 1]` or
      `range(A - 1, B)`. */
  function Expand(part: Part): (r: seq<int>)
    ensures forall p :: p in r <==> Names(part, p)
  {
    match part
    case Single(n) => [n - 1]
    case Span(a, b) => Range(a - 1, b)
  }

  /** Every part must parse; the first one that does not is a ValueError.
      The part parser is a parameter so that reasoning about the loop
      does not look inside it. */
  function ParseEach<T>(parse: string -> Option<T>, raws: seq<string>): (r: Option<seq<T>>)
    ensures r.None? <==> exists i :: 0 <= i < |raws| && parse(raws[i]).None?
    ensures r.Some? ==> |r.value| == |raws|
    ensures r.Some? ==> forall i :: 0 <= i < |raws| ==> parse(raws[i]) == Some(r.value[i])
  {
    if |raws| == 0 then Some([])
    else
      match parse(raws[0])
      case None => None
      case Some(part) =>
        match ParseEach(parse, raws[1..])
        case None => None
        case Some(rest) =>
          assert forall i :: 1 <= i < |raws| ==> raws[i] == raws[1..][i - 1];
          Some([part] + rest)
  }

  function ParseParts(raws: seq<string>): (r: Option<seq<Part>>)
    ensures r.None? <==> exists i :: 0 <= i < |raws| && ParsePart(raws[i]).None?
    ensures r.Some? ==> |r.value| == |raws|
    ensures r.Some? ==> forall i :: 0 <= i < |raws| ==> ParsePart(raws[i]) == Some(r.value[i])
  {
    ParseEach(ParsePart, raws)
  }

  /** The `pages` list after the loop: each part's expansion, in order. */
  function ExpandAll(parts: seq<Part>): (r: seq<int>)
    ensures forall p :: p in r <==> Requested(parts, p)
  {
    if |parts| == 0 then []
    else
      var rest := ExpandAll(parts[1..]);
      assert forall p :: Requested(parts, p) <==> Names(parts[0], p) || Requested(parts[1..], p) by {
        forall p
          ensures Requested(parts, p) <==> Names(parts[0], p) || Requested(parts[1..], p)
        {
          if Requested(parts[1..], p) {
            var i :| 0 <= i < |parts| - 1 && Names(parts[1..][i], p);
            assert Names(parts[i + 1], p);
          }
          if Requested(parts, p) && !Names(parts[0], p) {
            var i :| 0 <= i < |parts| && Names(parts[i], p);
            assert Names(parts[1..][i - 1], p);
          }
        }
      }
      Expand(parts[0]) + rest
  }

  /** `[p for p in pages if 0 <= p < total_pages]`. */
  function KeepInBounds(xs: seq<int>, totalPages: int): (r: seq<int>)
    ensures forall p :: p in r <==> p in xs && 0 <= p < totalPages
    ensures StrictlyIncreasing(xs) ==> StrictlyIncreasing(r)
  {
    if |xs| == 0 then []
    else
      var rest := KeepInBounds(xs[1..], totalPages);
      assert StrictlyIncreasing(xs) ==> StrictlyIncreasing(xs[1..]);
      assert StrictlyIncreasing(xs) ==> forall p :: p in rest ==> xs[0] < p;
      if 0 <= xs[0] < totalPages then
        if StrictlyIncreasing(xs) then ConsIncreasing(xs[0], rest); [xs[0]] + rest
        else [xs[0]] + rest
      else rest
  }

  /** `parse_page_range(selector, total_pages)`. */
  function ParseSelector(selector: string, totalPages: int): (r: Result<Selection, SelectorError>)
    ensures SelectsAll(selector) ==> r == Ok(Selection(Range(0, totalPages), {}))
    ensures r.Ok? ==> StrictlyIncreasing(r.value.pages)
    ensures r.Ok? ==> forall p :: p in r.value.pages ==> 0 <= p < totalPages
    ensures r.Ok? && !SelectsAll(selector) ==> |r.value.pages| > 0
    ensures r.Ok? ==> forall q :: q in r.value.skipped ==> !(1 <= q <= totalPages)
    ensures r.Err? ==> r.error.Selector() == selector
  {
    if SelectsAll(selector) then Ok(Selection(Range(0, totalPages), {}))
    else
      match ParseParts(Split(selector, ','))
      case None => Err(MalformedSelector(selector))
      case Some(parts) => SelectParts(selector, parts, totalPages)
  }

  /** The code after the parsing loop: `sorted(set(pages))`, the bounds
      filter, the empty-selection error and the skipped-page warning. */
  function SelectParts(selector: string, parts: seq<Part>, totalPages: int)
    : (r: Result<Selection, SelectorError>)
    ensures r.Ok? ==> StrictlyIncreasing(r.value.pages)
    ensures r.Ok? ==> forall p :: p in r.value.pages ==> 0 <= p < totalPages
    ensures r.Ok? ==> |r.value.pages| > 0
    ensures r.Ok? ==> forall q :: q in r.value.skipped ==> !(1 <= q <= totalPages)
    ensures r.Err? ==> r.error == EmptySelection(selector, totalPages)
  {
    var pages := SortedDistinct(ExpandAll(parts));
    var valid := KeepInBounds(pages, totalPages);
    if |valid| == 0 then Err(EmptySelection(selector, totalPages))
    else Ok(Selection(valid, set p | p in pages && p !in valid :: p + 1))
  }
}

module PageRangeProperties {
  import opened Results
  import opened Text
  import opened Ordering
  import opened PageRange

  /** A selector other than "all" is malformed exactly when one of its
      comma-separated parts fails to parse. */
  lemma MalformedIffBadPart(selector: string, totalPages: int, raws: seq<string>)
    requires !SelectsAll(selector) && raws == Split(selector, ',')
    ensures ParseSelector(selector, totalPages) == Err(MalformedSelector(selector))
        <==> exists i :: 0 <= i < |raws| && ParsePart(raws[i]).None?
  {
    var parsed := ParseParts(raws);
    if parsed.Some? {
      assert ParseSelector(selector, totalPages) == SelectParts(selector, parsed.value, totalPages);
    }
  }

  /** What a parse result means for the parts it came from: it succeeds
      exactly when some requested index lies inside the document; it then
      holds exactly the requested indices inside the document (increasing,
      by `ParseSelector`'s contract, so by `StrictlyIncreasingUnique` the
      list is fixed) and warns about exactly the requested pages outside
      it, 1-based; otherwise it is the empty-selection error. */
  ghost predicate Meaning(r: Result<Selection, SelectorError>, selector: string, parts: seq<Part>, totalPages: int) {
    && (r.Ok? <==> exists p :: Requested(parts, p) && 0 <= p < totalPages)
    && (r.Err? ==> r == Err(EmptySelection(selector, totalPages)))
    && (r.Ok? ==> forall p :: p in r.value.pages <==> Requested(parts, p) && 0 <= p < totalPages)
    && (r.Ok? ==> forall q :: q in r.value.skipped <==> Requested(parts, q - 1) && !(0 <= q - 1 < totalPages))
  }

  /** A selector other than "all" whose parts all parse selects what its
      parts mean. */
  lemma SelectorSemantics(selector: string, totalPages: int, parts: seq<Part>)
    requires !SelectsAll(selector)
    requires ParseParts(Split(selector, ',')) == Some(parts)
    ensures Meaning(ParseSelector(selector, totalPages), selector, parts, totalPages)
  {
    assert ParseSelector(selector, totalPages) == SelectParts(selector, parts, totalPages);
    SelectPartsSemantics(selector, parts, totalPages);
  }

  lemma SelectPartsSemantics(selector: string, parts: seq<Part>, totalPages: int)
    ensures Meaning(SelectParts(selector, parts, totalPages), selector, parts, totalPages)
  {
    var r := SelectParts(selector, parts, totalPages);
    var valid := ValidPages(parts, totalPages);
    if |valid| > 0 {
      assert valid[0] in valid;
      assert r.Ok? && r.value.pages == valid;
      SkippedPages(selector, parts, totalPages);
    } else {
      assert r == Err(EmptySelection(selector, totalPages));
    }
  }

  /** The indices that survive the bounds filter are exactly the requested
      ones inside the document. */
  function ValidPages(parts: seq<Part>, totalPages: int): (r: seq<int>)
    ensures forall p :: p in r <==> Requested(parts, p) && 0 <= p < totalPages
  {
    KeepInBounds(SortedDistinct(ExpandAll(parts)), totalPages)
  }

  lemma SkippedPages(selector: string, parts: seq<Part>, totalPages: int)
    requires SelectParts(selector, parts, totalPages).Ok?
    ensures forall q :: q in SelectParts(selector, parts, totalPages).value.skipped
                    <==> Requested(parts, q - 1) && !(0 <= q - 1 < totalPages)
  {
    var pages := SortedDistinct(ExpandAll(parts));
    var valid := KeepInBounds(pages, totalPages);
    assert SelectParts(selector, parts, totalPages).value.skipped
        == set p | p in pages && p !in valid :: p + 1;
    OutOfBounds(pages, valid, set p | p in pages && p !in valid :: p + 1, parts, totalPages);
  }

  /** `{p + 1 for p in pages if p not in valid}` are the requested pages
      outside the document, 1-based. */
  lemma OutOfBounds(pages: seq<int>, valid: seq<int>, skipped: set<int>, parts: seq<Part>, totalPages: int)
    requires forall p :: p in pages <==> Requested(parts, p)
    requires forall p :: p in valid <==> p in pages && 0 <= p < totalPages
    requires skipped == set p | p in pages && p !in valid :: p + 1
    ensures forall q :: q in skipped <==> Requested(parts, q - 1) && !(0 <= q - 1 < totalPages)
  {
    forall q
      ensures q in skipped <==> Requested(parts, q - 1) && !(0 <= q - 1 < totalPages)
    {
      if Requested(parts, q - 1) && !(0 <= q - 1 < totalPages) {
        assert q - 1 in pages && q - 1 !in valid;
      }
    }
  }

  /** The canonical spelling of a part. */
  function PartText(part: Part): string {
    match part
    case Single(n) => Decimal(n)
    case Span(a, b) => Decimal(a) + "-" + Decimal(b)
  }

  /** The canonical spelling of a selector: its parts joined by commas. */
  function SelectorText(parts: seq<Part>): string {
    Join(seq(|parts|, i requires 0 <= i < |parts| => PartText(parts[i])), ',')
  }

  /** Parsing a spelled-out part, with any surrounding whitespace, gives
      the part back. */
  lemma ParsePartText(w1: string, part: Part, w2: string)
    requires AllSpace(w1) && AllSpace(w2)
    ensures ParsePart(w1 + PartText(part) + w2) == Some(part)
  {
    var t := PartText(part);
    PartTextTrimmed(part);
    StripPadded(w1, t, w2);
    StripTrimmed(t);
    assert ParsePart(w1 + t + w2) == ParsePart(t);
    match part
    case Single(n) => ParseSingleText(n);
    case Span(a, b) => ParseSpanText(a, b);
  }

  lemma PartTextTrimmed(part: Part)
    ensures Trimmed(PartText(part))
    ensures ',' !in PartText(part)
  {
    var t := PartText(part);
    match part
    case Single(n) =>
      assert forall i :: 0 <= i < |t| ==> IsDigit(t[i]);
    case Span(a, b) =>
      var da, db := Decimal(a), Decimal(b);
      assert t == da + "-" + db;
      assert t[0] == da[0];
      assert t[|t| - 1] == db[|db| - 1];
      assert forall i :: 0 <= i < |da| ==> IsDigit(da[i]);
      assert forall i :: 0 <= i < |db| ==> IsDigit(db[i]);
  }

  lemma ParseSingleText(n: nat)
    ensures ParsePart(Decimal(n)) == Some(Single(n))
  {
    var d := Decimal(n);
    assert forall i :: 0 <= i < |d| ==> IsDigit(d[i]);
    assert '-' !in d;
    assert Trimmed(d);
    StripTrimmed(d);
    ParseDecimal(n);
  }

  lemma ParseSpanText(a: nat, b: nat)
    ensures ParsePart(Decimal(a) + "-" + Decimal(b)) == Some(Span(a, b))
  {
    DecimalValue(a);
    DecimalValue(b);
    ParseSpanDigits(Decimal(a), Decimal(b));
  }

  lemma ParseSpanDigits(x: string, y: string)
    requires |x| > 0 && AllDigits(x) && |y| > 0 && AllDigits(y)
    ensures ParsePart(x + "-" + y) == Some(Span(DigitsValue(x), DigitsValue(y)))
  {
    var t := x + "-" + y;
    SpanTrimmed(x, y);
    StripTrimmed(t);
    SplitSpan(x, y);
    ParseDigits(x);
    ParseDigits(y);
    SpanOfPieces(t, x, y);
  }

  lemma SpanTrimmed(x: string, y: string)
    requires |x| > 0 && AllDigits(x) && |y| > 0 && AllDigits(y)
    ensures Trimmed(x + "-" + y)
  {
    var t := x + "-" + y;
    assert t[0] == x[0] && t[|t| - 1] == y[|y| - 1];
    assert IsDigit(x[0]) && IsDigit(y[|y| - 1]);
  }

  lemma SplitSpan(x: string, y: string)
    requires AllDigits(x) && AllDigits(y)
    ensures '-' in x + "-" + y
    ensures Split(x + "-" + y, '-') == [x, y]
  {
    assert (x + "-" + y)[|x|] == '-';
    assert '-' !in x && '-' !in y;
    SplitAfterPiece(x, '-', y);
    SplitNoSep(y, '-');
  }

  lemma SpanOfPieces(t: string, x: string, y: string)
    requires '-' in t && Split(t, '-') == [x, y]
    requires ParseInt(x).Some? && ParseInt(y).Some? && ParseInt(x).value >= 0 && ParseInt(y).value >= 0
    ensures PartOf(t) == Some(Span(ParseInt(x).value, ParseInt(y).value))
  {
  }

  /** A spelled-out selector parses back to its parts. */
  lemma SelectorTextParses(parts: seq<Part>)
    requires |parts| > 0
    ensures ParseParts(Split(SelectorText(parts), ',')) == Some(parts)
  {
    var texts := seq(|parts|, i requires 0 <= i < |parts| => PartText(parts[i]));
    forall i | 0 <= i < |texts|
      ensures ',' !in texts[i]
      ensures ParsePart(texts[i]) == Some(parts[i])
    {
      PartTextTrimmed(parts[i]);
      match parts[i]
      case Single(n) => ParseSingleText(n);
      case Span(a, b) => ParseSpanText(a, b);
    }
    SplitJoin(texts, ',');
    ParsePartsOf(texts, parts);
  }

  lemma ParsePartsOf(raws: seq<string>, parts: seq<Part>)
    requires |raws| == |parts|
    requires forall i :: 0 <= i < |raws| ==> ParsePart(raws[i]) == Some(parts[i])
    ensures ParseParts(raws) == Some(parts)
  {
    ParseEachOf(ParsePart, raws, parts);
  }

  lemma {:induction false} ParseEachOf<T>(parse: string -> Option<T>, raws: seq<string>, parts: seq<T>)
    requires |raws| == |parts|
    requires forall i :: 0 <= i < |raws| ==> parse(raws[i]) == Some(parts[i])
    ensures ParseEach(parse, raws) == Some(parts)
  {
    if |raws| > 0 {
      ParseEachOf(parse, raws[1..], parts[1..]);
      assert parts == [parts[0]] + parts[1..];
    }
  }

  /** A reversed range `A-B` with A > B adds nothing to a selection (and
      is not an error). */
  lemma {:induction false} ReversedSpanAddsNothing(parts: seq<Part>, a: nat, b: nat)
    requires a > b
    ensures forall p :: Requested(parts + [Span(a, b)], p) <==> Requested(parts, p)
  {
    var more := parts + [Span(a, b)];
    forall p
      ensures Requested(more, p) <==> Requested(parts, p)
    {
      if Requested(parts, p) {
        var i :| 0 <= i < |parts| && Names(parts[i], p);
        assert Names(more[i], p);
      }
      if Requested(more, p) {
        var i :| 0 <= i < |more| && Names(more[i], p);
        assert i < |parts|;
        assert Names(parts[i], p);
      }
    }
  }

  /** "all", in any case, selects every page, with no error even for an
      empty document. */
  lemma AllSelectsEverything(totalPages: int)
    ensures ParseSelector("all", totalPages) == Ok(Selection(Range(0, totalPages), {}))
    ensures ParseSelector("ALL", totalPages) == Ok(Selection(Range(0, totalPages), {}))
    ensures ParseSelector("", totalPages) == Ok(Selection(Range(0, totalPages), {}))
    ensures ParseSelector("all", 0) == Ok(Selection([], {}))
  {
    assert ToLower("ALL") == "all";
    assert ToLower("all") == "all";
  }

  /** The examples of the parser's documentation: "1-3,7-9" and "1,3,5"
      on a 100-page document. */
  lemma DocExamples()
    ensures ParseSelector("1-3,7-9", 100) == Ok(Selection([0, 1, 2, 6, 7, 8], {}))
    ensures ParseSelector("1,3,5", 100) == Ok(Selection([0, 2, 4], {}))
  {
    SpansExample();
    SinglesExample();
  }

  lemma SpansExample()
    ensures ParseSelector("1-3,7-9", 100) == Ok(Selection([0, 1, 2, 6, 7, 8], {}))
  {
    var spans := [Span(1, 3), Span(7, 9)];
    SpansText();
    SpansRequest();
    KnownSelection("1-3,7-9", spans, [0, 1, 2, 6, 7, 8], 100);
  }

  lemma SpansRequest()
    ensures forall p :: Requested([Span(1, 3), Span(7, 9)], p) <==> p in [0, 1, 2, 6, 7, 8]
  {
    var spans := [Span(1, 3), Span(7, 9)];
    forall p ensures Requested(spans, p) <==> 0 <= p <= 2 || 6 <= p <= 8 {
      if 0 <= p <= 2 {
        assert Names(spans[0], p);
      } else if 6 <= p <= 8 {
        assert Names(spans[1], p);
      }
    }
  }

  lemma SinglesExample()
    ensures ParseSelector("1,3,5", 100) == Ok(Selection([0, 2, 4], {}))
  {
    var singles := [Single(1), Single(3), Single(5)];
    SinglesText();
    forall p ensures Requested(singles, p) <==> p in [0, 2, 4] {
      if p in [0, 2, 4] {
        assert Names(singles[p / 2], p);
      }
    }
    KnownSelection("1,3,5", singles, [0, 2, 4], 100);
  }

  lemma SpansText()
    ensures SelectorText([Span(1, 3), Span(7, 9)]) == "1-3,7-9"
    ensures !SelectsAll("1-3,7-9")
  {
    var parts := [Span(1, 3), Span(7, 9)];
    assert PartText(parts[0]) == "1-3" && PartText(parts[1]) == "7-9";
    var texts := seq(|parts|, i requires 0 <= i < |parts| => PartText(parts[i]));
    assert texts == ["1-3", "7-9"];
    assert Join(["7-9"], ',') == "7-9";
    assert |ToLower("1-3,7-9")| == 7;
  }

  lemma SinglesText()
    ensures SelectorText([Single(1), Single(3), Single(5)]) == "1,3,5"
    ensures !SelectsAll("1,3,5")
  {
    var parts := [Single(1), Single(3), Single(5)];
    assert PartText(parts[0]) == "1" && PartText(parts[1]) == "3" && PartText(parts[2]) == "5";
    var texts := seq(|parts|, i requires 0 <= i < |parts| => PartText(parts[i]));
    assert texts == ["1", "3", "5"];
    assert Join(["5"], ',') == "5";
    assert Join(["3", "5"], ',') == "3,5";
    assert |ToLower("1,3,5")| == 5;
  }

  /** Selectors that are a ValueError: a span without an end, an empty
      part, a part that is no number, a span with two dashes, and a span
      whose first number carries an information separator, which `strip`
      would remove but `int()` refuses. */
  lemma MalformedExamples(totalPages: int)
    ensures ParseSelector("1-", totalPages) == Err(MalformedSelector("1-"))
    ensures ParseSelector("1,,2", totalPages) == Err(MalformedSelector("1,,2"))
    ensures ParseSelector("abc", totalPages) == Err(MalformedSelector("abc"))
    ensures ParseSelector("1-2-3", totalPages) == Err(MalformedSelector("1-2-3"))
    ensures ParseSelector("1\U{1C}-3", totalPages) == Err(MalformedSelector("1\U{1C}-3"))
  {
    OpenSpan(totalPages);
    EmptyPart(totalPages);
    NotANumber(totalPages);
    TwoDashes(totalPages);
    SeparatorInSpan(totalPages);
  }

  /** A selector of one part that does not parse is malformed. */
  lemma BadOnlyPart(selector: string, totalPages: int)
    requires ',' !in selector && !SelectsAll(selector) && ParsePart(selector).None?
    ensures ParseSelector(selector, totalPages) == Err(MalformedSelector(selector))
  {
    SplitNoSep(selector, ',');
    MalformedIffBadPart(selector, totalPages, [selector]);
    assert ParsePart([selector][0]).None?;
  }

  lemma OpenSpan(totalPages: int)
    ensures ParseSelector("1-", totalPages) == Err(MalformedSelector("1-"))
  {
    OnePart("1-");
    OpenSpanPart();
    BadOnlyPart("1-", totalPages);
  }

  /** The literal facts the one-part examples need: no comma, and not
      "all". */
  lemma OnePart(s: string)
    requires s == "1-" || s == "abc" || s == "1-2-3" || s == "1\U{1C}-3"
    ensures ',' !in s && !SelectsAll(s)
  {
    assert s[1] != 'l';
    assert ToLower(s)[1] == LowerChar(s[1]) != 'l';
  }

  lemma OpenSpanPart()
    ensures ParsePart("1-") == None
  {
    BlankRefused("");
    BadSpanPart("1", "");
    assert "1" + "-" + "" == "1-";
  }

  /** A span is malformed when it has a second dash, or either side is
      no integer. */
  lemma BadSpanPart(x: string, y: string)
    requires '-' !in x && Trimmed(x + "-" + y)
    requires '-' in y || ParseInt(x).None? || ParseInt(y).None?
    ensures ParsePart(x + "-" + y) == None
  {
    var t := x + "-" + y;
    StripTrimmed(t);
    SpanPieces(x, y);
    if '-' in y {
      SplitAtSeparator(y, '-');
      assert |Split(t, '-')| > 2;
    } else {
      SplitNoSep(y, '-');
      BadSpanOfPieces(t, x, y);
    }
  }

  lemma SpanPieces(x: string, y: string)
    requires '-' !in x
    ensures '-' in x + "-" + y && Split(x + "-" + y, '-') == [x] + Split(y, '-')
  {
    var t := x + "-" + y;
    assert t == x + ['-'] + y;
    SplitAfterPiece(x, '-', y);
    assert t[|x|] == '-';
  }

  lemma BadSpanOfPieces(t: string, x: string, y: string)
    requires '-' in t && Split(t, '-') == [x, y]
    requires ParseInt(x).None? || ParseInt(y).None?
    ensures PartOf(t) == None
  {
  }

  lemma EmptyPart(totalPages: int)
    ensures ParseSelector("1,,2", totalPages) == Err(MalformedSelector("1,,2"))
  {
    var s := "1,,2";
    assert |ToLower(s)| == 4;
    assert s == "1" + [','] + ",2";
    assert ",2" == "" + [','] + "2";
    SplitAfterPiece("1", ',', ",2");
    SplitAfterPiece("", ',', "2");
    SplitNoSep("2", ',');
    var raws := Split(s, ',');
    assert raws == ["1", "", "2"];
    StripTrimmed("");
    BlankRefused("");
    assert ParsePart(raws[1]).None?;
    MalformedIffBadPart(s, totalPages, raws);
  }

  lemma NotANumber(totalPages: int)
    ensures ParseSelector("abc", totalPages) == Err(MalformedSelector("abc"))
  {
    OnePart("abc");
    NotANumberPart();
    BadOnlyPart("abc", totalPages);
  }

  lemma NotANumberPart()
    ensures ParsePart("abc") == None
  {
    ForeignRefused("abc", 0);
    BadSinglePart("abc");
  }

  /** A part without a dash is malformed when it is no integer. */
  lemma BadSinglePart(t: string)
    requires Trimmed(t) && '-' !in t && ParseInt(t).None?
    ensures ParsePart(t) == None
  {
    StripTrimmed(t);
  }

  lemma TwoDashes(totalPages: int)
    ensures ParseSelector("1-2-3", totalPages) == Err(MalformedSelector("1-2-3"))
  {
    OnePart("1-2-3");
    TwoDashesPart();
    BadOnlyPart("1-2-3", totalPages);
  }

  lemma TwoDashesPart()
    ensures ParsePart("1-2-3") == None
  {
    assert "2-3"[1] == '-';
    BadSpanPart("1", "2-3");
    assert "1" + "-" + "2-3" == "1-2-3";
  }

  lemma SeparatorInSpan(totalPages: int)
    ensures ParseSelector("1\U{1C}-3", totalPages) == Err(MalformedSelector("1\U{1C}-3"))
  {
    OnePart("1\U{1C}-3");
    SeparatorPart();
    BadOnlyPart("1\U{1C}-3", totalPages);
  }

  lemma SeparatorPart()
    ensures ParsePart("1\U{1C}-3") == None
  {
    InfoSeparatorRefused("1\U{1C}", 1);
    BadSpanPart("1\U{1C}", "3");
    assert "1\U{1C}" + "-" + "3" == "1\U{1C}-3";
  }

  /** A well-formed selector naming only pages past the end of the
      document is the empty-selection error, not an empty result. */
  lemma PastTheEnd()
    ensures ParseSelector("200", 10) == Err(EmptySelection("200", 10))
  {
    var parts := [Single(200)];
    TwoHundredText();
    SelectorTextParses(parts);
    SelectorSemantics("200", 10, parts);
    assert forall p :: Requested(parts, p) ==> p == 199;
  }

  lemma TwoHundredText()
    ensures SelectorText([Single(200)]) == "200" && !SelectsAll("200")
  {
    var parts := [Single(200)];
    assert Decimal(2) == "2" && Decimal(20) == "20" && Decimal(200) == "200";
    var texts := seq(|parts|, i requires 0 <= i < |parts| => PartText(parts[i]));
    assert texts == ["200"];
    assert ToLower("200")[0] == '2';
  }

  /** A spelled-out selector whose parts request exactly the pages of an
      increasing in-bounds list selects that list and skips nothing. */
  lemma KnownSelection(selector: string, parts: seq<Part>, expected: seq<int>, totalPages: int)
    requires |parts| > 0 && SelectorText(parts) == selector && !SelectsAll(selector)
    requires StrictlyIncreasing(expected) && |expected| > 0
    requires forall p :: Requested(parts, p) <==> p in expected
    requires forall p :: p in expected ==> 0 <= p < totalPages
    ensures ParseSelector(selector, totalPages) == Ok(Selection(expected, {}))
  {
    SelectorTextParses(parts);
    SelectorSemantics(selector, totalPages, parts);
    var r := ParseSelector(selector, totalPages);
    assert Requested(parts, expected[0]);
    StrictlyIncreasingUnique(r.value.pages, expected);
    assert r.value.skipped == {};
  }

  /** `list(range(lo, hi))[i]` is `lo + i`. */
  lemma {:induction false} RangeAt(lo: int, hi: int, i: int)
    requires 0 <= i < hi - lo
    ensures Range(lo, hi)[i] == lo + i
    decreases hi - lo
  {
    if i > 0 {
      RangeAt(lo + 1, hi, i - 1);
    }
  }
}
