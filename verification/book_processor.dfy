/** The rest of `LectureProcessor` around the page selector and the batch
    loop: the input-format dispatch and page plan of
    `convert_pages_to_files`, the `pdfinfo` page-count scan, the temporary
    image names, and the output names and report of `process`. */
module BookProcessor {
  import opened Results
  import opened Text
  import opened Ordering
  import opened Batching
  import opened PageRange
  import opened PageRangeProperties
  import opened BookExtraction

  /** The two accepted inputs: slides, which LibreOffice turns into a PDF
      first, and PDF. */
  datatype SourceFormat = Slides | Pdf

  /** The format for a file whose `Path(...).suffix` is `suffix`; an
      unsupported one is the ValueError, which names the lower-cased
      extension. */
  function FormatOf(suffix: string): (r: Result<SourceFormat, string>)
    ensures r == Ok(Pdf) <==> ToLower(suffix) == ".pdf"
    ensures r == Ok(Slides) <==> ToLower(suffix) == ".pptx" || ToLower(suffix) == ".ppt"
    ensures r.Err? ==> r.error == ToLower(suffix)
  {
    var ext := ToLower(suffix);
    if ext == ".pptx" || ext == ".ppt" then Ok(Slides)
    else if ext == ".pdf" then Ok(Pdf)
    else Err(ext)
  }

  /** `Path(path).with_suffix('.pdf')` for a path whose final suffix is
      `suffix` (possibly empty). */
  function WithPdfSuffix(path: string, suffix: string): (r: string)
    requires EndsWith(path, suffix)
    ensures EndsWith(r, ".pdf")
    ensures StartsWith(r, path[..|path| - |suffix|])
  {
    path[..|path| - |suffix|] + ".pdf"
  }

  /** Converting the converted path again changes nothing, and the
      converted path differs from the input exactly when the input's
      suffix was not ".pdf". */
  lemma WithPdfSuffixIdempotent(path: string, suffix: string)
    requires EndsWith(path, suffix)
    ensures WithPdfSuffix(WithPdfSuffix(path, suffix), ".pdf") == WithPdfSuffix(path, suffix)
    ensures WithPdfSuffix(path, suffix) == path <==> suffix == ".pdf"
  {
    var base := path[..|path| - |suffix|];
    var r := WithPdfSuffix(path, suffix);
    assert r[..|r| - 4] == base;
    assert path == base + suffix;
    if r == path {
      assert |suffix| == 4;
      assert suffix == path[|path| - 4..] == r[|r| - 4..];
    }
  }

  /** The dispatch ignores case: a suffix and its lower-case form go the
      same way, and upper-case spellings are accepted. */
  lemma FormatIgnoresCase(suffix: string)
    ensures FormatOf(suffix) == FormatOf(ToLower(suffix))
    ensures FormatOf("").Err?
  {
    ToLowerIdempotent(suffix);
  }

  /** Upper-case spellings of the accepted extensions are accepted. */
  lemma FormatUpperCase()
    ensures FormatOf(".PDF") == Ok(Pdf)
    ensures FormatOf(".PPT") == Ok(Slides)
  {
    assert ToLower(".PDF") == ".pdf";
    assert ToLower(".PPT") == ".ppt";
  }

  // ---------------------------------------------------------------
  // The `pdfinfo` fallback of `get_pdf_page_count`
  // ---------------------------------------------------------------

  datatype InfoError =
    /** No line starts with "Pages:": the RuntimeError. */
    | NoPagesLine
    /** The text after the colon is not an integer: `int()`'s ValueError. */
    | BadPageCount(field: string)

  predicate IsPagesLine(line: string) {
    StartsWith(line, "Pages:")
  }

  predicate HasPagesLine(lines: seq<string>) {
    exists j :: 0 <= j < |lines| && IsPagesLine(lines[j])
  }

  /** The position of the first line that starts with "Pages:". */
  function FirstPagesLine(lines: seq<string>): (r: Option<nat>)
    ensures r.None? <==> !HasPagesLine(lines)
    ensures r.Some? ==> r.value < |lines| && IsPagesLine(lines[r.value])
    ensures r.Some? ==> forall j :: 0 <= j < r.value ==> !IsPagesLine(lines[j])
  {
    if |lines| == 0 then None
    else if IsPagesLine(lines[0]) then Some(0)
    else
      match FirstPagesLine(lines[1..])
      case None => None
      case Some(i) => Some(i + 1)
  }

  /** `line.split(':')[1]` of a line that starts with "Pages:": there is
      always a second piece, the text between the first and second colon. */
  function CountField(line: string): string
    requires IsPagesLine(line)
  {
    assert line[5] == ':' by {
      assert line[..6] == "Pages:";
    }
    SplitAtSeparator(line, ':');
    Split(line, ':')[1]
  }

  /** The page count read from `pdfinfo`'s output: the integer after the
      colon of the first "Pages:" line. */
  function PageCountFromInfo(stdout: string): (r: Result<int, InfoError>)
    ensures r == Err(NoPagesLine) <==> !HasPagesLine(Split(stdout, '\n'))
    ensures HasPagesLine(Split(stdout, '\n')) ==>
      var lines := Split(stdout, '\n');
      var field := CountField(lines[FirstPagesLine(lines).value]);
      && (r == Err(BadPageCount(field)) <==> ParseInt(Strip(field)).None?)
      && (r.Ok? ==> Some(r.value) == ParseInt(Strip(field)))
  {
    var lines := Split(stdout, '\n');
    match FirstPagesLine(lines)
    case None => Err(NoPagesLine)
    case Some(i) =>
      assert IsPagesLine(lines[i]);
      var field := CountField(lines[i]);
      match ParseInt(Strip(field))
      case None => Err(BadPageCount(field))
      case Some(n) => Ok(n)
  }

  /** A report whose first "Pages:" line carries `str(n)`, after any
      padding, gives `n` back. */
  lemma PageCountOfInfo(before: seq<string>, pad: string, n: int, after: seq<string>)
    requires forall j :: 0 <= j < |before| ==> '\n' !in before[j] && !IsPagesLine(before[j])
    requires forall j :: 0 <= j < |after| ==> '\n' !in after[j]
    requires AllSpace(pad) && '\n' !in pad && ':' !in pad
    ensures PageCountFromInfo(Join(before + ["Pages:" + pad + IntToString(n)] + after, '\n')) == Ok(n)
  {
    var line := "Pages:" + pad + IntToString(n);
    var lines := before + [line] + after;
    NumberLine(pad, n);
    LinesWithoutBreaks(before, line, after);
    SplitJoin(lines, '\n');
    FirstAfter(before, line, after);
    assert lines[|before|] == line;
    IntToStringParses(n);
    StripPadded(pad, IntToString(n), "");
    assert pad + IntToString(n) + "" == pad + IntToString(n);
  }

  lemma LinesWithoutBreaks(before: seq<string>, line: string, after: seq<string>)
    requires forall j :: 0 <= j < |before| ==> '\n' !in before[j]
    requires forall j :: 0 <= j < |after| ==> '\n' !in after[j]
    requires '\n' !in line
    ensures |before + [line] + after| > 0
    ensures forall j :: 0 <= j < |before + [line] + after| ==> '\n' !in (before + [line] + after)[j]
  {
    var lines := before + [line] + after;
    forall j | 0 <= j < |lines|
      ensures '\n' !in lines[j]
    {
      if j < |before| {
        assert lines[j] == before[j];
      } else if j > |before| {
        assert lines[j] == after[j - |before| - 1];
      }
    }
  }

  /** The "Pages:" line splits on ':' into its name and its padded number. */
  lemma NumberLine(pad: string, n: int)
    requires AllSpace(pad) && '\n' !in pad && ':' !in pad
    ensures IsPagesLine("Pages:" + pad + IntToString(n))
    ensures '\n' !in "Pages:" + pad + IntToString(n)
    ensures CountField("Pages:" + pad + IntToString(n)) == pad + IntToString(n)
  {
    var line := "Pages:" + pad + IntToString(n);
    var field := pad + IntToString(n);
    IntToStringChars(n);
    assert line == "Pages" + [':'] + field;
    assert ':' !in field && '\n' !in field by {
      forall i | 0 <= i < |field|
        ensures field[i] != ':' && field[i] != '\n'
      {
        if i >= |pad| {
          assert field[i] == IntToString(n)[i - |pad|];
        }
      }
    }
    assert line[..6] == "Pages:";
    SplitAfterPiece("Pages", ':', field);
    SplitNoSep(field, ':');
  }

  lemma FirstAfter(before: seq<string>, line: string, after: seq<string>)
    requires forall j :: 0 <= j < |before| ==> !IsPagesLine(before[j])
    requires IsPagesLine(line)
    ensures FirstPagesLine(before + [line] + after) == Some(|before|)
  {
    var lines := before + [line] + after;
    assert lines[|before|] == line;
    var r := FirstPagesLine(lines);
    assert r.Some?;
  }

  // ---------------------------------------------------------------
  // `convert_pages_to_files`
  // ---------------------------------------------------------------

  /** `selected_indices`: `if page_range:` sends a missing or empty
      selector to "every page", anything else to `parse_page_range`. */
  function Plan(selector: Option<string>, totalPages: int): (r: Result<seq<int>, SelectorError>)
    ensures r.Ok? ==> StrictlyIncreasing(r.value)
    ensures r.Ok? ==> forall p :: p in r.value ==> 0 <= p < totalPages
    ensures (selector.None? || selector == Some("")) ==> r == Ok(Range(0, totalPages))
  {
    if selector.Some? && |selector.value| > 0 then
      match ParseSelector(selector.value, totalPages)
      case Ok(selection) => Ok(selection.pages)
      case Err(e) => Err(e)
    else Ok(Range(0, totalPages))
  }

  /** The `if page_range:` guard changes nothing: the parser itself sends
      the empty selector to every page, so the plan is always the parser's
      answer for the selector, or for "" when there is none. */
  lemma PlanIsParser(selector: Option<string>, totalPages: int)
    ensures Plan(selector, totalPages)
         == (match ParseSelector(if selector.Some? then selector.value else "", totalPages)
             case Ok(selection) => Ok(selection.pages)
             case Err(e) => Err(e))
  {
  }

  /** For a selector other than "all" whose parts parse, the plan is the
      requested pages inside the document, or the empty-selection error
      when there are none. */
  lemma PlanSelects(selector: string, totalPages: int, parts: seq<Part>)
    requires !SelectsAll(selector)
    requires ParseParts(Split(selector, ',')) == Some(parts)
    ensures Plan(Some(selector), totalPages).Ok?
        <==> exists p :: Requested(parts, p) && 0 <= p < totalPages
    ensures Plan(Some(selector), totalPages).Ok? ==>
      forall p :: p in Plan(Some(selector), totalPages).value <==> Requested(parts, p) && 0 <= p < totalPages
    ensures Plan(Some(selector), totalPages).Err? ==>
      Plan(Some(selector), totalPages).error == EmptySelection(selector, totalPages)
  {
    SelectorSemantics(selector, totalPages, parts);
  }

  /** `f"temp_page_{idx + 1}.png"`. */
  function TempName(index: int): string {
    "temp_page_" + IntToString(index + 1) + ".png"
  }

  /** The temporary image of each selected page, in plan order. */
  function TempNames(indices: seq<int>): (r: seq<string>)
    ensures |r| == |indices|
    ensures forall i :: 0 <= i < |r| ==> r[i] == TempName(indices[i])
  {
    seq(|indices|, i requires 0 <= i < |indices| => TempName(indices[i]))
  }

  /** Different pages get different temporary files. */
  lemma TempNameInjective(a: int, b: int)
    requires TempName(a) == TempName(b)
    ensures a == b
  {
    NumberedNameInjective("temp_page_", a + 1, b + 1, ".png");
  }

  /** A plan without repeats names each temporary file once, so the
      cleanup loop has one file per page to remove. */
  lemma TempNamesDistinct(indices: seq<int>)
    requires StrictlyIncreasing(indices)
    ensures forall i, j :: 0 <= i < j < |indices| ==> TempNames(indices)[i] != TempNames(indices)[j]
  {
    forall i, j | 0 <= i < j < |indices|
      ensures TempNames(indices)[i] != TempNames(indices)[j]
    {
      if TempNames(indices)[i] == TempNames(indices)[j] {
        TempNameInjective(indices[i], indices[j]);
      }
    }
  }

  datatype ProcessError =
    | UnsupportedFormat(ext: string)
    | BadSelector(selectorError: SelectorError)
    | ExtractFailed(extractError: ExtractError)

  /** What `convert_pages_to_files` hands on: the temporary images and the
      selected page indices, position by position. */
  datatype Converted = Converted(temps: seq<string>, indices: seq<int>)

  function ConvertPages(suffix: string, selector: Option<string>, totalPages: int)
    : (r: Result<Converted, ProcessError>)
    ensures FormatOf(suffix).Err? ==> r == Err(UnsupportedFormat(ToLower(suffix)))
    ensures r.Ok? ==> FormatOf(suffix).Ok? && Plan(selector, totalPages) == Ok(r.value.indices)
    ensures r.Ok? ==> r.value.temps == TempNames(r.value.indices)
    ensures r.Err? && FormatOf(suffix).Ok? ==>
      Plan(selector, totalPages).Err? && r == Err(BadSelector(Plan(selector, totalPages).error))
  {
    match FormatOf(suffix)
    case Err(ext) => Err(UnsupportedFormat(ext))
    case Ok(_) =>
      match Plan(selector, totalPages)
      case Err(e) => Err(BadSelector(e))
      case Ok(indices) => Ok(Converted(TempNames(indices), indices))
  }

  // ---------------------------------------------------------------
  // Output names and the report of `process`
  // ---------------------------------------------------------------

  /** `page_range.replace(',', '_').replace('-', 'to')`. */
  function CleanSelector(selector: string): (r: string)
    ensures ',' !in r && '-' !in r
  {
    ReplaceChar(ReplaceChar(selector, ',', "_"), '-', "to")
  }

  /** The base name of the outputs: the stem, and, when a selector is
      given, "_pages_" and the cleaned selector. */
  function OutputBase(stem: string, selector: Option<string>): (r: string)
    ensures (selector.None? || selector == Some("")) ==> r == stem
    ensures selector.Some? && |selector.value| > 0 ==> StartsWith(r, stem + "_pages_")
  {
    if selector.Some? && |selector.value| > 0 then stem + "_pages_" + CleanSelector(selector.value)
    else stem
  }

  /** The cleaning, character by character. */
  function CleanChars(s: string): string {
    if |s| == 0 then ""
    else (if s[0] == ',' then "_" else if s[0] == '-' then "to" else [s[0]]) + CleanChars(s[1..])
  }

  lemma {:induction false} CleanSelectorChars(s: string)
    ensures CleanSelector(s) == CleanChars(s)
    decreases |s|
  {
    if |s| > 0 {
      var first := if s[0] == ',' then "_" else [s[0]];
      assert ReplaceChar(s, ',', "_") == first + ReplaceChar(s[1..], ',', "_");
      ReplaceCharAppend(first, ReplaceChar(s[1..], ',', "_"), '-', "to");
      CleanSelectorChars(s[1..]);
      assert ReplaceChar(first, '-', "to")
          == (if s[0] == ',' then "_" else if s[0] == '-' then "to" else [s[0]]);
    }
  }

  /** Reading a cleaned selector back: "_" was a comma and "to" a dash. */
  function Unclean(c: string): string
    decreases |c|
  {
    if |c| == 0 then ""
    else if c[0] == '_' then "," + Unclean(c[1..])
    else if |c| >= 2 && c[0] == 't' && c[1] == 'o' then "-" + Unclean(c[2..])
    else [c[0]] + Unclean(c[1..])
  }

  /** A selector with no '_' or 't' of its own, such as any made of
      digits, commas, dashes and spaces. */
  predicate Unambiguous(selector: string) {
    forall i :: 0 <= i < |selector| ==> selector[i] != '_' && selector[i] != 't'
  }

  /** Cleaning loses nothing for such a selector. */
  lemma {:induction false} UncleanClean(s: string)
    requires Unambiguous(s)
    ensures Unclean(CleanSelector(s)) == s
  {
    CleanSelectorChars(s);
    UncleanChars(s);
  }

  lemma {:induction false} UncleanChars(s: string)
    requires Unambiguous(s)
    ensures Unclean(CleanChars(s)) == s
    decreases |s|
  {
    if |s| > 0 {
      var rest := CleanChars(s[1..]);
      UncleanChars(s[1..]);
      var c := CleanChars(s);
      if s[0] == ',' {
        assert c == "_" + rest && c[1..] == rest;
      } else if s[0] == '-' {
        assert c == "to" + rest && c[2..] == rest;
      } else {
        assert c == [s[0]] + rest && c[1..] == rest;
      }
      assert s == [s[0]] + s[1..];
    }
  }

  /** Two unambiguous selectors that give the same output names are the
      same selector. */
  lemma OutputBaseInjective(stem: string, s1: string, s2: string)
    requires |s1| > 0 && |s2| > 0 && Unambiguous(s1) && Unambiguous(s2)
    requires OutputBase(stem, Some(s1)) == OutputBase(stem, Some(s2))
    ensures s1 == s2
  {
    var prefix := stem + "_pages_";
    assert OutputBase(stem, Some(s1))[|prefix|..] == CleanSelector(s1);
    assert OutputBase(stem, Some(s2))[|prefix|..] == CleanSelector(s2);
    UncleanClean(s1);
    UncleanClean(s2);
  }

  /** "all" selects every page, yet still renames the outputs, and
      "1-3,7" reads as "1to3_7". */
  lemma OutputBaseExamples(stem: string)
    ensures OutputBase(stem, Some("all")) == stem + "_pages_all"
    ensures OutputBase(stem, Some("1-3,7")) == stem + "_pages_1to3_7"
  {
    CleanSelectorChars("all");
    CleanSelectorChars("1-3,7");
    CleanCharsExamples();
    Renamed(stem, "all", "all");
    Renamed(stem, "1-3,7", "1to3_7");
    LiteralJoins();
  }

  lemma LiteralJoins()
    ensures "_pages_" + "all" == "_pages_all"
    ensures "_pages_" + "1to3_7" == "_pages_1to3_7"
  {
  }

  lemma Renamed(stem: string, selector: string, cleaned: string)
    requires |selector| > 0 && CleanSelector(selector) == cleaned
    ensures OutputBase(stem, Some(selector)) == stem + ("_pages_" + cleaned)
  {
  }

  lemma CleanCharsExamples()
    ensures CleanChars("all") == "all"
    ensures CleanChars("1-3,7") == "1to3_7"
  {
    assert "all"[1..] == "ll" && "ll"[1..] == "l" && "l"[1..] == "";
    var s := "1-3,7";
    assert s[1..] == "-3,7" && s[2..] == "3,7" && s[3..] == ",7" && s[4..] == "7" && s[5..] == "";
  }

  datatype Outputs = Outputs(extracted: string, summary: string, qa: string)

  /** `os.path.join(output_dir, f"{base_name}_extracted.txt")` and its two
      siblings, with the join written as `dir + "/" + name`. */
  function OutputPaths(dir: string, base: string): (r: Outputs)
    ensures r.extracted != r.summary && r.summary != r.qa && r.extracted != r.qa
    ensures StartsWith(r.extracted, dir + "/" + base) && EndsWith(r.extracted, "_extracted.txt")
    ensures StartsWith(r.summary, dir + "/" + base) && EndsWith(r.summary, "_summary.txt")
    ensures StartsWith(r.qa, dir + "/" + base) && EndsWith(r.qa, "_qa.txt")
    ensures r.extracted[..|r.extracted| - |"_extracted.txt"|] == dir + "/" + base
    ensures r.summary[..|r.summary| - |"_summary.txt"|] == dir + "/" + base
    ensures r.qa[..|r.qa| - |"_qa.txt"|] == dir + "/" + base
  {
    var stem := dir + "/" + base;
    Outputs(stem + "_extracted.txt", stem + "_summary.txt", stem + "_qa.txt")
  }

  /** The result dictionary of `process`. */
  datatype Report = Report(
    sourceFile: string,
    pageRange: Option<string>,
    pagesProcessed: seq<int>,
    totalPages: nat,
    paths: Outputs,
    title: Option<string>)

  /** `[i + 1 for i in page_indices]`: the selected pages, one-based. */
  function PagesProcessed(indices: seq<int>): (r: seq<int>)
    ensures |r| == |indices|
    ensures forall i :: 0 <= i < |r| ==> r[i] == indices[i] + 1
  {
    seq(|indices|, i requires 0 <= i < |indices| => indices[i] + 1)
  }

  /** Shifting by one keeps the plan's order and moves its bounds to
      `1..total_pages`. */
  lemma PagesProcessedRange(indices: seq<int>, totalPages: int)
    requires StrictlyIncreasing(indices)
    requires forall p :: p in indices ==> 0 <= p < totalPages
    ensures StrictlyIncreasing(PagesProcessed(indices))
    ensures forall q :: q in PagesProcessed(indices) <==> q - 1 in indices
    ensures forall q :: q in PagesProcessed(indices) ==> 1 <= q <= totalPages
  {
    var r := PagesProcessed(indices);
    forall q | q in r
      ensures q - 1 in indices
    {
      var i :| 0 <= i < |r| && r[i] == q;
    }
    forall q | q - 1 in indices
      ensures q in r
    {
      var i :| 0 <= i < |indices| && indices[i] == q - 1;
      assert r[i] == q;
    }
  }

  /** The outcome of `process`, and the files that exist afterwards. */
  datatype ProcessRun = ProcessRun(outcome: Result<Report, ProcessError>, remaining: set<string>)

  /** The files once the input is a PDF: slides gain the PDF LibreOffice
      writes beside them, `Path(path).with_suffix('.pdf')`, before the page
      count and the selector are looked at; nothing removes it. */
  function WithConverted(path: string, suffix: string, files: set<string>): set<string>
    requires EndsWith(path, suffix)
  {
    if FormatOf(suffix) == Ok(Slides) then files + {WithPdfSuffix(path, suffix)} else files
  }

  /** `process(file_path, page_range, output_dir, title)`: the file's stem
      and suffix, the document's page count, the batch size and the OCR
      are given; the summary and Q&A calls are not modelled, only the
      three files they are written to. */
  function Process(path: string, stem: string, suffix: string, selector: Option<string>,
                   outputDir: string, title: Option<string>, totalPages: int, batchSize: int,
                   ocr: seq<string> -> Option<string>, files: set<string>): (r: ProcessRun)
    requires EndsWith(path, suffix)
    ensures FormatOf(suffix).Err? ==> r == ProcessRun(Err(UnsupportedFormat(ToLower(suffix))), files)
    ensures FormatOf(suffix).Ok? && ConvertPages(suffix, selector, totalPages).Err? ==>
      && Plan(selector, totalPages).Err?
      && r == ProcessRun(Err(BadSelector(Plan(selector, totalPages).error)), WithConverted(path, suffix, files))
    ensures r.outcome.Ok? ==> r.outcome.value.totalPages == |r.outcome.value.pagesProcessed|
    ensures r.outcome.Ok? ==> Plan(selector, totalPages).Ok?
    ensures r.outcome.Ok? ==> r.outcome.value.pagesProcessed == PagesProcessed(Plan(selector, totalPages).value)
    ensures ConvertPages(suffix, selector, totalPages).Ok? ==>
      var c := ConvertPages(suffix, selector, totalPages).value;
      var run := Extract(c.temps, c.indices, batchSize, ocr, WithConverted(path, suffix, files) + set t | t in c.temps);
      && (r.outcome.Ok? <==> run.outcome.Ok?)
      && (r.outcome.Err? ==> r == ProcessRun(Err(ExtractFailed(run.outcome.error)), run.remaining))
      && (r.outcome.Ok? ==> r.remaining == run.remaining + {r.outcome.value.paths.extracted, r.outcome.value.paths.summary, r.outcome.value.paths.qa})
    ensures r.outcome.Ok? ==> r.outcome.value.paths == OutputPaths(outputDir, OutputBase(stem, selector))
    ensures r.outcome.Ok? ==>
      r.outcome.value.sourceFile == path && r.outcome.value.pageRange == selector && r.outcome.value.title == title
  {
    match ConvertPages(suffix, selector, totalPages)
    case Err(e) =>
      ProcessRun(Err(e), if FormatOf(suffix).Err? then files else WithConverted(path, suffix, files))
    case Ok(converted) =>
      var created := WithConverted(path, suffix, files) + set t | t in converted.temps;
      var run := Extract(converted.temps, converted.indices, batchSize, ocr, created);
      match run.outcome
      case Err(e) => ProcessRun(Err(ExtractFailed(e)), run.remaining)
      case Ok(_) =>
        var paths := OutputPaths(outputDir, OutputBase(stem, selector));
        var pages := PagesProcessed(converted.indices);
        ProcessRun(
          Ok(Report(path, selector, pages, |converted.indices|, paths, title)),
          run.remaining + {paths.extracted, paths.summary, paths.qa})
  }

  /** A successful run leaves none of its temporary images behind, only
      the files that were there before, the PDF converted from slides and
      the three outputs it reports; a failed extraction leaves every
      temporary image behind. */
  lemma ProcessFiles(path: string, stem: string, suffix: string, selector: Option<string>,
                     outputDir: string, title: Option<string>, totalPages: int, batchSize: int,
                     ocr: seq<string> -> Option<string>, files: set<string>)
    requires EndsWith(path, suffix) && ConvertPages(suffix, selector, totalPages).Ok?
    ensures var r := Process(path, stem, suffix, selector, outputDir, title, totalPages, batchSize, ocr, files);
            var temps := ConvertPages(suffix, selector, totalPages).value.temps;
            var before := WithConverted(path, suffix, files);
            && (r.outcome.Ok? ==> forall t :: t in temps ==> t !in r.remaining)
            && (r.outcome.Ok? ==> forall f :: f in before && f !in temps ==> f in r.remaining)
            && (r.outcome.Err? ==> r.remaining == before + set t | t in temps)
            && (r.outcome.Ok? ==>
                  var p := r.outcome.value.paths;
                  r.remaining == (before - set t | t in temps) + {p.extracted, p.summary, p.qa})
  {
    var converted := ConvertPages(suffix, selector, totalPages).value;
    var before := WithConverted(path, suffix, files);
    var created := before + set t | t in converted.temps;
    var run := Extract(converted.temps, converted.indices, batchSize, ocr, created);
    var paths := OutputPaths(outputDir, OutputBase(stem, selector));
    var r := Process(path, stem, suffix, selector, outputDir, title, totalPages, batchSize, ocr, files);
    if run.outcome.Ok? {
      assert r.remaining == run.remaining + {paths.extracted, paths.summary, paths.qa};
      KeptAndRemoved(before, converted, run.remaining, paths);
      assert run.remaining == before - set t | t in converted.temps;
    } else {
      assert r.remaining == run.remaining;
    }
  }

  /** The PDF converted from slides outlives every run that gets past the
      format dispatch, however the run ends. */
  lemma ConvertedPdfStays(path: string, stem: string, suffix: string, selector: Option<string>,
                          outputDir: string, title: Option<string>, totalPages: int, batchSize: int,
                          ocr: seq<string> -> Option<string>, files: set<string>)
    requires EndsWith(path, suffix) && FormatOf(suffix) == Ok(Slides)
    ensures WithPdfSuffix(path, suffix) in
      Process(path, stem, suffix, selector, outputDir, title, totalPages, batchSize, ocr, files).remaining
  {
    var pdf := WithPdfSuffix(path, suffix);
    var converted := ConvertPages(suffix, selector, totalPages);
    if converted.Ok? {
      ProcessFiles(path, stem, suffix, selector, outputDir, title, totalPages, batchSize, ocr, files);
      forall i | 0 <= i < |converted.value.temps|
        ensures converted.value.temps[i] != pdf
      {
        NotATemp(converted.value.indices[i], pdf);
      }
    }
  }

  /** A temporary image ends in ".png", the converted PDF in ".pdf". */
  lemma NotATemp(index: int, pdf: string)
    requires EndsWith(pdf, ".pdf")
    ensures TempName(index) != pdf
  {
    var t := TempName(index);
    assert t[|t| - 1] == 'g';
    assert pdf[|pdf| - 1] == ".pdf"[3];
  }

  lemma KeptAndRemoved(files: set<string>, converted: Converted, remaining: set<string>, paths: Outputs)
    requires converted.temps == TempNames(converted.indices)
    requires forall f :: f in remaining <==> (f in files || f in converted.temps) && f !in converted.temps
    requires EndsWith(paths.extracted, "_extracted.txt")
    requires EndsWith(paths.summary, "_summary.txt")
    requires EndsWith(paths.qa, "_qa.txt")
    ensures forall t :: t in converted.temps ==> t !in remaining + {paths.extracted, paths.summary, paths.qa}
    ensures forall f :: f in files && f !in converted.temps ==> f in remaining + {paths.extracted, paths.summary, paths.qa}
  {
    forall t | t in converted.temps
      ensures t !in {paths.extracted, paths.summary, paths.qa}
    {
      var i :| 0 <= i < |converted.temps| && converted.temps[i] == t;
      NotAnOutput(converted.indices[i], paths);
    }
  }

  /** A temporary image ends in ".png" and every output in ".txt". */
  lemma NotAnOutput(index: int, paths: Outputs)
    requires EndsWith(paths.extracted, "_extracted.txt")
    requires EndsWith(paths.summary, "_summary.txt")
    requires EndsWith(paths.qa, "_qa.txt")
    ensures TempName(index) !in {paths.extracted, paths.summary, paths.qa}
  {
    var t := TempName(index);
    assert t[|t| - 1] == 'g';
    assert paths.extracted[|paths.extracted| - 1] == "_extracted.txt"[13];
    assert paths.summary[|paths.summary| - 1] == "_summary.txt"[11];
    assert paths.qa[|paths.qa| - 1] == "_qa.txt"[6];
  }
}
