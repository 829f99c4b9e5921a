/** `Lecture_notes.py`: the stand-alone script that rasterises one
    lecture, saves every page as `page_{n}.png`, and sends the images to
    the OCR model `BATCH_SIZE` at a time, labelling each answer
    "Pages i+1 to i+len" by list position. */
module LectureNotes {
  import opened Results
  import opened Text
  import opened Batching
  import opened Sections
  import opened PageRange
  import opened PageRangeProperties
  import opened BookExtraction
  import opened BookProcessor

  /** `BATCH_SIZE`. */
  const BatchSize: nat := 3

  /** `process_file`'s dispatch: ".pdf" is matched first, then the slide
      formats; anything else is the ValueError naming the lower-cased
      extension. */
  function FileFormat(suffix: string): (r: Result<SourceFormat, string>)
    ensures r.Ok? <==> ToLower(suffix) in [".pdf", ".pptx", ".ppt"]
    ensures r.Err? ==> r.error == ToLower(suffix)
  {
    var ext := ToLower(suffix);
    if ext == ".pdf" then Ok(Pdf)
    else if ext == ".pptx" || ext == ".ppt" then Ok(Slides)
    else Err(ext)
  }

  /** The script and the class test the extensions in a different order
      but dispatch every suffix the same way. */
  lemma SameDispatch(suffix: string)
    ensures FileFormat(suffix) == FormatOf(suffix)
    ensures FileFormat(suffix) == FileFormat(ToLower(suffix))
  {
    FormatIgnoresCase(suffix);
  }

  /** `f"page_{i+1}.png"`, the file page `i` (zero-based) is saved to. */
  function PageImageName(i: int): string {
    "page_" + IntToString(i + 1) + ".png"
  }

  /** The files the `enumerate(pages)` loop saves, in page order. */
  function PageImageNames(n: nat): (r: seq<string>)
    ensures |r| == n
    ensures forall i :: 0 <= i < n ==> r[i] == PageImageName(i)
  {
    seq(n, i requires 0 <= i < n => PageImageName(i))
  }

  /** Every page gets its own file. */
  lemma PageImageNamesDistinct(n: nat)
    ensures forall i, j :: 0 <= i < j < n ==> PageImageNames(n)[i] != PageImageNames(n)[j]
  {
    forall i, j | 0 <= i < j < n
      ensures PageImageNames(n)[i] != PageImageNames(n)[j]
    {
      if PageImageNames(n)[i] == PageImageNames(n)[j] {
        NumberedNameInjective("page_", i + 1, j + 1, ".png");
      }
    }
  }

  /** The module-level batch loop over `n` saved pages: `batch_files` is
      built from the page numbers `j` in `range(i, min(i + BATCH_SIZE,
      n))`, and each answer is appended under "Pages {i+1} to
      {i+len(batch_files)}". */
  method LectureText(n: nat, ocr: seq<string> -> string) returns (allText: string)
    ensures allText == PositionalText("Pages", ocr, Chunks(PageImageNames(n), BatchSize))
  {
    ghost var xs := PageImageNames(n);
    allText := "";
    var i := 0;
    assert xs[0..] == xs;
    while i < n
      invariant 0 <= i <= n
      invariant PositionalText("Pages", ocr, Chunks(xs, BatchSize))
             == allText + Concat(MapBatches(Sectioner("Pages", ocr), Chunks(xs[i..], BatchSize), i))
      decreases n - i
    {
      var stop := Min(i + BatchSize, n);
      var batchFiles := PageNamesFrom(i, stop);
      PageNamesSlice(n, i, stop);
      var extracted := ocr(batchFiles);
      var section := Section(SpanLabel("Pages", i + 1, i + |batchFiles|), extracted);
      ConcatBatchesFrom(Sectioner("Pages", ocr), xs, BatchSize, i);
      assert Sectioner("Pages", ocr)(i, batchFiles) == section;
      ghost var rest := Concat(MapBatches(Sectioner("Pages", ocr), Chunks(xs[stop..], BatchSize), stop));
      AppendAssoc(allText, section, rest);
      allText := allText + section;
      i := stop;
    }
    assert xs[n..] == [];
  }

  /** Batch `j` holds the files of pages `3j+1 .. min(3j+3, n)`, in order,
      and the batches together are every page file once, in order. */
  lemma LectureBatches(n: nat, j: nat)
    requires j < CeilDiv(n, BatchSize)
    ensures Flatten(Chunks(PageImageNames(n), BatchSize)) == PageImageNames(n)
    ensures j * BatchSize < Min(j * BatchSize + BatchSize, n)
    ensures Chunks(PageImageNames(n), BatchSize)[j]
         == PageNamesFrom(j * BatchSize, Min(j * BatchSize + BatchSize, n))
  {
    var xs := PageImageNames(n);
    ChunksPartition(xs, BatchSize);
    ChunkAt(xs, BatchSize, j);
    PageNamesSlice(n, j * BatchSize, Min(j * BatchSize + BatchSize, n));
  }

  /** The files of the zero-based pages `lo .. hi-1`, as the script's list
      comprehension builds them. */
  function PageNamesFrom(lo: nat, hi: nat): (r: seq<string>)
    requires lo <= hi
    ensures |r| == hi - lo
  {
    seq(hi - lo, t requires 0 <= t < hi - lo => PageImageName(lo + t))
  }

  lemma PageNamesSlice(n: nat, lo: nat, hi: nat)
    requires lo <= hi <= n
    ensures PageImageNames(n)[lo .. hi] == PageNamesFrom(lo, hi)
  {
  }

  /** The OCR of the script, which never fails, as the class sees it. */
  function Lifted(ocr: seq<string> -> string): seq<string> -> Option<string> {
    (batch: seq<string>) => Some(ocr(batch))
  }

  /** A one-page batch is "Page n" in the class but "Pages n to n" in the
      script; a run of consecutive pages longer than one gets the same
      label from both. */
  lemma LabelsOfRuns(first: nat, len: nat)
    requires len > 0
    ensures len == 1 ==> PageLabel(Range(first, first + len)) != SpanLabel("Pages", first + 1, first + len)
    ensures len > 1 ==> PageLabel(Range(first, first + len)) == SpanLabel("Pages", first + 1, first + len)
  {
    var run := Range(first, first + len);
    RangeAt(first, first + len, 0);
    RangeAt(first, first + len, len - 1);
    if len == 1 {
      SingleDiffers(run);
    } else {
      RunAgrees(run, first + 1, first + len);
    }
  }

  lemma SingleDiffers(run: seq<int>)
    requires |run| == 1
    ensures PageLabel(run) != SpanLabel("Pages", run[0] + 1, run[0] + 1)
  {
    PageLabelForm(run);
    PluralLabel(run[0] + 1, run[0] + 1);
  }

  lemma RunAgrees(run: seq<int>, first: int, last: int)
    requires |run| > 1 && run[0] + 1 == first && run[|run| - 1] + 1 == last
    ensures PageLabel(run) == SpanLabel("Pages", first, last)
  {
  }

  /** On a whole document whose page count is not one more than a multiple
      of three, the class with a batch size of three and the script give
      the same text. */
  lemma ScriptAgreesWithClass(n: nat, ocr: seq<string> -> string, files: set<string>)
    requires n % 3 != 1
    ensures Extract(PageImageNames(n), Range(0, n), BatchSize, Lifted(ocr), files).outcome
         == Ok(PositionalText("Pages", ocr, Chunks(PageImageNames(n), BatchSize)))
  {
    var names := PageImageNames(n);
    var indices := Range(0, n);
    assert indices[..n] == indices;
    ExtractMatched(names, indices, BatchSize, Lifted(ocr), files);
    var matched := MatchedSections(names, indices, BatchSize, Lifted(ocr));
    var script := MapBatches(Sectioner("Pages", ocr), Chunks(names, BatchSize), 0);
    forall j | 0 <= j < |script|
      ensures matched[j] == script[j]
    {
      SameSection(n, ocr, j);
    }
    assert matched == script;
  }

  /** Batch `j` of a whole document gets the same section from the class
      and from the script when it holds more than one page. */
  lemma SameSection(n: nat, ocr: seq<string> -> string, j: nat)
    requires n % 3 != 1 && j < CeilDiv(n, BatchSize)
    ensures MatchedSections(PageImageNames(n), Range(0, n), BatchSize, Lifted(ocr))[j]
         == MapBatches(Sectioner("Pages", ocr), Chunks(PageImageNames(n), BatchSize), 0)[j]
  {
    var names := PageImageNames(n);
    ChunkAt(names, BatchSize, j);
    PositionalSectionAt("Pages", ocr, names, BatchSize, j);
    ClassLabel(n, j);
    MatchedAt(names, Range(0, n), BatchSize, Lifted(ocr), j);
    assert Lifted(ocr)(Chunks(names, BatchSize)[j]) == Some(ocr(Chunks(names, BatchSize)[j]));
  }

  /** The class labels batch `j` of a whole document "Pages 3j+1 to
      min(3j+3, n)" when it holds more than one page. */
  lemma ClassLabel(n: nat, j: nat)
    requires n % 3 != 1 && j < CeilDiv(n, BatchSize)
    ensures |Chunks(Range(0, n)[..n], BatchSize)[j]| > 0
    ensures PageLabel(Chunks(Range(0, n)[..n], BatchSize)[j])
         == SpanLabel("Pages", j * BatchSize + 1, Min(j * BatchSize + BatchSize, n))
  {
    var start := j * BatchSize;
    var stop := Min(start + BatchSize, n);
    assert Range(0, n)[..n] == Range(0, n);
    ChunkAt(Range(0, n), BatchSize, j);
    LastBatchLong(n, j);
    RangeSlice(n, start, stop);
    LabelsOfRuns(start, stop - start);
  }

  /** Only a page count one more than a multiple of three leaves a
      one-page batch. */
  lemma LastBatchLong(n: nat, j: nat)
    requires n % 3 != 1 && j < CeilDiv(n, BatchSize)
    ensures Min(j * BatchSize + BatchSize, n) - j * BatchSize > 1
  {
    CeilDivIsCeiling(n, BatchSize);
    if j * 3 + 3 > n {
      assert n - j * 3 != 1;
    }
  }

  lemma RangeSlice(n: nat, start: nat, stop: nat)
    requires start <= stop <= n
    ensures Range(0, n)[start .. stop] == Range(start, stop)
  {
    var a := Range(0, n)[start .. stop];
    var b := Range(start, stop);
    forall i | 0 <= i < stop - start
      ensures a[i] == b[i]
    {
      RangeAt(0, n, start + i);
      RangeAt(start, stop, i);
    }
  }

  /** A one-page document: the class writes "Page 1" where the script
      writes "Pages 1 to 1". */
  lemma OnePageDiffers(ocr: seq<string> -> string, files: set<string>)
    ensures Extract(PageImageNames(1), Range(0, 1), BatchSize, Lifted(ocr), files).outcome
         != Ok(PositionalText("Pages", ocr, Chunks(PageImageNames(1), BatchSize)))
  {
    var names := PageImageNames(1);
    var indices := Range(0, 1);
    assert indices[..1] == indices;
    ExtractMatched(names, indices, BatchSize, Lifted(ocr), files);
    ChunkAt(indices, BatchSize, 0);
    ChunkAt(names, BatchSize, 0);
    PositionalSectionAt("Pages", ocr, names, BatchSize, 0);
    LabelsOfRuns(0, 1);
    var matched := MatchedSections(names, indices, BatchSize, Lifted(ocr));
    var script := MapBatches(Sectioner("Pages", ocr), Chunks(names, BatchSize), 0);
    assert |matched| == 1 && |script| == 1;
    var body := ocr(names);
    if Section(PageLabel(Range(0, 1)), body) == Section(SpanLabel("Pages", 1, 1), body) {
      SectionInjective(PageLabel(Range(0, 1)), SpanLabel("Pages", 1, 1), body);
    }
    assert Concat(matched) == matched[0] && Concat(script) == script[0];
  }
}
