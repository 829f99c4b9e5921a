/** `LectureProcessor.extract_text_from_files`: the temporary page images
    are sent to the OCR model `batch_size` at a time, each answer is
    appended to the text under a label naming the batch's selected pages,
    and the temporary files are removed once every batch is done. */
module BookExtraction {
  import opened Results
  import opened Text
  import opened Batching
  import opened Sections

  datatype ExtractError =
    /** `range(0, n, 0)` raises ValueError. */
    | ZeroBatchSize
    /** The OCR call for the batch starting at list position `offset` raised. */
    | OcrFailed(offset: nat)
    /** `batch_pages[0]` on an empty list: fewer page indices than files. */
    | NoPageForLabel(offset: nat)

  /** What a call leaves behind: its outcome, and the files that exist
      afterwards. */
  datatype Run = Run(outcome: Result<string, ExtractError>, remaining: set<string>)

  /** The label of a batch whose selected zero-based page indices are
      `pages`: "Page n" for one page, "Pages f to l" otherwise, numbered
      from one. */
  function PageLabel(pages: seq<int>): string
    requires |pages| > 0
  {
    if |pages| > 1 then SpanLabel("Pages", pages[0] + 1, pages[|pages| - 1] + 1)
    else "Page " + IntToString(pages[0] + 1)
  }

  /** The plural form is used exactly when the batch has more than one
      page; a one-page label carries that page's one-based number, and a
      longer one the first and last pages' numbers. */
  lemma PageLabelForm(pages: seq<int>)
    requires |pages| > 0
    ensures StartsWith(PageLabel(pages), "Pages ") <==> |pages| > 1
    ensures |pages| == 1 ==> ParseInt(PageLabel(pages)[5..]) == Some(pages[0] + 1)
    ensures |pages| > 1 ==> PageLabel(pages) == "Pages " + IntToString(pages[0] + 1)
                              + " to " + IntToString(pages[|pages| - 1] + 1)
  {
    if |pages| == 1 {
      SingularLabel(pages[0] + 1);
    } else {
      PluralLabel(pages[0] + 1, pages[|pages| - 1] + 1);
    }
  }

  lemma SingularLabel(n: int)
    ensures !StartsWith("Page " + IntToString(n), "Pages ")
    ensures ("Page " + IntToString(n))[5..] == IntToString(n)
    ensures ParseInt(IntToString(n)) == Some(n)
  {
    SingularNotPlural(n);
    IntToStringParses(n);
  }

  lemma SingularNotPlural(n: int)
    ensures !StartsWith("Page " + IntToString(n), "Pages ")
  {
    var x := IntToString(n);
    IntToStringChars(n);
    assert |x| > 0;
    var r := "Page " + x;
    assert r[5] == x[0];
    assert IsDigit(x[0]) || x[0] == '-';
    if |r| >= 6 {
      assert r[..6][5] != "Pages "[5];
    }
  }

  lemma PluralLabel(first: int, last: int)
    ensures StartsWith(SpanLabel("Pages", first, last), "Pages ")
    ensures SpanLabel("Pages", first, last)
         == "Pages " + IntToString(first) + " to " + IntToString(last)
  {
    var r := SpanLabel("Pages", first, last);
    assert r == "Pages " + (IntToString(first) + " to " + IntToString(last));
  }

  /** One turn of the batch loop for the batch `batch` starting at list
      position `offset`: the OCR call, then the label from
      `page_indices[i:i+len(batch_files)]`. */
  function BatchSection(indices: seq<int>, ocr: seq<string> -> Option<string>,
                        offset: nat, batch: seq<string>): Result<string, ExtractError>
  {
    match ocr(batch)
    case None => Err(OcrFailed(offset))
    case Some(text) =>
      var pages := PySlice(indices, offset, offset + |batch|);
      if |pages| == 0 then Err(NoPageForLabel(offset))
      else Ok(Section(PageLabel(pages), text))
  }

  function BookSectioner(indices: seq<int>, ocr: seq<string> -> Option<string>)
    : (nat, seq<string>) -> Result<string, ExtractError>
  {
    (offset: nat, batch: seq<string>) => BatchSection(indices, ocr, offset, batch)
  }

  /** The texts of a list of successful steps. */
  function Texts(rs: seq<Result<string, ExtractError>>): (r: seq<string>)
    requires forall i :: 0 <= i < |rs| ==> rs[i].Ok?
    ensures |r| == |rs|
    ensures forall i :: 0 <= i < |rs| ==> r[i] == rs[i].value
  {
    if |rs| == 0 then [] else [rs[0].value] + Texts(rs[1..])
  }

  /** Running the steps in order: the first failure ends the loop with its
      error; otherwise the texts are appended in order. */
  function Collect(rs: seq<Result<string, ExtractError>>): (r: Result<string, ExtractError>)
    ensures r.Ok? <==> forall i :: 0 <= i < |rs| ==> rs[i].Ok?
    ensures r.Ok? ==> r.value == Concat(Texts(rs))
    ensures r.Err? ==> exists i :: 0 <= i < |rs| && rs[i] == Err(r.error)
                                   && forall j :: 0 <= j < i ==> rs[j].Ok?
  {
    if |rs| == 0 then Ok("")
    else if rs[0].Err? then Err(rs[0].error)
    else
      var rest := Collect(rs[1..]);
      assert forall i :: 1 <= i < |rs| ==> rs[i] == rs[1..][i - 1];
      if rest.Ok? then
        assert Texts(rs) == [rs[0].value] + Texts(rs[1..]);
        Ok(rs[0].value + rest.value)
      else
        var i :| 0 <= i < |rs[1..]| && rs[1..][i] == Err(rest.error)
                 && forall j :: 0 <= j < i ==> rs[1..][j].Ok?;
        assert rs[i + 1] == Err(rest.error);
        Err(rest.error)
  }

  /** `text` followed by what is still to come. */
  function Prepend(text: string, rest: Result<string, ExtractError>): Result<string, ExtractError> {
    if rest.Ok? then Ok(text + rest.value) else rest
  }

  /** The cleanup loop: `os.remove` of every listed file that exists. */
  function Cleanup(files: set<string>, temps: seq<string>): (r: set<string>)
    ensures forall f :: f in r <==> f in files && f !in temps
  {
    if |temps| == 0 then files
    else
      var rest := Cleanup(if temps[0] in files then files - {temps[0]} else files, temps[1..]);
      assert forall f :: f in temps <==> f == temps[0] || f in temps[1..];
      rest
  }

  /** Cleaning up twice removes nothing more. */
  lemma CleanupIdempotent(files: set<string>, temps: seq<string>)
    ensures Cleanup(Cleanup(files, temps), temps) == Cleanup(files, temps)
  {
    var once := Cleanup(files, temps);
    assert forall f :: f in Cleanup(once, temps) <==> f in once;
  }

  /** `extract_text_from_files(temp_files, page_indices)` with the given
      batch size, OCR and existing files. */
  function Extract(temps: seq<string>, indices: seq<int>, batchSize: int,
                   ocr: seq<string> -> Option<string>, files: set<string>): (r: Run)
    ensures batchSize == 0 ==> r == Run(Err(ZeroBatchSize), files)
    ensures batchSize < 0 ==> r.outcome == Ok("")
    ensures r.outcome.Err? ==> r.remaining == files
    ensures r.outcome.Ok? ==> forall f :: f in r.remaining <==> f in files && f !in temps
  {
    if batchSize == 0 then Run(Err(ZeroBatchSize), files)
    else if batchSize < 0 then Run(Ok(""), Cleanup(files, temps))
    else
      var outcome := Collect(MapBatches(BookSectioner(indices, ocr), Chunks(temps, batchSize), 0));
      Run(outcome, if outcome.Ok? then Cleanup(files, temps) else files)
  }

  /** One turn of the loop for the collected outcome. */
  lemma CollectFrom(f: (nat, seq<string>) -> Result<string, ExtractError>,
                    xs: seq<string>, k: nat, i: nat)
    requires k > 0 && i < |xs|
    ensures Collect(MapBatches(f, Chunks(xs[i..], k), i))
         == (var first := f(i, xs[i .. Min(i + k, |xs|)]);
             if first.Err? then first
             else Prepend(first.value, Collect(MapBatches(f, Chunks(xs[Min(i + k, |xs|)..], k), Min(i + k, |xs|)))))
  {
    MapBatchesFrom(f, xs, k, i);
    var m := MapBatches(f, Chunks(xs[i..], k), i);
    assert m[1..] == MapBatches(f, Chunks(xs[Min(i + k, |xs|)..], k), Min(i + k, |xs|));
  }

  lemma PrependAssoc(a: string, b: string, r: Result<string, ExtractError>)
    ensures Prepend(a, Prepend(b, r)) == Prepend(a + b, r)
  {
    if r.Ok? {
      assert a + (b + r.value) == (a + b) + r.value;
    }
  }

  /** When there are at least as many page indices as files, batch `j`
      sends `Chunks(temp_files, k)[j]` to the OCR and labels its answer
      with the matching batch of page indices. */
  lemma SectionOfBatch(temps: seq<string>, indices: seq<int>, k: nat,
                       ocr: seq<string> -> Option<string>, j: nat)
    requires k > 0 && |indices| >= |temps| && j < CeilDiv(|temps|, k)
    ensures |Chunks(indices[..|temps|], k)| == |Chunks(temps, k)|
    ensures |Chunks(indices[..|temps|], k)[j]| > 0
    ensures MapBatches(BookSectioner(indices, ocr), Chunks(temps, k), 0)[j]
         == (match ocr(Chunks(temps, k)[j])
             case None => Err(OcrFailed(j * k))
             case Some(text) => Ok(Section(PageLabel(Chunks(indices[..|temps|], k)[j]), text)))
  {
    MapBatchesAt(BookSectioner(indices, ocr), temps, k, j);
    ChunkAt(temps, k, j);
    ChunkAt(indices[..|temps|], k, j);
    SliceSection(temps, indices, ocr, j * k, Min(j * k + k, |temps|));
  }

  /** The step for the slice `temps[start:stop]` labels it with the same
      slice of the page indices. */
  lemma SliceSection(temps: seq<string>, indices: seq<int>, ocr: seq<string> -> Option<string>,
                     start: nat, stop: nat)
    requires start < stop <= |temps| <= |indices|
    ensures BookSectioner(indices, ocr)(start, temps[start .. stop])
         == (match ocr(temps[start .. stop])
             case None => Err(OcrFailed(start))
             case Some(text) => Ok(Section(PageLabel(indices[..|temps|][start .. stop]), text)))
  {
    BatchOfMatched(indices, ocr, |temps|, start, stop, temps[start .. stop]);
  }

  lemma BatchOfMatched(indices: seq<int>, ocr: seq<string> -> Option<string>,
                       n: nat, start: nat, stop: nat, batch: seq<string>)
    requires start < stop <= n <= |indices| && |batch| == stop - start
    ensures BatchSection(indices, ocr, start, batch)
         == (match ocr(batch)
             case None => Err(OcrFailed(start))
             case Some(text) => Ok(Section(PageLabel(indices[..n][start .. stop]), text)))
  {
    assert PySlice(indices, start, start + |batch|) == indices[..n][start .. stop];
  }

  /** With at least as many page indices as files and a positive batch
      size, the call fails only when an OCR call does, and otherwise the
      text is the sections of the batches in order, each labelled with its
      own pages. */
  lemma ExtractMatched(temps: seq<string>, indices: seq<int>, k: nat,
                       ocr: seq<string> -> Option<string>, files: set<string>)
    requires k > 0 && |indices| >= |temps|
    ensures var r := Extract(temps, indices, k, ocr, files);
      && (r.outcome.Ok? <==> forall j :: 0 <= j < CeilDiv(|temps|, k) ==> ocr(Chunks(temps, k)[j]).Some?)
      && (r.outcome.Err? ==> r.outcome.error.OcrFailed?)
      && (r.outcome.Ok? ==> r.outcome.value == Concat(MatchedSections(temps, indices, k, ocr)))
  {
    var n := |temps|;
    var rs := MapBatches(BookSectioner(indices, ocr), Chunks(temps, k), 0);
    forall j | 0 <= j < |rs|
      ensures rs[j].Ok? <==> ocr(Chunks(temps, k)[j]).Some?
      ensures rs[j].Err? ==> rs[j].error.OcrFailed?
      ensures rs[j].Ok? ==> rs[j].value == MatchedSections(temps, indices, k, ocr)[j]
    {
      SectionOfBatch(temps, indices, k, ocr, j);
    }
    var o := Collect(rs);
    if o.Ok? {
      assert Texts(rs) == MatchedSections(temps, indices, k, ocr);
    }
  }

  /** The sections of the batches, with the OCR answer or the empty text
      where the OCR failed. */
  function MatchedSections(temps: seq<string>, indices: seq<int>, k: nat,
                           ocr: seq<string> -> Option<string>): (r: seq<string>)
    requires k > 0 && |indices| >= |temps|
    ensures |r| == CeilDiv(|temps|, k)
  {
    var labels := Chunks(indices[..|temps|], k);
    var batches := Chunks(temps, k);
    ChunksPartition(indices[..|temps|], k);
    seq(|batches|, j requires 0 <= j < |batches| =>
      Section(PageLabel(labels[j]), match ocr(batches[j]) case Some(t) => t case None => ""))
  }

  lemma MatchedAt(temps: seq<string>, indices: seq<int>, k: nat,
                  ocr: seq<string> -> Option<string>, j: nat)
    requires k > 0 && |indices| >= |temps| && j < CeilDiv(|temps|, k)
    ensures |Chunks(indices[..|temps|], k)[j]| > 0
    ensures MatchedSections(temps, indices, k, ocr)[j]
         == Section(PageLabel(Chunks(indices[..|temps|], k)[j]),
                    match ocr(Chunks(temps, k)[j]) case Some(t) => t case None => "")
  {
    ChunksPartition(indices[..|temps|], k);
  }

  lemma PrependEmpty(r: Result<string, ExtractError>)
    ensures Prepend("", r) == r
  {
    if r.Ok? {
      assert "" + r.value == r.value;
    }
  }

  /** The method as the source writes it: the batch loop, then, if no
      batch failed, the cleanup loop. */
  method ExtractTextFromFiles(temps: seq<string>, indices: seq<int>, batchSize: int,
                              ocr: seq<string> -> Option<string>, files: set<string>)
    returns (outcome: Result<string, ExtractError>, remaining: set<string>)
    ensures Run(outcome, remaining) == Extract(temps, indices, batchSize, ocr, files)
  {
    if batchSize == 0 {
      return Err(ZeroBatchSize), files;
    }
    outcome := Ok("");
    if batchSize > 0 {
      outcome := BatchLoop(temps, indices, batchSize, ocr);
      if outcome.Err? {
        return outcome, files;
      }
    }
    remaining := CleanupLoop(files, temps);
  }

  /** `for i in range(0, len(temp_files), batch_size)`: OCR the batch,
      label it from `page_indices[i:i+len(batch_files)]` and append the
      section; an exception ends the call. */
  method BatchLoop(temps: seq<string>, indices: seq<int>, k: nat,
                   ocr: seq<string> -> Option<string>)
    returns (outcome: Result<string, ExtractError>)
    requires k > 0
    ensures outcome == Collect(MapBatches(BookSectioner(indices, ocr), Chunks(temps, k), 0))
  {
    var allText := "";
    ghost var f := BookSectioner(indices, ocr);
    var i := 0;
    assert temps[0..] == temps;
    PrependEmpty(Collect(MapBatches(f, Chunks(temps, k), 0)));
    while i < |temps|
      invariant 0 <= i <= |temps|
      invariant Collect(MapBatches(f, Chunks(temps, k), 0))
             == Prepend(allText, Collect(MapBatches(f, Chunks(temps[i..], k), i)))
      decreases |temps| - i
    {
      var next := Min(i + k, |temps|);
      var batchFiles := temps[i .. next];
      CollectFrom(f, temps, k, i);
      var step := BatchStep(indices, ocr, i, batchFiles);
      assert f(i, batchFiles) == step;
      ghost var rest := Collect(MapBatches(f, Chunks(temps[i..], k), i));
      if step.Err? {
        assert rest == step;
        return step;
      }
      assert rest == Prepend(step.value, Collect(MapBatches(f, Chunks(temps[next..], k), next)));
      PrependAssoc(allText, step.value, Collect(MapBatches(f, Chunks(temps[next..], k), next)));
      allText := allText + step.value;
      i := next;
    }
    assert temps[|temps|..] == [];
    assert Collect(MapBatches(f, Chunks(temps[|temps|..], k), |temps|)) == Ok("");
    assert allText + "" == allText;
    outcome := Ok(allText);
  }

  /** The body of the batch loop for the batch at list position `i`. */
  method BatchStep(indices: seq<int>, ocr: seq<string> -> Option<string>,
                   i: nat, batchFiles: seq<string>)
    returns (section: Result<string, ExtractError>)
    ensures section == BatchSection(indices, ocr, i, batchFiles)
  {
    var batchPages := PySlice(indices, i, i + |batchFiles|);
    var extracted := ocr(batchFiles);
    if extracted.None? {
      return Err(OcrFailed(i));
    }
    if |batchPages| == 0 {
      return Err(NoPageForLabel(i));
    }
    var heading := if |batchPages| > 1 then
      "Pages " + IntToString(batchPages[0] + 1) + " to " + IntToString(batchPages[|batchPages| - 1] + 1)
    else "Page " + IntToString(batchPages[0] + 1);
    if |batchPages| > 1 {
      PluralLabel(batchPages[0] + 1, batchPages[|batchPages| - 1] + 1);
    }
    section := Ok(Section(heading, extracted.value));
  }

  /** `for temp_file in temp_files: if os.path.exists(temp_file):
      os.remove(temp_file)`. */
  method CleanupLoop(files: set<string>, temps: seq<string>) returns (remaining: set<string>)
    ensures remaining == Cleanup(files, temps)
  {
    remaining := files;
    var j := 0;
    while j < |temps|
      invariant 0 <= j <= |temps|
      invariant Cleanup(remaining, temps[j..]) == Cleanup(files, temps)
      decreases |temps| - j
    {
      assert temps[j..][1..] == temps[j + 1..];
      if temps[j] in remaining {
        remaining := remaining - {temps[j]};
      }
      j := j + 1;
    }
    assert temps[|temps|..] == [];
  }
}
