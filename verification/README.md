# Lecture-notes OCR pipeline: page selection, batching and naming

This project is a Dafny model of the deterministic core of a small
Python tool. The tool turns lecture slides (PDF or PowerPoint) and folders
of pasted screenshots into text by sending page images, a few at a time,
to a vision model. The deterministic logic around the model calls is
modelled:

- `Book_processor.py` (the `LectureProcessor` class):
  - the page-range selector parser (`parse_page_range`): a comma-separated
    list of `N` and `A-B` parts, or `all`;
  - the extension dispatch and the page plan of `convert_pages_to_files`;
  - the `Pages:` line scan of the `pdfinfo` fallback;
  - the batching, labelling and cleanup loop of `extract_text_from_files`;
  - the output-name derivation and the returned report of `process`.
- `Lecture_notes.py`, the script variant:
  - its extension dispatch and `.pdf` renaming;
  - its page-image names;
  - its batch loop, which always writes the plural label.
- `pic_ocr.py`, the screenshot variant:
  - its file filter;
  - its two-stage sort, which puts `pasted image.png` first;
  - its batch loop with `Images i to j` labels.

The vision-model call is a function parameter `ocr` from a batch of file
names to its text, or to `None` where the call may raise. The file system
is a `set<string>` of existing names.

Modules, one per file:

- `Results` (`results.dfy`): `Option` and `Result`.
- `Text` (`text.dfy`): Python string behaviour the scripts rely on:
  - `str.split` on one character, `str.strip`, `str.lower` on ASCII and
    `str.replace`;
  - `str(n)`, and `int()` on decimal literals.
- `Ordering` (`ordering.dfy`): `sorted(set(...))` on integers, and
  `sorted` on strings under Python's code-point order.
- `Batching` (`batching.dfy`): `range(0, n, k)` with `xs[i:i+k]`. Covers
  the number of batches, each batch's slice, and the batches
  reassembling the list.
- `Sections` (`sections.dfy`): the `"\n\n--- label ---\n\n" + text`
  section format, and the accumulator loop labelled by list position (the
  two scripts).
- `PageRange` and `PageRangeProperties` (`page_range.dfy`): the selector
  parser and its meaning.
- `BookExtraction` (`book_extraction.dfy`): `extract_text_from_files`.
- `BookProcessor` (`book_processor.dfy`): dispatch, page plan, page-count
  scan, output names, report, and the whole `process` run.
- `LectureNotes` (`lecture_notes.dfy`) and `PicOcr` (`pic_ocr.dfy`): the
  two scripts.

The model follows what the code does in these places:

- A reversed part such as `5-3` is not an error. `range(4, 3)` adds
  nothing, and the selector fails only when no requested page is in
  range.
- A selector given as `all` still renames the outputs. The renaming is
  guarded by `if page_range:`, so `all` gives `<stem>_pages_all`.
- The temporary page images are removed once, after every batch has
  been read. If a vision-model call raises, the loop is left early and
  no image is removed.
- A batch label takes the first and last selected page of the batch,
  whether or not the pages between are contiguous.
- The label is `Page n` for a one-page batch in the class. It is always
  `Pages i to j` in `Lecture_notes.py`, and always `Images i to j` in
  `pic_ocr.py`.
- `range(0, n, 0)` raises, so a batch size of zero is an error. A
  negative batch size walks no batch, returns the empty text, and still
  cleans up.
- A label needs the first page of its batch. If a batch starts at or
  past the end of the page indices, its slice of them is empty, and the
  `IndexError` this raises is modelled as an error. A batch that only
  runs past the end gets a label from the indices it has.

## Model

| member | source | states |
|---|---|---|
| PageRange.ParseSelector | Book_processor.py:39-90 | an empty selector or `all` in any case selects `range(total_pages)` with nothing skipped; a successful result is strictly increasing, within `[0, total_pages)`, and non-empty unless everything was selected; every skipped page number is outside `1..total_pages`; an error names the selector (when a selector is malformed: `PartOf`, `MalformedIffBadPart`, `MalformedExamples`) |
| PageRange.PartOf | Book_processor.py:64-70 | a stripped part is read as a span exactly when it holds a `-`; with a `-` whose split does not give exactly two pieces it is malformed; with exactly two pieces it parses exactly when both pieces read as integers; without a `-` it is the single page exactly when it reads as an integer |
| PageRange.Expand | Book_processor.py:64-70 | the indices one part adds are exactly those it names: `N` names `N-1`, `A-B` names `A-1` to `B-1` |
| PageRange.ParseParts | Book_processor.py:61-75 | parsing fails exactly when some comma-separated part fails; otherwise every part parses to the corresponding position |
| PageRange.ExpandAll | Book_processor.py:62-70 | the list the loop builds holds exactly the indices some part requests |
| PageRange.KeepInBounds | Book_processor.py:78 | the comprehension keeps exactly the in-range indices and keeps an increasing list increasing |
| PageRange.SelectParts | Book_processor.py:77-90 | the result is increasing, in range and non-empty, with skipped pages outside the document; the only error is the empty selection |
| PageRangeProperties.MalformedIffBadPart | Book_processor.py:61-75 | a selector other than `all` raises the format error exactly when one of its comma-separated parts does not parse |
| PageRangeProperties.SelectorSemantics | Book_processor.py:55-90 | for a well-formed selector, success holds exactly when some requested page is in range; the pages are exactly the requested in-range indices; the skipped numbers are exactly the requested ones outside the document, 1-based; the error is the empty selection |
| PageRangeProperties.SelectPartsSemantics | Book_processor.py:77-90 | the same meaning, stated for the deduplicate, sort, filter and report stage |
| PageRangeProperties.SkippedPages | Book_processor.py:86-88 | the warning's page numbers are exactly the requested pages outside `1..total_pages` |
| PageRangeProperties.ParsePartText | Book_processor.py:63-70 | a part spelled out in digits, with any whitespace around it, parses back to itself |
| PageRangeProperties.SelectorTextParses | Book_processor.py:59-70 | a selector written out from a list of parts parses back to that list |
| PageRangeProperties.ReversedSpanAddsNothing | Book_processor.py:65-68 | a part `A-B` with `A > B` requests no page |
| PageRangeProperties.AllSelectsEverything | Book_processor.py:55-56 | `all`, `ALL` and the empty selector give every page, and an empty document gives the empty list without error |
| PageRangeProperties.DocExamples | Book_processor.py:50-53 | `1-3,7-9` gives `[0,1,2,6,7,8]` and `1,3,5` gives `[0,2,4]` on 100 pages, with nothing skipped |
| PageRangeProperties.MalformedExamples | Book_processor.py:59-75 | `1-`, `1,,2`, `abc`, `1-2-3` and `1\x1c-3` are each the format error, on any page count |
| PageRangeProperties.BadSpanPart | Book_processor.py:63-67 | a trimmed part `x-y` is malformed when `y` holds another `-` or either side does not read as an integer |
| PageRangeProperties.BadSinglePart | Book_processor.py:63-70 | a trimmed part without `-` that does not read as an integer is malformed |
| PageRangeProperties.PastTheEnd | Book_processor.py:77-84 | `200` on a 10-page document is well-formed but selects nothing, so it is the empty-selection error |
| PageRangeProperties.KnownSelection | Book_processor.py:55-90 | a well-formed selector whose parts request exactly the pages of an increasing in-range list selects that list and skips nothing |
| Text.Split | Book_processor.py:59 | `str.split` on one character: at least one piece, no piece holds the separator, and joining the pieces gives the input back |
| Text.SplitJoin | Book_processor.py:105 | splitting the join of separator-free pieces gives the pieces back |
| Text.Strip | Book_processor.py:63 | `str.strip` leaves no whitespace at either end and never lengthens the text |
| Text.StripPadded | Book_processor.py:63 | stripping whitespace padding from a trimmed text gives that text |
| Text.ParseInt | Book_processor.py:66-70 | `int()` gives a negative value only for text holding `-`, and refuses any text holding one of U+001C..U+001F |
| Text.InfoSeparatorRefused | Book_processor.py:66-70 | a text holding one of U+001C..U+001F anywhere is no integer, although `str.strip` treats them as whitespace |
| Text.BlankRefused | Book_processor.py:66-70 | the empty text and all-whitespace text are no integer |
| Text.ForeignRefused | Book_processor.py:66-70 | a text holding a character that is neither a digit, a sign nor whitespace is no integer |
| Text.ParseIntString | Book_processor.py:66-70 | `int()` reads back `str(n)` for every integer n, with any padding of the whitespace `int()` skips (all of `str.isspace` except U+001C..U+001F) |
| Text.ParsePadded | Book_processor.py:66-70 | `int()` ignores padding around a trimmed literal made of the whitespace it skips (all of `str.isspace` except U+001C..U+001F) |
| Text.IntToStringInjective | Book_processor.py:182 | different integers print differently |
| Text.ReplaceChar | Book_processor.py:439 | `str.replace` of a character by a text without it leaves no occurrence, adds only characters of the input or of the replacement, and changes nothing when the character is absent |
| Text.ToLowerIdempotent | Book_processor.py:153 | lower-casing twice is lower-casing once |
| Ordering.SortedDistinct | Book_processor.py:77 | `sorted(set(pages))` is strictly increasing and has exactly the elements of the input |
| Ordering.StrictlyIncreasingUnique | Book_processor.py:77 | two strictly increasing lists with the same elements are equal |
| Ordering.LexLeTotal | pic_ocr.py:54-58 | any two paths are comparable in code-point order |
| Ordering.LexLeTransitive | pic_ocr.py:54-58 | the code-point order on paths is transitive |
| Ordering.LexLeAntisymmetric | pic_ocr.py:54-58 | two paths each at most the other are equal |
| Ordering.SortStrings | pic_ocr.py:54-58 | `sorted` on paths is ascending and a permutation of its input |
| Batching.Chunks | Book_processor.py:249-250 | the walk `range(0, n, k)` with slices `xs[i:i+k]` yields the ceiling of n over k batches |
| Batching.ChunksPartition | Book_processor.py:249-251 | the batches concatenate to the list; there are `(n+k-1)/k` of them; each is non-empty and at most k long; all but the last are exactly k long |
| Batching.ChunkAt | Book_processor.py:249-250 | batch j is the contiguous slice from `j*k` to `min(j*k+k, n)` |
| Batching.CeilDivIsCeiling | Book_processor.py:249 | the number of loop turns is the ceiling of n over k |
| Batching.PySlice | Book_processor.py:250-251 | a Python slice is exactly the part of the list between its two bounds clamped to the length, and empty when the clamped bounds cross |
| Batching.MapBatchesAt | Book_processor.py:249-257 | the j-th step of the loop sees offset `j*k` and the j-th slice |
| Batching.Partition | Book_processor.py:249-251 | the slicing loop produces exactly those batches, which concatenate back to the list |
| Sections.SectionInjective | Book_processor.py:257 | a section's label can be read back from the section and its text |
| Sections.PositionalSectionAt | pic_ocr.py:66-73 | batch j is labelled with 1-based positions `j*k+1` to `min(j*k+k, n)` and carries the text of exactly that slice |
| Sections.PositionalLoop | pic_ocr.py:66-73 | the accumulator loop appends the sections of the batches in order |
| BookExtraction.PageLabelForm | Book_processor.py:256 | a batch label starts with `Pages ` exactly when the batch has more than one page; a one-page label reads back the page number; a longer batch is labelled with its first and last page plus one |
| BookExtraction.Collect | Book_processor.py:249-257 | the appended text exists exactly when every batch succeeded, and is then their sections in order; otherwise the error is that of the first failing batch |
| BookExtraction.Cleanup | Book_processor.py:259-262 | after the cleanup loop, a file exists exactly when it existed before and is not a temporary image |
| BookExtraction.CleanupIdempotent | Book_processor.py:259-262 | running the cleanup a second time removes nothing more |
| BookExtraction.Extract | Book_processor.py:235-264 | a batch size of zero is an error that touches no file; a negative one yields the empty text; on error no file is removed; on success exactly the temporary images are removed |
| BookExtraction.ExtractMatched | Book_processor.py:235-264 | with a positive batch size and a page index for every file, the call succeeds exactly when every batch's OCR succeeds, fails only with an OCR error, and yields the labelled sections in batch order |
| BookExtraction.MatchedAt | Book_processor.py:250-257 | section j carries the label of the j-th slice of page indices and the OCR text of the j-th slice of files |
| BookExtraction.SectionOfBatch | Book_processor.py:250-257 | loop turn j fails with the OCR error at offset `j*k` or yields the section of the j-th batch labelled by its page indices |
| BookExtraction.ExtractTextFromFiles | Book_processor.py:235-264 | the method, with its batch loop and cleanup loop, computes the same outcome and remaining files as `Extract` |
| BookExtraction.BatchLoop | Book_processor.py:249-257 | the loop's accumulated text is the collected sections of the batches in order |
| BookExtraction.CleanupLoop | Book_processor.py:259-262 | the removal loop leaves exactly the cleanup's files |
| BookProcessor.FormatOf | Book_processor.py:153-164 | the lower-cased suffix `.pdf` is read directly, `.pptx` and `.ppt` are converted, and any other suffix is the error naming the lower-cased extension |
| BookProcessor.FormatIgnoresCase | Book_processor.py:153 | dispatch depends only on the lower-cased suffix, and a file without a suffix is refused |
| BookProcessor.FormatUpperCase | Book_processor.py:153-159 | `.PDF` and `.PPT` are accepted |
| BookProcessor.FirstPagesLine | Book_processor.py:105-106 | it finds no line exactly when none starts with `Pages:`, and otherwise the first such line |
| BookProcessor.PageCountFromInfo | Book_processor.py:105-108 | the missing-line error is raised exactly when no line of the output starts with `Pages:`; otherwise the text after the first such line's colon, stripped, is read as an integer, and an unreadable count is reported with that field |
| BookProcessor.PageCountOfInfo | Book_processor.py:105-107 | an output whose first `Pages:` line holds the count n after any whitespace gives n |
| BookProcessor.Plan | Book_processor.py:170-175 | the page plan is strictly increasing and in range, and a missing or empty selector plans every page |
| BookProcessor.PlanSelects | Book_processor.py:170-171 | for a well-formed selector the plan succeeds exactly when a requested page is in range, and then holds exactly the requested in-range pages |
| BookProcessor.TempNames | Book_processor.py:180-192 | the i-th temporary image is `temp_page_{idx+1}.png` for the i-th selected index |
| BookProcessor.TempNameInjective | Book_processor.py:182 | different page indices give different temporary names |
| BookProcessor.TempNamesDistinct | Book_processor.py:180-192 | for an increasing plan no two temporary images share a name |
| BookProcessor.ConvertPages | Book_processor.py:153-196 | an unsupported suffix is refused before anything else; a success carries the plan's indices and their temporary names; a failure for a supported suffix is the selector's error |
| BookProcessor.CleanSelector | Book_processor.py:439 | the cleaned selector holds no `,` and no `-` |
| BookProcessor.OutputBase | Book_processor.py:437-440 | without a selector the base is the stem; with one it starts with the stem and `_pages_` |
| BookProcessor.UncleanClean | Book_processor.py:439 | for a selector without `_` or `t`, the cleaning can be undone |
| BookProcessor.OutputBaseInjective | Book_processor.py:437-440 | two such selectors that give the same base are equal |
| BookProcessor.OutputBaseExamples | Book_processor.py:437-440 | `all` gives `<stem>_pages_all` and `1-3,7` gives `<stem>_pages_1to3_7` |
| BookProcessor.OutputPaths | Book_processor.py:442-444 | the three paths are pairwise different and end in `_extracted.txt`, `_summary.txt` and `_qa.txt`; with that suffix dropped each is exactly `dir/base` |
| BookProcessor.PagesProcessed | Book_processor.py:466 | the report lists every selected index plus one, position by position |
| BookProcessor.PagesProcessedRange | Book_processor.py:466-467 | for a valid plan the reported pages are increasing, lie in `1..total_pages`, and are exactly the selected indices plus one |
| BookProcessor.Process | Book_processor.py:418-472 | an unsupported suffix fails and touches no file; a refused selector fails with the selector's own error and leaves only the PDF converted from slides; once the pages are converted, the run succeeds exactly when the extraction does, a failed extraction is reported with its error and its leftover files, and a success leaves the extraction's files plus the three outputs; a success reports the source path, the selector and the title it was given, the three output paths named after the stem and the selector, and as many pages as were planned, 1-based, in plan order |
| BookProcessor.ProcessFiles | Book_processor.py:424-453 | after a successful run the files are exactly those there before, the PDF converted from slides included, without the temporary images and with the three reported outputs; after a failed extraction every temporary image is left behind |
| BookProcessor.ConvertedPdfStays | Book_processor.py:130 | for `.pptx` or `.ppt` input the PDF written beside it survives every run that passes the format check, whether it succeeds or fails |
| LectureNotes.FileFormat | Lecture_notes.py:16-28 | the lower-cased suffix is accepted exactly when it is `.pdf`, `.pptx` or `.ppt`; otherwise the error names it |
| LectureNotes.SameDispatch | Lecture_notes.py:17-26 | the script dispatches exactly as the class does, and only on the lower-cased suffix |
| BookProcessor.WithPdfSuffix | Book_processor.py:130 | the converted path ends in `.pdf` and keeps the path before the old suffix (also `Lecture_notes.py` line 13) |
| BookProcessor.WithPdfSuffixIdempotent | Book_processor.py:130 | renaming a renamed path again changes nothing, and a path is unchanged exactly when its suffix was `.pdf` |
| LectureNotes.PageImageNames | Lecture_notes.py:32-33 | page i is saved as `page_{i+1}.png` for every i below the page count |
| LectureNotes.PageImageNamesDistinct | Lecture_notes.py:32-33 | no two pages are saved under the same name |
| LectureNotes.LectureText | Lecture_notes.py:109-115 | the script's loop appends, in order, the section of every three-page batch labelled `Pages i+1 to i+len` |
| LectureNotes.LectureBatches | Lecture_notes.py:112-113 | the batches reassemble the page names, and batch j holds the names of pages `j*3` to `min(j*3+3, n)-1` |
| LectureNotes.ScriptAgreesWithClass | Lecture_notes.py:109-115 | when the page count is not one more than a multiple of three, the script's text equals the class's text for the same pages and OCR |
| LectureNotes.OnePageDiffers | Lecture_notes.py:115 | for a one-page document the script's text differs from the class's |
| LectureNotes.LabelsOfRuns | Lecture_notes.py:115 | on a run of consecutive pages the two labels agree exactly when the run is longer than one page |
| PicOcr.KeptPaths | pic_ocr.py:54-58 | a path is listed exactly when it is the folder joined with a name whose lower-case form starts with `pasted image` and ends with `.png`; the list is those names, in listing order and each as often as listed, joined to the folder |
| PicOcr.Filter | pic_ocr.py:57 | filtering keeps exactly the elements that pass the test |
| PicOcr.FilterSplit | pic_ocr.py:61 | splitting by the test loses and adds nothing |
| PicOcr.FilterSorted | pic_ocr.py:54-61 | filtering an ascending list keeps it ascending |
| PicOcr.PromotePermutation | pic_ocr.py:61 | the re-sort is a permutation |
| PicOcr.PromoteKeySorted | pic_ocr.py:61 | the re-sort of an ascending list is ordered by the key `(x != first, x)` |
| PicOcr.KeyLeTransitive | pic_ocr.py:61 | the key order is transitive |
| PicOcr.KeyLeAntisymmetric | pic_ocr.py:61 | two paths each at most the other under the key are equal |
| PicOcr.KeySortedUnique | pic_ocr.py:61 | two key-ordered permutations of one list are equal, so the stable sort has one possible result |
| PicOcr.ImageFilesOrder | pic_ocr.py:54-61 | the ordered list is a permutation of the kept paths, ordered by the key, and equal to any other such ordering |
| PicOcr.PromoteFirst | pic_ocr.py:61 | a path equal to the first key comes first |
| PicOcr.PastedImageFirst | pic_ocr.py:57-61 | when the folder holds `pasted image.png`, its path comes first |
| PicOcr.PastedImageKept | pic_ocr.py:57 | `pasted image.png` passes the filter |
| PicOcr.OnlyPastedImages | pic_ocr.py:54-61 | every path the batch loop sees comes from a kept name of the folder |
| PicOcr.PicText | pic_ocr.py:64-73 | the loop appends, in order, the section of every batch of at most three paths labelled `Images i+1 to i+len` |
| PicOcr.PicBatches | pic_ocr.py:66-73 | batch j carries the label `Images j*3+1 to min(j*3+3, n)` and the text of exactly that slice of the ordered list |

## Left out

- The vision-model calls (`extract_text_from_images`, `summarize_text`,
  `generate_qa`) are foreign network calls. OCR is a function parameter,
  and summary and Q&A are not modelled beyond the three file names they
  are written to.
- Rasterisation (`convert_from_path`), PyPDF2 page counting, and the
  LibreOffice conversion through `os.system` are external tools. The page
  count is an input. Only the pure `Pages:` scan of the `pdfinfo` output
  is modelled.
- `convert_pptx_to_pdf` in the class checks the command's exit status
  and that the PDF exists. Both are file-system facts, so conversion is
  assumed to succeed and to write `Path(path).with_suffix('.pdf')`. The
  path's suffix is an input and must end the path.
- The file system is a set of names. File contents, `os.makedirs`,
  reads, writes and `os.listdir` ordering are out of scope. The listing
  is an input sequence.
- `print` output is left out. The skipped-page warning is returned as a
  set instead.
- Text.ParseInt: Python's `int()` also accepts underscores between digits
  and non-ASCII digits, and refuses very long literals. The model accepts
  ASCII digits with an optional sign, padded by the whitespace `int()`
  skips: every `str.isspace` character except the information separators
  U+001C..U+001F, which `int()` refuses wherever they stand.
- Text.ToLower: `str.lower` is modelled on ASCII letters only.
- `Path.stem`, `Path.suffix`, `with_suffix` and `os.path.join` are not
  library-faithful. Stem and suffix are inputs, and a join is
  `dir + "/" + name`.
- BookProcessor.OutputBaseInjective: stated only for selectors without
  `_` or `t`. With those characters, two selectors can give the same
  name, e.g. `1_2` and `1,2`.
- The script's hard-coded input file name (`Lecture_notes.py` line 31) is
  not modelled. Its page images and batch loop depend only on the page
  count, which is a parameter.
- The summary and Q&A text of `process` are not modelled.
- BookProcessor.Process: `convert_from_path`, `summarize_text`,
  `generate_qa`, `os.makedirs` and the three file writes are assumed not
  to raise. A raise in one of them is an unmodelled failure. Rasterising
  could leave some temporary images behind. A later step would leave the
  temporary images removed and not every output written. So "succeeds
  exactly when the extraction does" holds only under this assumption.
