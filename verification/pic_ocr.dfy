/** `pic_ocr.py`: the stand-alone script that picks the pasted screenshots
    out of a folder, puts "pasted image.png" first and the rest in
    ascending order, and sends them to the OCR model `BATCH_SIZE` at a
    time, labelling each answer "Images i+1 to i+len" by list position. */
module PicOcr {
  import opened Text
  import opened Ordering
  import opened Batching
  import opened Sections

  /** `BATCH_SIZE`. */
  const BatchSize: nat := 3

  /** The names the script keeps: lower-cased, they start with
      "pasted image" and end with ".png". */
  predicate IsPastedImage(name: string) {
    StartsWith(ToLower(name), "pasted image") && EndsWith(ToLower(name), ".png")
  }

  /** `os.path.join(IMAGE_FOLDER, f)`, written as `folder + "/" + f`. */
  function JoinPath(folder: string, name: string): string {
    folder + "/" + name
  }

  /** `p` is the joined path of a kept name of the listing. */
  ghost predicate Listed(folder: string, names: seq<string>, p: string) {
    exists i :: 0 <= i < |names| && IsPastedImage(names[i]) && p == JoinPath(folder, names[i])
  }

  /** The elements of `xs` that `keep` accepts, in order. */
  function Filter(xs: seq<string>, keep: string -> bool): (r: seq<string>)
    ensures forall x :: x in r <==> x in xs && keep(x)
    ensures forall i :: 0 <= i < |r| ==> keep(r[i])
  {
    if |xs| == 0 then []
    else (if keep(xs[0]) then [xs[0]] else []) + Filter(xs[1..], keep)
  }

  /** Every name joined to the folder, position by position. */
  function JoinAll(folder: string, names: seq<string>): (r: seq<string>)
    ensures |r| == |names|
    ensures forall i :: 0 <= i < |names| ==> r[i] == JoinPath(folder, names[i])
  {
    seq(|names|, i requires 0 <= i < |names| => JoinPath(folder, names[i]))
  }

  /** The list comprehension over `os.listdir(IMAGE_FOLDER)`: the kept
      names, each once and in listing order, joined to the folder. */
  function KeptPaths(folder: string, names: seq<string>): (r: seq<string>)
    ensures |r| <= |names|
    ensures forall p :: p in r <==> Listed(folder, names, p)
    ensures r == JoinAll(folder, Filter(names, IsPastedImage))
  {
    if |names| == 0 then []
    else
      var rest := KeptPaths(folder, names[1..]);
      assert forall i :: 1 <= i < |names| ==> names[i] == names[1..][i - 1];
      var kept := Filter(names, IsPastedImage);
      assert kept == (if IsPastedImage(names[0]) then [names[0]] else []) + Filter(names[1..], IsPastedImage);
      (if IsPastedImage(names[0]) then [JoinPath(folder, names[0])] else []) + rest
  }

  lemma FilterCons(xs: seq<string>, keep: string -> bool)
    requires |xs| > 0
    ensures multiset(Filter(xs, keep))
         == (if keep(xs[0]) then multiset{xs[0]} else multiset{}) + multiset(Filter(xs[1..], keep))
  {
  }

  lemma HeadMultiset(xs: seq<string>)
    requires |xs| > 0
    ensures multiset(xs) == multiset{xs[0]} + multiset(xs[1..])
  {
    assert xs == [xs[0]] + xs[1..];
  }

  function IsFirst(first: string): string -> bool {
    (x: string) => x == first
  }

  function NotFirst(first: string): string -> bool {
    (x: string) => x != first
  }

  /** The exact path that is moved to the front. */
  function FirstImage(folder: string): string {
    JoinPath(folder, "pasted image.png")
  }

  /** `image_files.sort(key=lambda x: (x != first, x))` on a list that is
      already in ascending order: the copies of `first`, then the others
      in the order they had. */
  function Promote(xs: seq<string>, first: string): seq<string> {
    Filter(xs, IsFirst(first)) + Filter(xs, NotFirst(first))
  }

  /** The image list the batch loop walks. */
  function ImageFiles(folder: string, names: seq<string>): seq<string> {
    Promote(SortStrings(KeptPaths(folder, names)), FirstImage(folder))
  }

  /** Python's `<=` on the keys `(a != first, a)` and `(b != first, b)`:
      `False` sorts before `True`, and equal flags compare the paths. */
  predicate KeyLe(a: string, b: string, first: string) {
    a == first || (b != first && LexLe(a, b))
  }

  predicate KeySorted(xs: seq<string>, first: string) {
    forall i, j :: 0 <= i < j < |xs| ==> KeyLe(xs[i], xs[j], first)
  }

  /** Splitting by a test and putting the halves together loses and adds
      nothing. */
  lemma {:induction false} FilterSplit(xs: seq<string>, first: string)
    ensures multiset(Filter(xs, IsFirst(first))) + multiset(Filter(xs, NotFirst(first))) == multiset(xs)
    decreases |xs|
  {
    if |xs| > 0 {
      FilterSplit(xs[1..], first);
      FilterCons(xs, IsFirst(first));
      FilterCons(xs, NotFirst(first));
      HeadMultiset(xs);
      if xs[0] == first {
        assert IsFirst(first)(xs[0]) && !NotFirst(first)(xs[0]);
      } else {
        assert !IsFirst(first)(xs[0]) && NotFirst(first)(xs[0]);
      }
    }
  }

  /** Filtering keeps the ascending order. */
  lemma {:induction false} FilterSorted(xs: seq<string>, keep: string -> bool)
    requires SortedStrings(xs)
    ensures SortedStrings(Filter(xs, keep))
    decreases |xs|
  {
    if |xs| > 0 {
      var rest := Filter(xs[1..], keep);
      FilterSorted(xs[1..], keep);
      if keep(xs[0]) {
        forall i | 0 <= i < |rest|
          ensures LexLe(xs[0], rest[i])
        {
          assert rest[i] in rest;
          SortedHeadBelow(xs, rest[i]);
        }
        ConsSorted(xs[0], rest);
      }
    }
  }

  lemma SortedHeadBelow(xs: seq<string>, y: string)
    requires SortedStrings(xs) && |xs| > 0 && y in xs[1..]
    ensures LexLe(xs[0], y)
  {
    var k :| 0 <= k < |xs[1..]| && xs[1..][k] == y;
    assert xs[k + 1] == y;
  }

  /** The re-sort is a permutation. */
  lemma PromotePermutation(xs: seq<string>, first: string)
    ensures multiset(Promote(xs, first)) == multiset(xs)
  {
    FilterSplit(xs, first);
  }

  /** On an ascending list the result is ordered by the sort key: `first`
      before everything, the other paths ascending. */
  lemma PromoteKeySorted(xs: seq<string>, first: string)
    requires SortedStrings(xs)
    ensures KeySorted(Promote(xs, first), first)
  {
    var front := Filter(xs, IsFirst(first));
    var back := Filter(xs, NotFirst(first));
    FilterSorted(xs, NotFirst(first));
    var r := Promote(xs, first);
    forall i, j | 0 <= i < j < |r|
      ensures KeyLe(r[i], r[j], first)
    {
      if i < |front| {
        assert IsFirst(first)(front[i]);
      } else {
        assert r[i] == back[i - |front|] && r[j] == back[j - |front|];
        assert NotFirst(first)(back[j - |front|]);
      }
    }
  }

  /** `first`, when present, comes first. */
  lemma PromoteFirst(xs: seq<string>, first: string)
    requires first in xs
    ensures |Promote(xs, first)| > 0 && Promote(xs, first)[0] == first
  {
    var front := Filter(xs, IsFirst(first));
    assert first in front;
    assert IsFirst(first)(front[0]);
  }

  /** Key order is antisymmetric on paths. */
  lemma KeyLeAntisymmetric(a: string, b: string, first: string)
    requires KeyLe(a, b, first) && KeyLe(b, a, first)
    ensures a == b
  {
    if a != first && b != first {
      LexLeAntisymmetric(a, b);
    }
  }

  lemma KeyLeTransitive(a: string, b: string, c: string, first: string)
    requires KeyLe(a, b, first) && KeyLe(b, c, first)
    ensures KeyLe(a, c, first)
  {
    if a != first && b != first && c != first {
      LexLeTransitive(a, b, c);
    }
  }

  /** There is only one key-ordered arrangement of a list of paths, so
      the sort's result is fixed by its input's contents. */
  lemma {:induction false} KeySortedUnique(a: seq<string>, b: seq<string>, first: string)
    requires KeySorted(a, first) && KeySorted(b, first)
    requires multiset(a) == multiset(b)
    ensures a == b
    decreases |a|
  {
    assert |a| == |multiset(a)| == |multiset(b)| == |b|;
    if |a| > 0 {
      assert a[0] in multiset(b) && b[0] in multiset(a);
      var i :| 0 <= i < |a| && a[i] == b[0];
      var j :| 0 <= j < |b| && b[j] == a[0];
      assert KeyLe(a[0], b[0], first) by {
        if i > 0 { assert KeyLe(a[0], a[i], first); } else { LexLeTotal(a[0], a[0]); }
      }
      assert KeyLe(b[0], a[0], first) by {
        if j > 0 { assert KeyLe(b[0], b[j], first); } else { LexLeTotal(b[0], b[0]); }
      }
      KeyLeAntisymmetric(a[0], b[0], first);
      MultisetTail(a, b);
      KeySortedUnique(a[1..], b[1..], first);
    }
  }

  lemma MultisetTail(a: seq<string>, b: seq<string>)
    requires |a| > 0 && |b| > 0 && a[0] == b[0] && multiset(a) == multiset(b)
    ensures multiset(a[1..]) == multiset(b[1..])
  {
    assert a == [a[0]] + a[1..] && b == [b[0]] + b[1..];
    assert multiset(a[1..]) == multiset(a) - multiset{a[0]};
    assert multiset(b[1..]) == multiset(b) - multiset{b[0]};
  }

  /** The image list is exactly the kept paths arranged by the sort key:
      it is a permutation of them, it is key-ordered, and any key-ordered
      permutation of them equals it. The pasted image itself, when the
      folder has one, is first. */
  lemma ImageFilesOrder(folder: string, names: seq<string>, other: seq<string>)
    requires KeySorted(other, FirstImage(folder))
    requires multiset(other) == multiset(KeptPaths(folder, names))
    ensures multiset(ImageFiles(folder, names)) == multiset(KeptPaths(folder, names))
    ensures KeySorted(ImageFiles(folder, names), FirstImage(folder))
    ensures other == ImageFiles(folder, names)
  {
    var sorted := SortStrings(KeptPaths(folder, names));
    PromotePermutation(sorted, FirstImage(folder));
    PromoteKeySorted(sorted, FirstImage(folder));
    KeySortedUnique(other, ImageFiles(folder, names), FirstImage(folder));
  }

  /** "pasted image.png" passes the filter, so a folder that holds it has
      its path first. */
  lemma PastedImageFirst(folder: string, names: seq<string>)
    requires "pasted image.png" in names
    ensures |ImageFiles(folder, names)| > 0 && ImageFiles(folder, names)[0] == FirstImage(folder)
  {
    PastedImageKept();
    var i :| 0 <= i < |names| && names[i] == "pasted image.png";
    var kept := KeptPaths(folder, names);
    assert Listed(folder, names, FirstImage(folder));
    assert FirstImage(folder) in kept;
    var sorted := SortStrings(kept);
    assert FirstImage(folder) in multiset(sorted);
    PromoteFirst(sorted, FirstImage(folder));
  }

  lemma PastedImageKept()
    ensures IsPastedImage("pasted image.png")
  {
    PastedImageLower();
    PastedImageAffixes();
  }

  lemma PastedImageLower()
    ensures ToLower("pasted image.png") == "pasted image.png"
  {
    AlreadyLower("pasted image.png");
  }

  lemma PastedImageAffixes()
    ensures StartsWith("pasted image.png", "pasted image")
    ensures EndsWith("pasted image.png", ".png")
  {
    var s := "pasted image.png";
    assert s[..12] == "pasted image";
    assert s[12..] == ".png";
  }

  /** A name that does not look like a pasted PNG is never sent. */
  lemma OnlyPastedImages(folder: string, names: seq<string>, p: string)
    requires p in ImageFiles(folder, names)
    ensures Listed(folder, names, p)
  {
    var kept := KeptPaths(folder, names);
    var sorted := SortStrings(kept);
    PromotePermutation(sorted, FirstImage(folder));
    assert p in multiset(ImageFiles(folder, names));
    assert p in multiset(sorted);
    assert p in multiset(kept);
    assert p in kept;
  }

  /** The OCR loop over the image list: each batch is
      `image_files[i:i + BATCH_SIZE]` and its answer is appended under
      "Images {i+1} to {i+len(batch)}". */
  method PicText(folder: string, names: seq<string>, ocr: seq<string> -> string) returns (allText: string)
    ensures allText == PositionalText("Images", ocr, Chunks(ImageFiles(folder, names), BatchSize))
  {
    var imageFiles := ImageFiles(folder, names);
    allText := PositionalLoop("Images", ocr, imageFiles, BatchSize);
  }

  /** Batch `j` is the slice of the image list at positions `3j .. 3j+2`
      (fewer at the end), labelled with its one-based first and last
      positions. */
  lemma PicBatches(files: seq<string>, ocr: seq<string> -> string, j: nat)
    requires j < CeilDiv(|files|, BatchSize)
    ensures 0 <= j * BatchSize < |files|
    ensures MapBatches(Sectioner("Images", ocr), Chunks(files, BatchSize), 0)[j]
         == Section(SpanLabel("Images", j * BatchSize + 1, Min(j * BatchSize + BatchSize, |files|)),
                    ocr(files[j * BatchSize .. Min(j * BatchSize + BatchSize, |files|)]))
  {
    PositionalSectionAt("Images", ocr, files, BatchSize, j);
  }
}
