/** The labelled sections every script appends to its `all_text`
    accumulator, and the position-based labels of the two stand-alone
    scripts ("Pages i+1 to i+len" and "Images i+1 to i+len"). */
module Sections {
  import opened Text
  import opened Batching

  /** One appended chunk, `f"\n\n--- {heading} ---\n\n{body}"`. */
  function Section(heading: string, body: string): string {
    "\n\n--- " + heading + " ---\n\n" + body
  }

  /** The heading can be read back from a section with a known body. */
  lemma SectionInjective(a: string, b: string, body: string)
    requires Section(a, body) == Section(b, body)
    ensures a == b
  {
    assert |a| == |b|;
    assert Section(a, body)[6 .. 6 + |a|] == a;
    assert Section(b, body)[6 .. 6 + |b|] == b;
  }

  /** `f"{noun} {first} to {last}"`. */
  function SpanLabel(noun: string, first: int, last: int): string {
    noun + " " + IntToString(first) + " to " + IntToString(last)
  }

  /** `"".join(xs)`: the accumulator after appending every section in order. */
  function Concat(xs: seq<string>): string {
    if |xs| == 0 then "" else xs[0] + Concat(xs[1..])
  }

  lemma ConcatAppend(xs: seq<string>, x: string)
    ensures Concat(xs + [x]) == Concat(xs) + x
  {
    if |xs| > 0 {
      assert (xs + [x])[1..] == xs[1..] + [x];
      ConcatAppend(xs[1..], x);
    }
  }

  /** The section for one batch whose first item sits at list position
      `offset` (zero-based): its label names the batch's first and last
      one-based positions. */
  function PositionalSection(noun: string, ocr: seq<string> -> string,
                             offset: nat, batch: seq<string>): string
  {
    Section(SpanLabel(noun, offset + 1, offset + |batch|), ocr(batch))
  }

  /** `PositionalSection` for a fixed noun and OCR, as the per-batch step
      of `MapBatches`. */
  function Sectioner(noun: string, ocr: seq<string> -> string): (nat, seq<string>) -> string {
    (offset: nat, batch: seq<string>) => PositionalSection(noun, ocr, offset, batch)
  }

  /** The text the position-labelled batch loop accumulates. */
  function PositionalText(noun: string, ocr: seq<string> -> string,
                          batches: seq<seq<string>>): string
  {
    Concat(MapBatches(Sectioner(noun, ocr), batches, 0))
  }

  /** Batch `j` of a position-labelled loop is labelled with the one-based
      positions of its first and last items, `j*k + 1` and
      `min(j*k + k, len(xs))`. */
  lemma PositionalSectionAt(noun: string, ocr: seq<string> -> string, xs: seq<string>, k: nat, j: nat)
    requires k > 0 && j < CeilDiv(|xs|, k)
    ensures 0 <= j * k < |xs|
    ensures MapBatches(Sectioner(noun, ocr), Chunks(xs, k), 0)[j]
         == Section(SpanLabel(noun, j * k + 1, Min(j * k + k, |xs|)), ocr(xs[j * k .. Min(j * k + k, |xs|)]))
  {
    MapBatchesAt(Sectioner(noun, ocr), xs, k, j);
  }

  /** One turn of a batch loop that appends `f(i, xs[i:i+k])`: the text
      still to come from position `i` is that section followed by the text
      from the next start. */
  lemma ConcatBatchesFrom<T>(f: (nat, seq<T>) -> string, xs: seq<T>, k: nat, i: nat)
    requires k > 0 && i < |xs|
    ensures Concat(MapBatches(f, Chunks(xs[i..], k), i))
         == f(i, xs[i .. Min(i + k, |xs|)])
            + Concat(MapBatches(f, Chunks(xs[Min(i + k, |xs|)..], k), Min(i + k, |xs|)))
  {
    MapBatchesFrom(f, xs, k, i);
    var m := MapBatches(f, Chunks(xs[i..], k), i);
    assert m[1..] == MapBatches(f, Chunks(xs[Min(i + k, |xs|)..], k), Min(i + k, |xs|));
  }

  lemma AppendAssoc(a: string, b: string, c: string)
    ensures a + (b + c) == (a + b) + c
  {
  }

  /** A position-labelled loop: `i` runs over `range(0, len(xs), k)`, and
      each turn appends the section for `xs[i:i+k]`. */
  method PositionalLoop(noun: string, ocr: seq<string> -> string, xs: seq<string>, k: nat)
    returns (allText: string)
    requires k > 0
    ensures allText == PositionalText(noun, ocr, Chunks(xs, k))
  {
    allText := "";
    var i := 0;
    assert xs[0..] == xs;
    while i < |xs|
      invariant 0 <= i <= |xs|
      invariant PositionalText(noun, ocr, Chunks(xs, k))
             == allText + Concat(MapBatches(Sectioner(noun, ocr), Chunks(xs[i..], k), i))
      decreases |xs| - i
    {
      var next := Min(i + k, |xs|);
      var batch := xs[i .. next];
      var section := Section(SpanLabel(noun, i + 1, i + |batch|), ocr(batch));
      ConcatBatchesFrom(Sectioner(noun, ocr), xs, k, i);
      assert Sectioner(noun, ocr)(i, batch) == section;
      ghost var rest := Concat(MapBatches(Sectioner(noun, ocr), Chunks(xs[next..], k), next));
      AppendAssoc(allText, section, rest);
      allText := allText + section;
      i := next;
    }
    assert xs[|xs|..] == [];
  }
}
